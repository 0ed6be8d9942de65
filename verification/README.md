# Inventory controller model

A Dafny model of the inventory screen's controller from the UI test framework
samples. The controller holds at most eight items in order, plus one selected
item. It supports adding, removing, selecting, using, discarding and picking up
items, and it raises "item selected" and "item used" events.

The model is functional. An `Inventory` value holds four things:

- the item sequence;
- the selected item (`Option<Item>`);
- the log of raised events;
- a mirror of the widget properties the controller writes: the eight slot
  labels, the detail name and description labels, and whether the use and
  discard buttons are enabled.

Each controller member is a pure function. It takes the same branches, in the
same order, as the C# member. Members that return a `bool` return a `Step`,
which pairs the new state with that result.

Items are compared by identity, as C# reference equality does. `Item(id, name,
description)` carries an explicit `id`. Two items are the same object exactly
when their ids are equal. Names may repeat, and the same object may be added
twice.

Modules:

- `Items` (`items.dfy`) holds the item and event types, and the
  identity-based list search and removal.
- `Inventory` (`inventory.dfy`) holds the state, the constants (`MaxSlots`,
  the pick-up tables, the "nothing selected" label), the widget writes and
  the operations.
- `InventoryProperties` (`properties.dfy`) holds the state invariant, its
  preservation by every operation and along any sequence of user actions, the
  round trip between add and remove, batch filling, the pick-up cycle, and
  the scenarios of the controller's tests.

The main invariant, `InventoryProperties.Invariant`, has three parts: at most
eight items; the selection is nothing or one of the held items; the widgets
show exactly the list and the selection. `AddItem` redraws only the new slot
and `RemoveItem` redraws all of them. The preservation lemmas show that both
are enough to keep the labels right.

Behaviour of `InventoryController.cs` worth noting:

- `SelectItem` with a slot past the end of the list does nothing and keeps the
  current selection. Only the slot-click handler `OnSlotClicked` clears it.
- `ClearSelection` raises no event. Only `SelectItem` raises "item selected".
- The selection is stored as the item itself, not as a slot index. Removing
  an earlier item moves the selected item down one slot, and it stays
  selected.
- `IsFull` tests `Count >= 8`. `IsFullMeansAtCapacity` shows that in a valid
  state this is the same as `Count == 8`.
- Slot labels are written directly by the controller. No per-slot event is
  raised.

## Model

| member | source | states |
|---|---|---|
| Items.IndexOf | Assets/UITestFrameworkSamples/Runtime/Inventory/InventoryController.cs:110-111 | The search returns -1 exactly when no held item is the object; otherwise it returns the first position holding that object. |
| Items.RemoveAt | Assets/UITestFrameworkSamples/Runtime/Inventory/InventoryController.cs:113 | Removing at a position keeps the items before it and moves every later item down one place. |
| Items.RemoveFirstOccurrence | Assets/UITestFrameworkSamples/Runtime/Inventory/InventoryController.cs:110-113 | Removing at the found position takes away exactly one occurrence of the object. Every other object stays, in its original relative order. |
| Inventory.UpdateSlot | Assets/UITestFrameworkSamples/Runtime/Inventory/InventoryController.cs:204-222 | Redrawing slot i shows the name of item i, or "" past the list, and leaves every other slot and the detail labels alone. A slot the layout lacks is skipped. |
| Inventory.UpdateSlotsFrom | Assets/UITestFrameworkSamples/Runtime/Inventory/InventoryController.cs:227-233 | The redraw loop from slot i onwards makes slots i..7 show the list and leaves slots before i unchanged. |
| Inventory.UpdateAllSlots | Assets/UITestFrameworkSamples/Runtime/Inventory/InventoryController.cs:227-233 | After a full redraw the eight slot labels show exactly the list. |
| Inventory.UpdateItemDetail | Assets/UITestFrameworkSamples/Runtime/Inventory/InventoryController.cs:184-199 | With an item, the detail labels show its name and description. Without one, they show the placeholder and an empty description. Slot labels and buttons are untouched. |
| Inventory.SetActionButtonsEnabled | Assets/UITestFrameworkSamples/Runtime/Inventory/InventoryController.cs:238-245 | Both action buttons get the given enabled state. Every label is untouched. |
| Inventory.ItemCount | Assets/UITestFrameworkSamples/Runtime/Inventory/InventoryController.cs:30 | The number of held items. It has no contract of its own; IsFullMeansAtCapacity and the operation contracts state its behaviour. |
| Inventory.IsFull | Assets/UITestFrameworkSamples/Runtime/Inventory/InventoryController.cs:31 | Holds when at least 8 items are held. It has no contract of its own; IsFullMeansAtCapacity states that in a valid state this means exactly 8. |
| Inventory.New | Assets/UITestFrameworkSamples/Runtime/Inventory/InventoryController.cs:51-88 | A new controller is empty, has no selection, has logged no event and has its action buttons disabled. |
| Inventory.AddItem | Assets/UITestFrameworkSamples/Runtime/Inventory/InventoryController.cs:93-103 | Add succeeds exactly when fewer than 8 items are held. On failure nothing changes. On success the item is appended after the unchanged old items. Selection and log are never touched. |
| Inventory.ClearSelection | Assets/UITestFrameworkSamples/Runtime/Inventory/InventoryController.cs:169-179 | Clearing leaves nothing selected, shows the placeholder detail and disables the buttons. The list is unchanged and no event is logged. |
| Inventory.RemoveItem | Assets/UITestFrameworkSamples/Runtime/Inventory/InventoryController.cs:108-122 | Remove succeeds exactly when the object is held; otherwise nothing changes. On success the first occurrence is cut out and the gap closed. The selection is cleared exactly when it was that object; otherwise it is kept. No event is logged. |
| Inventory.SelectItem | Assets/UITestFrameworkSamples/Runtime/Inventory/InventoryController.cs:141-164 | For an empty slot the state is unchanged, so the old selection stays. For a held slot, that slot's item becomes selected and one ItemSelected event for it is logged. The detail labels show its name and description, the buttons are enabled, and the list and slot labels are unchanged. |
| Inventory.OnSlotClicked | Assets/UITestFrameworkSamples/Runtime/Inventory/InventoryController.cs:127-136 | A click on an empty slot clears the selection without logging, shows the placeholder detail and disables the buttons. A click on a held slot selects its item and logs ItemSelected. |
| Inventory.UseSelectedItem | Assets/UITestFrameworkSamples/Runtime/Inventory/InventoryController.cs:250-256 | With nothing selected nothing changes. Otherwise ItemUsed for the selected item is logged. When that object is held, its first occurrence is cut out, the others keep their order, and nothing is selected afterwards. When it is not held, the list and the selection stay. |
| Inventory.DiscardSelectedItem | Assets/UITestFrameworkSamples/Runtime/Inventory/InventoryController.cs:261-265 | With nothing selected nothing changes. No event is ever logged. When the selected object is held, its first occurrence is cut out, the others keep their order, and nothing is selected afterwards. When it is not held, nothing changes. |
| Inventory.PickUpItem | Assets/UITestFrameworkSamples/Runtime/Inventory/InventoryController.cs:270-285 | When full nothing changes. Otherwise one item with the given id is appended, with name and description from entry Count % 5 of the Apple/Bottle/Coin/Key/Stone tables. |
| InventoryProperties.NewRenderedIffBlank | Assets/UITestFrameworkSamples/Runtime/Inventory/InventoryController.cs:51-88 | A new controller's widgets match its empty state if and only if the layout starts blank: empty slot labels, the placeholder name and an empty description. The constructor redraws no label. |
| InventoryProperties.IsFullMeansAtCapacity | Assets/UITestFrameworkSamples/Runtime/Inventory/InventoryController.cs:30-31 | In a valid state IsFull holds exactly when ItemCount is 8. |
| InventoryProperties.AppendedSlotRedraw | Assets/UITestFrameworkSamples/Runtime/Inventory/InventoryController.cs:100-101 | After an append, redrawing only the new slot gives the same labels as a full redraw. |
| InventoryProperties.AddItemKeepsInvariant | Assets/UITestFrameworkSamples/Runtime/Inventory/InventoryController.cs:93-103 | Adding keeps the count at most 8, keeps the selection listed and keeps the widgets in step with the state. |
| InventoryProperties.RemoveItemKeepsInvariant | Assets/UITestFrameworkSamples/Runtime/Inventory/InventoryController.cs:108-122 | Removing keeps the selection nothing or a held item, and keeps the widgets in step. |
| InventoryProperties.SelectItemKeepsInvariant | Assets/UITestFrameworkSamples/Runtime/Inventory/InventoryController.cs:141-164 | Selecting keeps the invariant. |
| InventoryProperties.OnSlotClickedKeepsInvariant | Assets/UITestFrameworkSamples/Runtime/Inventory/InventoryController.cs:127-136 | A slot click keeps the invariant. |
| InventoryProperties.UseSelectedItemKeepsInvariant | Assets/UITestFrameworkSamples/Runtime/Inventory/InventoryController.cs:250-256 | Using keeps the invariant. |
| InventoryProperties.DiscardSelectedItemKeepsInvariant | Assets/UITestFrameworkSamples/Runtime/Inventory/InventoryController.cs:261-265 | Discarding keeps the invariant. |
| InventoryProperties.PickUpItemKeepsInvariant | Assets/UITestFrameworkSamples/Runtime/Inventory/InventoryController.cs:270-285 | Picking up keeps the invariant. |
| InventoryProperties.ApplyKeepsInvariant | Assets/UITestFrameworkSamples/Runtime/Inventory/InventoryController.cs:58-88 | Every call the widgets can trigger keeps the invariant, and so does every public call. |
| InventoryProperties.RunKeepsInvariant | Assets/UITestFrameworkSamples/Runtime/Inventory/InventoryController.cs:41-45 | Any sequence of calls from an invariant state ends in an invariant state. |
| InventoryProperties.ReachableStatesKeepInvariant | Assets/UITestFrameworkSamples/Runtime/Inventory/InventoryController.cs:51-56 | From a blank screen, every reachable state holds at most 8 items, selects nothing or a held item, and shows exactly its state. |
| InventoryProperties.ApplyKeepsValid | Assets/UITestFrameworkSamples/Runtime/Inventory/InventoryController.cs:93-265 | Every call keeps the list at most 8 long and the selection nothing or a held item, whatever the widgets show. |
| InventoryProperties.RunKeepsValid | Assets/UITestFrameworkSamples/Runtime/Inventory/InventoryController.cs:41-45 | Any sequence of calls from a valid state ends in a valid state. |
| InventoryProperties.ReachableStatesAreValid | Assets/UITestFrameworkSamples/Runtime/Inventory/InventoryController.cs:51-56 | Whatever text the layout starts with, every reachable state holds at most 8 items and selects nothing or a held item. |
| InventoryProperties.AddThenRemoveRestores | Assets/UITestFrameworkSamples/Runtime/Inventory/InventoryController.cs:93-122 | Removing an item just added, when it was not held before, succeeds and restores the earlier state exactly, widgets included. |
| InventoryProperties.RemoveItemKeepsOthers | Assets/UITestFrameworkSamples/Runtime/Inventory/InventoryController.cs:108-114 | A successful removal takes away exactly one occurrence of the object. Every other object keeps its order, including a different object with the same name. |
| InventoryProperties.RemovingEarlierItemShiftsSelection | Assets/UITestFrameworkSamples/Runtime/Inventory/InventoryController.cs:113-119 | Removing an item listed before the selected one, when it is a different object, keeps the selection, and the selected item now sits one slot lower. Lists holding an object twice are included. |
| InventoryProperties.AddAllKeepsWhatFits | Assets/UITestFrameworkSamples/Runtime/Inventory/InventoryController.cs:93-103 | A batch of adds keeps, in order, exactly the first items that fit and drops the rest. Selection and log are untouched. |
| InventoryProperties.NinthAddFails | Assets/UITestFrameworkSamples/Tests/Editor/InventoryTests.cs:67-91 | After eight adds into a new inventory, exactly those eight are held, IsFull holds, and a ninth add fails and changes nothing. |
| InventoryProperties.SelectAndClickOnEmptySlot | Assets/UITestFrameworkSamples/Runtime/Inventory/InventoryController.cs:127-143 | On a held slot a click and SelectItem agree. On an empty slot SelectItem keeps the selection and a click clears it. |
| InventoryProperties.UseIsDiscardPlusEvent | Assets/UITestFrameworkSamples/Runtime/Inventory/InventoryController.cs:250-265 | With something selected, using has the same effect as discarding plus exactly one ItemUsed event for that item. |
| InventoryProperties.DiscardTwiceIsDiscardOnce | Assets/UITestFrameworkSamples/Runtime/Inventory/InventoryController.cs:261-265 | A second discard straight after the first changes nothing. |
| InventoryProperties.UseTwiceIsUseOnce | Assets/UITestFrameworkSamples/Runtime/Inventory/InventoryController.cs:250-256 | In a valid state a second use straight after the first changes nothing and logs nothing. |
| InventoryProperties.PickUpCyclesThroughTable | Assets/UITestFrameworkSamples/Runtime/Inventory/InventoryController.cs:270-285 | Repeated pick-ups fill up to 8 items and keep the held items. The item at position j gets name and description entry j % 5 and the j-th given id. |
| InventoryProperties.AddToEmptyScenario | Assets/UITestFrameworkSamples/Tests/Editor/InventoryTests.cs:45-65 | Adding an item to a new inventory succeeds and the inventory then holds exactly that item. |
| InventoryProperties.ClickFirstSlotScenario | Assets/UITestFrameworkSamples/Tests/Editor/InventoryTests.cs:93-115 | Clicking slot 0 of a one-item inventory selects that item, logs the selection and enables the buttons. |
| InventoryProperties.SelectShowsDetailScenario | Assets/UITestFrameworkSamples/Tests/Editor/InventoryTests.cs:117-133 | Selecting slot 0 shows that item's name and description in the detail labels. |
| InventoryProperties.UseOnlyItemScenario | Assets/UITestFrameworkSamples/Tests/Editor/InventoryTests.cs:135-162 | Selecting and using the only item logs ItemUsed for it, empties the inventory and clears the selection. |
| InventoryProperties.DiscardOnlyItemScenario | Assets/UITestFrameworkSamples/Tests/Editor/InventoryTests.cs:164-182 | Selecting and discarding the only item empties the inventory, clears the selection and logs no ItemUsed. |
| InventoryProperties.ClickEmptySlotScenario | Assets/UITestFrameworkSamples/Tests/Editor/InventoryTests.cs:204-224 | With the only item selected, clicking empty slot 1 clears the selection and shows the placeholder name. |

## Left out

- Inventory.SelectItem and Inventory.OnSlotClicked take a natural-number slot index. In C# a negative index passes the `>= Count` guard and then throws when the list is indexed. The slot buttons only ever pass 0 to 7.
- Null items are not modelled. `Item` has no null value. In C#, `AddItem(null)` appends and then fails while redrawing the label.
- Inventory.UseSelectedItem: event handlers are not modelled. They could call back into the controller between the used event and the removal. Each event is recorded in the log instead. Subscribing and unsubscribing handlers is not modelled either.
- The "selected" and "empty-slot" CSS classes, and the `selectedSlot` button reference, are not modelled. They only affect styling. The highlight belongs to a button rather than to an item, so after an earlier item is removed it can stay on the wrong slot.
- Widget lookups by name, and callback registration in `Initialize`, are not modelled. The mirror assumes the two detail labels exist. Without them the C# code throws a null-reference error.
- `CloseInventory` and `IsVisible` are not modelled. They only change or read a container's display style.
- The `Items` property returns a copy of the list, so the model simply uses the sequence.
- `InventoryItem`'s name and description setters are not modelled: items here are immutable values.
- Inventory.PickUpItem takes the identity of the newly created item as a parameter. Object allocation is outside the model.
- Item identities are not forced to be fresh. A pick-up, or a call to `AddItem`, may use an id that an item with a different name already holds. A C# reference cannot be in that state. The model admits more states than the program, so every property proved still holds of the program.
- The main-menu controller and the two UI-manager bootstrap classes are not part of this model. They hold only engine lifecycle and button wiring.
