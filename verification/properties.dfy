/** Properties of the inventory controller that relate several operations or
    hold across every sequence of them. */
module InventoryProperties {
  import opened Items
  import opened Inventory

  /** The state invariant: the list fits, the selection is nothing or a listed
      item, and the widgets show exactly the list and the selection. */
  predicate Invariant(s: Inventory) {
    Valid(s) && Rendered(s)
  }

  /** The layout a freshly built inventory screen starts from: empty slot
      labels and the "nothing selected" detail. */
  predicate BlankLayout(v: View) {
    && v.slotLabels == seq(MaxSlots, _ => "")
    && v.detailName == NoSelectionLabel
    && v.detailDescription == ""
  }

  /** A new controller shows its (empty) state exactly when the layout it is
      given starts blank: the constructor redraws no label. */
  lemma NewRenderedIffBlank(layout: View)
    ensures Rendered(New(layout)) <==> BlankLayout(layout)
  {
    assert SlotLabels([]) == seq(MaxSlots, _ => "");
  }

  /** `IsFull` tests `>=`, but in a valid state it means "exactly MaxSlots". */
  lemma IsFullMeansAtCapacity(s: Inventory)
    requires Valid(s)
    ensures IsFull(s) <==> ItemCount(s) == MaxSlots
  {
  }

  // ---------------------------------------------------------------------
  // Helpers about the widget mirror and the list.

  /** Redrawing only the slot of a newly appended item is enough: every other
      slot already shows the right label. */
  lemma AppendedSlotRedraw(items: seq<Item>, x: Item)
    requires |items| < MaxSlots
    ensures SlotLabels(items)[|items| := x.name] == SlotLabels(items + [x])
  {
    var a, b := SlotLabels(items)[|items| := x.name], SlotLabels(items + [x]);
    forall k | 0 <= k < MaxSlots
      ensures a[k] == b[k]
    {
      if k < |items| {
        assert (items + [x])[k] == items[k];
      }
    }
  }

  /** An item other than the removed one is still listed afterwards. */
  lemma StillListed(items: seq<Item>, i: nat, x: Item)
    requires i < |items| && x in items && items[i] != x
    ensures x in RemoveAt(items, i)
  {
    var k :| 0 <= k < |items| && items[k] == x;
    if k < i {
      assert RemoveAt(items, i)[k] == x;
    } else {
      assert RemoveAt(items, i)[k - 1] == x;
    }
  }

  // ---------------------------------------------------------------------
  // Every operation keeps the invariant.

  lemma AddItemKeepsInvariant(s: Inventory, item: Item)
    requires Invariant(s)
    ensures Invariant(AddItem(s, item).next)
  {
    if |s.items| < MaxSlots {
      AppendedSlotRedraw(s.items, item);
      assert s.items + [item] == AddItem(s, item).next.items;
    }
  }

  lemma RemoveItemKeepsInvariant(s: Inventory, item: Item)
    requires Invariant(s)
    ensures Invariant(RemoveItem(s, item).next)
  {
    var index := IndexOf(s.items, item.id);
    if index >= 0 && s.selected.Some? && s.selected.value.id != item.id {
      StillListed(s.items, index, s.selected.value);
    }
  }

  lemma SelectItemKeepsInvariant(s: Inventory, slotIndex: nat)
    requires Invariant(s)
    ensures Invariant(SelectItem(s, slotIndex))
  {
  }

  lemma OnSlotClickedKeepsInvariant(s: Inventory, slotIndex: nat)
    requires Invariant(s)
    ensures Invariant(OnSlotClicked(s, slotIndex))
  {
  }

  lemma UseSelectedItemKeepsInvariant(s: Inventory)
    requires Invariant(s)
    ensures Invariant(UseSelectedItem(s))
  {
    if s.selected.Some? {
      RemoveItemKeepsInvariant(s.(log := s.log + [ItemUsed(s.selected.value)]), s.selected.value);
    }
  }

  lemma DiscardSelectedItemKeepsInvariant(s: Inventory)
    requires Invariant(s)
    ensures Invariant(DiscardSelectedItem(s))
  {
    if s.selected.Some? {
      RemoveItemKeepsInvariant(s, s.selected.value);
    }
  }

  lemma PickUpItemKeepsInvariant(s: Inventory, freshId: nat)
    requires Invariant(s)
    ensures Invariant(PickUpItem(s, freshId))
  {
    if !IsFull(s) {
      var index := |s.items| % |PickUpNames|;
      AddItemKeepsInvariant(s, Item(freshId, PickUpNames[index], PickUpDescriptions[index]));
    }
  }

  // ---------------------------------------------------------------------
  // Reachable states.

  /** The calls the presentation layer can make on the controller. */
  datatype Action =
    | Add(item: Item)
    | Remove(item: Item)
    | Select(slotIndex: nat)
    | ClickSlot(slotIndex: nat)
    | Use
    | Discard
    | PickUp(freshId: nat)

  function Apply(s: Inventory, a: Action): Inventory {
    match a
    case Add(item) => AddItem(s, item).next
    case Remove(item) => RemoveItem(s, item).next
    case Select(i) => SelectItem(s, i)
    case ClickSlot(i) => OnSlotClicked(s, i)
    case Use => UseSelectedItem(s)
    case Discard => DiscardSelectedItem(s)
    case PickUp(id) => PickUpItem(s, id)
  }

  function Run(s: Inventory, actions: seq<Action>): Inventory
    decreases |actions|
  {
    if |actions| == 0 then s else Run(Apply(s, actions[0]), actions[1..])
  }

  lemma ApplyKeepsInvariant(s: Inventory, a: Action)
    requires Invariant(s)
    ensures Invariant(Apply(s, a))
  {
    match a
    case Add(item) => AddItemKeepsInvariant(s, item);
    case Remove(item) => RemoveItemKeepsInvariant(s, item);
    case Select(i) => SelectItemKeepsInvariant(s, i);
    case ClickSlot(i) => OnSlotClickedKeepsInvariant(s, i);
    case Use => UseSelectedItemKeepsInvariant(s);
    case Discard => DiscardSelectedItemKeepsInvariant(s);
    case PickUp(id) => PickUpItemKeepsInvariant(s, id);
  }

  /** From a blank screen, whatever the user does, at most MaxSlots items are
      held, the selection is nothing or a held item, and the widgets show the
      state exactly. */
  lemma {:induction false} ReachableStatesKeepInvariant(layout: View, actions: seq<Action>)
    requires BlankLayout(layout)
    ensures Invariant(Run(New(layout), actions))
  {
    NewRenderedIffBlank(layout);
    RunKeepsInvariant(New(layout), actions);
  }

  /** Whatever text the layout starts with, every reachable state holds at
      most MaxSlots items and selects nothing or a held item. */
  lemma ReachableStatesAreValid(layout: View, actions: seq<Action>)
    ensures Valid(Run(New(layout), actions))
  {
    RunKeepsValid(New(layout), actions);
  }

  lemma ApplyKeepsValid(s: Inventory, a: Action)
    requires Valid(s)
    ensures Valid(Apply(s, a))
  {
    var v := s.view.(slotLabels := SlotLabels(s.items), detailName := DetailName(s.selected),
                     detailDescription := DetailDescription(s.selected), actionsEnabled := s.selected.Some?);
    var t := s.(view := v);
    ApplyKeepsInvariant(t, a);
    ApplyIgnoresView(s, t, a);
  }

  /** The list and the selection after a call do not depend on the widgets. */
  lemma ApplyIgnoresView(s: Inventory, t: Inventory, a: Action)
    requires s.items == t.items && s.selected == t.selected && s.log == t.log
    ensures Apply(s, a).items == Apply(t, a).items
    ensures Apply(s, a).selected == Apply(t, a).selected
  {
  }

  lemma {:induction false} RunKeepsValid(s: Inventory, actions: seq<Action>)
    requires Valid(s)
    ensures Valid(Run(s, actions))
    decreases |actions|
  {
    if |actions| > 0 {
      ApplyKeepsValid(s, actions[0]);
      RunKeepsValid(Apply(s, actions[0]), actions[1..]);
    }
  }

  lemma {:induction false} RunKeepsInvariant(s: Inventory, actions: seq<Action>)
    requires Invariant(s)
    ensures Invariant(Run(s, actions))
    decreases |actions|
  {
    if |actions| > 0 {
      ApplyKeepsInvariant(s, actions[0]);
      RunKeepsInvariant(Apply(s, actions[0]), actions[1..]);
    }
  }

  // ---------------------------------------------------------------------
  // Adding and removing.

  /** Removing an item just added undoes the addition completely, widgets
      included, provided the item was not already held. */
  lemma AddThenRemoveRestores(s: Inventory, item: Item)
    requires Invariant(s) && !IsFull(s) && !HasId(s.items, item.id)
    ensures RemoveItem(AddItem(s, item).next, item) == Step(s, true)
  {
    var t := AddItem(s, item).next;
    assert t.items == s.items + [item];
    assert IndexOf(t.items, item.id) == |s.items|;
    assert RemoveAt(t.items, |s.items|) == s.items;
    if s.selected.Some? {
      assert s.selected.value.id != item.id;
    }
  }

  /** A successful removal takes away exactly one occurrence of the object and
      keeps every other object in its relative order. Another object with the
      same name is never what goes. */
  lemma RemoveItemKeepsOthers(s: Inventory, item: Item)
    requires HasId(s.items, item.id)
    ensures Occurrences(RemoveItem(s, item).next.items, item.id) == Occurrences(s.items, item.id) - 1
    ensures Others(RemoveItem(s, item).next.items, item.id) == Others(s.items, item.id)
  {
    RemoveFirstOccurrence(s.items, item.id);
  }

  /** Removing an item listed before the selected one, when it is a different
      object, keeps that selection; the selected item moves one slot down.
      The object removed may also occur earlier still: only its first
      occurrence goes, and that too lies before the selected item. */
  lemma RemovingEarlierItemShiftsSelection(s: Inventory, i: nat, j: nat)
    requires i < j < |s.items| && s.selected == Some(s.items[j])
    requires s.items[i].id != s.items[j].id
    ensures RemoveItem(s, s.items[i]).next.selected == s.selected
    ensures RemoveItem(s, s.items[i]).next.items[j - 1] == s.items[j]
  {
    assert IndexOf(s.items, s.items[i].id) <= i;
  }

  /** The items added, in order, up to the first failure and beyond. */
  function AddAll(s: Inventory, xs: seq<Item>): Inventory
    decreases |xs|
  {
    if |xs| == 0 then s else AddAll(AddItem(s, xs[0]).next, xs[1..])
  }

  function Min(a: nat, b: nat): nat {
    if a <= b then a else b
  }

  /** Adding a batch keeps the first items that fit, in order, and drops the
      rest; selection and log are untouched. */
  lemma {:induction false} AddAllKeepsWhatFits(s: Inventory, xs: seq<Item>)
    requires |s.items| <= MaxSlots
    ensures AddAll(s, xs).items == s.items + xs[..Min(|xs|, MaxSlots - |s.items|)]
    ensures AddAll(s, xs).selected == s.selected && AddAll(s, xs).log == s.log
    decreases |xs|
  {
    if |xs| > 0 {
      var t := AddItem(s, xs[0]).next;
      AddAllKeepsWhatFits(t, xs[1..]);
      if |s.items| < MaxSlots {
        assert t.items == s.items + [xs[0]];
        assert xs[..Min(|xs|, MaxSlots - |s.items|)] == [xs[0]] + xs[1..][..Min(|xs| - 1, MaxSlots - |t.items|)];
      } else {
        assert xs[..Min(|xs|, MaxSlots - |s.items|)] == [];
        assert xs[1..][..Min(|xs| - 1, MaxSlots - |t.items|)] == [];
      }
    }
  }

  /** Once eight items are in, the ninth is refused and the list stays. */
  lemma NinthAddFails(layout: View, xs: seq<Item>, extra: Item)
    requires |xs| == MaxSlots
    ensures AddAll(New(layout), xs).items == xs
    ensures IsFull(AddAll(New(layout), xs))
    ensures AddItem(AddAll(New(layout), xs), extra) == Step(AddAll(New(layout), xs), false)
  {
    AddAllKeepsWhatFits(New(layout), xs);
    assert xs[..MaxSlots] == xs;
  }

  // ---------------------------------------------------------------------
  // Selecting.

  /** `SelectItem` and a slot click agree on an occupied slot; on an empty
      slot the first keeps the selection and the second clears it. */
  lemma SelectAndClickOnEmptySlot(s: Inventory, slotIndex: nat)
    ensures slotIndex < |s.items| ==> OnSlotClicked(s, slotIndex) == SelectItem(s, slotIndex)
    ensures slotIndex >= |s.items| ==> SelectItem(s, slotIndex).selected == s.selected
    ensures slotIndex >= |s.items| ==> OnSlotClicked(s, slotIndex).selected == None
  {
  }

  // ---------------------------------------------------------------------
  // Using and discarding.

  /** Using is discarding plus the used event, raised before the removal. */
  lemma UseIsDiscardPlusEvent(s: Inventory)
    requires s.selected.Some?
    ensures UseSelectedItem(s) == DiscardSelectedItem(s).(log := s.log + [ItemUsed(s.selected.value)])
  {
  }

  /** A second discard in a row does nothing. */
  lemma DiscardTwiceIsDiscardOnce(s: Inventory)
    ensures DiscardSelectedItem(DiscardSelectedItem(s)) == DiscardSelectedItem(s)
  {
    if s.selected.Some? {
      var item := s.selected.value;
      if HasId(s.items, item.id) {
        assert DiscardSelectedItem(s).selected == None;
      } else {
        assert DiscardSelectedItem(s) == s;
      }
    }
  }

  /** In a valid state a second use in a row does nothing: the first one
      removed the item and cleared the selection. */
  lemma UseTwiceIsUseOnce(s: Inventory)
    requires Valid(s)
    ensures UseSelectedItem(UseSelectedItem(s)) == UseSelectedItem(s)
  {
  }

  // ---------------------------------------------------------------------
  // Picking up.

  function PickUpAll(s: Inventory, ids: seq<nat>): Inventory
    decreases |ids|
  {
    if |ids| == 0 then s else PickUpAll(PickUpItem(s, ids[0]), ids[1..])
  }

  /** Picking up from the field, starting from any number of held items, draws
      names and descriptions cyclically from the table by position, and
      stops at MaxSlots. */
  lemma {:induction false} PickUpCyclesThroughTable(s: Inventory, ids: seq<nat>)
    requires |s.items| <= MaxSlots
    ensures |PickUpAll(s, ids).items| == |s.items| + Min(|ids|, MaxSlots - |s.items|)
    ensures PickUpAll(s, ids).items[..|s.items|] == s.items
    ensures forall j :: |s.items| <= j < |PickUpAll(s, ids).items| ==>
      && PickUpAll(s, ids).items[j].name == PickUpNames[j % 5]
      && PickUpAll(s, ids).items[j].description == PickUpDescriptions[j % 5]
      && PickUpAll(s, ids).items[j].id == ids[j - |s.items|]
    decreases |ids|
  {
    if |ids| > 0 {
      var t := PickUpItem(s, ids[0]);
      PickUpCyclesThroughTable(t, ids[1..]);
      var r := PickUpAll(s, ids);
      if IsFull(s) {
        assert t == s;
        assert PickUpAll(t, ids[1..]) == r;
      } else {
        assert r == PickUpAll(t, ids[1..]);
        assert r.items[..|t.items|] == t.items;
        forall j | 0 <= j < |s.items|
          ensures r.items[j] == s.items[j]
        {
          assert r.items[j] == r.items[..|t.items|][j] == t.items[j] == t.items[..|s.items|][j];
        }
        forall j | |s.items| <= j < |r.items|
          ensures r.items[j].id == ids[j - |s.items|]
        {
          if j > |s.items| {
            assert ids[j - |s.items|] == ids[1..][j - |t.items|];
          } else {
            assert r.items[j] == t.items[j];
          }
        }
      }
    }
  }

  // ---------------------------------------------------------------------
  // The scenarios of the controller's tests.

  /** Adding to an empty inventory succeeds and holds exactly that item. */
  lemma AddToEmptyScenario(layout: View, apple: Item)
    ensures AddItem(New(layout), apple).succeeded
    ensures AddItem(New(layout), apple).next.items == [apple]
  {
  }

  /** Clicking the slot of the only item selects it and logs the selection. */
  lemma ClickFirstSlotScenario(layout: View, key: Item)
    ensures var s := OnSlotClicked(AddItem(New(layout), key).next, 0);
      s.selected == Some(key) && s.log == [ItemSelected(key)] && s.view.actionsEnabled
  {
  }

  /** Selecting the only item shows its name and description. */
  lemma SelectShowsDetailScenario(layout: View, stone: Item)
    ensures var s := SelectItem(AddItem(New(layout), stone).next, 0);
      s.view.detailName == stone.name && s.view.detailDescription == stone.description
  {
  }

  /** Select the only item and use it: the used event is raised for it, the
      inventory is empty and nothing is selected. */
  lemma UseOnlyItemScenario(layout: View, bottle: Item)
    ensures var s := UseSelectedItem(SelectItem(AddItem(New(layout), bottle).next, 0));
      && s.items == [] && s.selected == None
      && s.log == [ItemSelected(bottle), ItemUsed(bottle)]
  {
  }

  /** Select the only item and discard it: the inventory is empty, nothing is
      selected and no used event is raised. */
  lemma DiscardOnlyItemScenario(layout: View, coin: Item)
    ensures var s := DiscardSelectedItem(SelectItem(AddItem(New(layout), coin).next, 0));
      s.items == [] && s.selected == None && s.log == [ItemSelected(coin)]
  {
  }

  /** With one item selected, clicking the empty second slot clears the
      selection and shows the placeholder detail. */
  lemma ClickEmptySlotScenario(layout: View, apple: Item)
    ensures var s := OnSlotClicked(SelectItem(AddItem(New(layout), apple).next, 0), 1);
      s.selected == None && s.view.detailName == NoSelectionLabel
  {
  }
}
