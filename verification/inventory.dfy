/** The inventory controller as an immutable state and pure transitions.

    The state holds the ordered item list (at most `MaxSlots` of them), the
    selected item (the item itself, not its slot), the log of raised events,
    and a mirror of the few widget properties the controller writes: the slot
    labels, the two detail labels and whether the use/discard buttons are
    enabled. Each transition performs the same steps, in the same order and
    under the same guards, as the corresponding controller member.
 */
module Inventory {
  import opened Items

  /** Number of item slots. */
  const MaxSlots: nat := 8

  /** Text of the detail name label when nothing is selected. */
  const NoSelectionLabel: string := "選択されていません"

  /** The fixed tables an item picked up from the field is drawn from. */
  const PickUpNames: seq<string> := ["Apple", "Bottle", "Coin", "Key", "Stone"]
  const PickUpDescriptions: seq<string> := [
    "A fresh red apple",
    "An empty glass bottle",
    "A shiny gold coin",
    "An old rusty key",
    "A smooth round stone"
  ]

  /** What the controller has written into the widgets it owns. */
  datatype View = View(
    slotLabels: seq<string>,
    detailName: string,
    detailDescription: string,
    actionsEnabled: bool)

  datatype Inventory = Inventory(
    items: seq<Item>,
    selected: Option<Item>,
    log: seq<Event>,
    view: View)

  /** The state after an operation that reports success, and that report. */
  datatype Step = Step(next: Inventory, succeeded: bool)

  function ItemCount(s: Inventory): nat {
    |s.items|
  }

  predicate IsFull(s: Inventory) {
    |s.items| >= MaxSlots
  }

  /** The selection is nothing or one of the listed items, and the list fits. */
  predicate Valid(s: Inventory) {
    && |s.items| <= MaxSlots
    && (s.selected.Some? ==> s.selected.value in s.items)
  }

  // ---------------------------------------------------------------------
  // What the widgets should show for a given list and selection.

  function SlotLabel(items: seq<Item>, index: nat): string {
    if index < |items| then items[index].name else ""
  }

  function SlotLabels(items: seq<Item>): seq<string> {
    seq(MaxSlots, i requires 0 <= i < MaxSlots => SlotLabel(items, i))
  }

  function DetailName(selected: Option<Item>): string {
    match selected
    case Some(item) => item.name
    case None => NoSelectionLabel
  }

  function DetailDescription(selected: Option<Item>): string {
    match selected
    case Some(item) => item.description
    case None => ""
  }

  /** The widgets show exactly the list and the selection. */
  predicate Rendered(s: Inventory) {
    && s.view.slotLabels == SlotLabels(s.items)
    && s.view.detailName == DetailName(s.selected)
    && s.view.detailDescription == DetailDescription(s.selected)
    && s.view.actionsEnabled == s.selected.Some?
  }

  // ---------------------------------------------------------------------
  // The controller's widget writes.

  /** Redraws the label of one slot; a slot the layout lacks is skipped. */
  function UpdateSlot(v: View, items: seq<Item>, index: nat): (r: View)
    ensures |r.slotLabels| == |v.slotLabels|
    ensures index < |v.slotLabels| ==> r.slotLabels[index] == SlotLabel(items, index)
    ensures forall k :: 0 <= k < |v.slotLabels| && k != index ==> r.slotLabels[k] == v.slotLabels[k]
    ensures r.detailName == v.detailName && r.detailDescription == v.detailDescription
    ensures r.actionsEnabled == v.actionsEnabled
  {
    if index < |v.slotLabels| then v.(slotLabels := v.slotLabels[index := SlotLabel(items, index)])
    else v
  }

  /** The slot redraw loop, from slot `i` up to the last one. */
  function UpdateSlotsFrom(v: View, items: seq<Item>, i: nat): (r: View)
    requires i <= MaxSlots
    ensures |r.slotLabels| == |v.slotLabels|
    ensures |v.slotLabels| == MaxSlots ==> forall k :: i <= k < MaxSlots ==> r.slotLabels[k] == SlotLabel(items, k)
    ensures forall k :: 0 <= k < i && k < |v.slotLabels| ==> r.slotLabels[k] == v.slotLabels[k]
    ensures r.detailName == v.detailName && r.detailDescription == v.detailDescription
    ensures r.actionsEnabled == v.actionsEnabled
    decreases MaxSlots - i
  {
    if i == MaxSlots then v else UpdateSlotsFrom(UpdateSlot(v, items, i), items, i + 1)
  }

  /** Redraws every slot: afterwards the slots show the list exactly. */
  function UpdateAllSlots(v: View, items: seq<Item>): (r: View)
    ensures |r.slotLabels| == |v.slotLabels|
    ensures |v.slotLabels| == MaxSlots ==> r.slotLabels == SlotLabels(items)
    ensures r.detailName == v.detailName && r.detailDescription == v.detailDescription
    ensures r.actionsEnabled == v.actionsEnabled
  {
    UpdateSlotsFrom(v, items, 0)
  }

  /** Writes the detail labels: the item's name and description, or the
      placeholder and an empty description when there is no item. */
  function UpdateItemDetail(v: View, item: Option<Item>): (r: View)
    ensures item.Some? ==> r.detailName == item.value.name && r.detailDescription == item.value.description
    ensures item.None? ==> r.detailName == NoSelectionLabel && r.detailDescription == ""
    ensures r.slotLabels == v.slotLabels && r.actionsEnabled == v.actionsEnabled
  {
    v.(detailName := DetailName(item), detailDescription := DetailDescription(item))
  }

  /** Enables or disables the use and discard buttons together. */
  function SetActionButtonsEnabled(v: View, enabled: bool): (r: View)
    ensures r.actionsEnabled == enabled
    ensures r.slotLabels == v.slotLabels
    ensures r.detailName == v.detailName && r.detailDescription == v.detailDescription
  {
    v.(actionsEnabled := enabled)
  }

  // ---------------------------------------------------------------------
  // The controller's operations.

  /** A new controller over a layout: empty, nothing selected, buttons off.
      The slot and detail labels keep whatever text the layout gave them. */
  function New(layout: View): (s: Inventory)
    ensures s.items == [] && s.selected == None && s.log == []
    ensures Valid(s)
    ensures !s.view.actionsEnabled
  {
    Inventory([], None, [], SetActionButtonsEnabled(layout, false))
  }

  /** Appends `item` unless the list is full; only the new slot is redrawn. */
  function AddItem(s: Inventory, item: Item): (r: Step)
    ensures r.succeeded <==> |s.items| < MaxSlots
    ensures !r.succeeded ==> r.next == s
    ensures r.succeeded ==> |r.next.items| == |s.items| + 1
    ensures r.succeeded ==> r.next.items[..|s.items|] == s.items && r.next.items[|s.items|] == item
    ensures r.next.selected == s.selected && r.next.log == s.log
  {
    if |s.items| >= MaxSlots then Step(s, false)
    else
      var items := s.items + [item];
      assert items[..|s.items|] == s.items;
      Step(s.(items := items, view := UpdateSlot(s.view, items, |items| - 1)), true)
  }

  /** Drops the selection: clears the detail labels and disables the buttons.
      No event is raised. */
  function ClearSelection(s: Inventory): (r: Inventory)
    ensures r.selected == None
    ensures r.items == s.items && r.log == s.log
    ensures r.view.slotLabels == s.view.slotLabels
    ensures r.view.detailName == NoSelectionLabel && r.view.detailDescription == ""
    ensures !r.view.actionsEnabled
  {
    var v := UpdateItemDetail(s.view, None);
    s.(selected := None, view := SetActionButtonsEnabled(v, false))
  }

  /** Removes the first occurrence of the object `item`, redraws all slots, and
      drops the selection when it was that object. */
  function RemoveItem(s: Inventory, item: Item): (r: Step)
    ensures r.succeeded <==> HasId(s.items, item.id)
    ensures !r.succeeded ==> r.next == s
    ensures r.succeeded ==> IsFirstRemoved(s.items, item.id, r.next.items)
    ensures r.succeeded && s.selected.Some? && s.selected.value.id == item.id ==> r.next.selected == None
    ensures !(s.selected.Some? && s.selected.value.id == item.id) ==> r.next.selected == s.selected
    ensures r.next.log == s.log
  {
    var index := IndexOf(s.items, item.id);
    if index < 0 then Step(s, false)
    else
      var items := RemoveAt(s.items, index);
      assert FirstAt(s.items, item.id, index) && items == s.items[..index] + s.items[index + 1..];
      var t := s.(items := items, view := UpdateAllSlots(s.view, items));
      var cleared := if s.selected.Some? && s.selected.value.id == item.id then ClearSelection(t) else t;
      Step(cleared, true)
  }

  /** Selects the item in slot `slotIndex`; a slot past the list is ignored
      and any existing selection stays. */
  function SelectItem(s: Inventory, slotIndex: nat): (r: Inventory)
    ensures slotIndex >= |s.items| ==> r == s
    ensures slotIndex < |s.items| ==>
      && r.selected == Some(s.items[slotIndex])
      && r.log == s.log + [ItemSelected(s.items[slotIndex])]
      && r.items == s.items
      && r.view.slotLabels == s.view.slotLabels
      && r.view.detailName == s.items[slotIndex].name
      && r.view.detailDescription == s.items[slotIndex].description
      && r.view.actionsEnabled
  {
    if slotIndex >= |s.items| then s
    else
      var item := s.items[slotIndex];
      var v := SetActionButtonsEnabled(UpdateItemDetail(s.view, Some(item)), true);
      s.(selected := Some(item), view := v, log := s.log + [ItemSelected(item)])
  }

  /** A click on slot `slotIndex`: selects its item, or clears the selection
      when the slot is empty. */
  function OnSlotClicked(s: Inventory, slotIndex: nat): (r: Inventory)
    ensures slotIndex >= |s.items| ==> r.selected == None && r.items == s.items && r.log == s.log
    ensures slotIndex >= |s.items| ==>
      r.view.detailName == NoSelectionLabel && r.view.detailDescription == "" && !r.view.actionsEnabled
    ensures slotIndex < |s.items| ==> r.selected == Some(s.items[slotIndex])
    ensures slotIndex < |s.items| ==> r.log == s.log + [ItemSelected(s.items[slotIndex])]
  {
    if slotIndex >= |s.items| then ClearSelection(s) else SelectItem(s, slotIndex)
  }

  /** Uses the selected item: raises the used event, then removes the item. */
  function UseSelectedItem(s: Inventory): (r: Inventory)
    ensures s.selected == None ==> r == s
    ensures s.selected.Some? ==> r.log == s.log + [ItemUsed(s.selected.value)]
    ensures s.selected.Some? && s.selected.value in s.items ==>
      |r.items| == |s.items| - 1 && r.selected == None
    ensures s.selected.Some? && HasId(s.items, s.selected.value.id) ==>
      IsFirstRemoved(s.items, s.selected.value.id, r.items)
    ensures s.selected.Some? && !HasId(s.items, s.selected.value.id) ==>
      r.items == s.items && r.selected == s.selected
  {
    match s.selected
    case None => s
    case Some(item) =>
      var announced := s.(log := s.log + [ItemUsed(item)]);
      RemoveItem(announced, item).next
  }

  /** Discards the selected item: removes it without raising any event. */
  function DiscardSelectedItem(s: Inventory): (r: Inventory)
    ensures s.selected == None ==> r == s
    ensures r.log == s.log
    ensures s.selected.Some? && s.selected.value in s.items ==>
      |r.items| == |s.items| - 1 && r.selected == None
    ensures s.selected.Some? && HasId(s.items, s.selected.value.id) ==>
      IsFirstRemoved(s.items, s.selected.value.id, r.items)
    ensures s.selected.Some? && !HasId(s.items, s.selected.value.id) ==> r == s
  {
    match s.selected
    case None => s
    case Some(item) => RemoveItem(s, item).next
  }

  /** Picks up an item from the field unless the list is full. The new item is
      a fresh object, identified by `freshId`; its name and description come
      from the tables, at the current count modulo the table length. */
  function PickUpItem(s: Inventory, freshId: nat): (r: Inventory)
    ensures IsFull(s) ==> r == s
    ensures !IsFull(s) ==>
      && |r.items| == |s.items| + 1
      && r.items[..|s.items|] == s.items
      && r.items[|s.items|].id == freshId
      && r.items[|s.items|].name == PickUpNames[|s.items| % 5]
      && r.items[|s.items|].description == PickUpDescriptions[|s.items| % 5]
    ensures r.selected == s.selected && r.log == s.log
  {
    if IsFull(s) then s
    else
      var index := |s.items| % |PickUpNames|;
      AddItem(s, Item(freshId, PickUpNames[index], PickUpDescriptions[index])).next
  }
}
