/** Inventory items, the events the controller raises about them, and the
    identity-based list search the controller relies on.

    In the controller an item is a class instance that does not override
    equality, so list search and "is this the selected item" compare object
    references. Here every item carries an explicit `id` standing for that
    reference: two items are the same object exactly when their ids agree,
    whatever their names say. Duplicate names are allowed.
 */
module Items {

  /** Either nothing (the controller's `null`) or a value. */
  datatype Option<T> = None | Some(value: T)

  /** An inventory item: an identity plus a display name and a description. */
  datatype Item = Item(id: nat, name: string, description: string)

  /** The notifications the controller raises, in the order they are raised. */
  datatype Event =
    | ItemSelected(item: Item)
    | ItemUsed(item: Item)

  /** Some element of `items` is the object with identity `id`. */
  predicate HasId(items: seq<Item>, id: nat) {
    exists k :: 0 <= k < |items| && items[k].id == id
  }

  /** Position of the first element that is the object `id`, or -1 when there
      is none: the controller's reference-comparing list search. */
  function IndexOf(items: seq<Item>, id: nat): (r: int)
    ensures -1 <= r < |items|
    ensures r == -1 <==> !HasId(items, id)
    ensures 0 <= r ==> items[r].id == id
    ensures 0 <= r ==> forall k :: 0 <= k < r ==> items[k].id != id
  {
    if |items| == 0 then -1
    else if items[0].id == id then 0
    else
      var r := IndexOf(items[1..], id);
      assert forall k :: 1 <= k < |items| ==> items[k] == items[1..][k - 1];
      if r < 0 then -1 else r + 1
  }

  /** The sequence without its element at position `i`, later elements moved
      down by one place. */
  function RemoveAt(items: seq<Item>, i: nat): (r: seq<Item>)
    requires i < |items|
    ensures |r| == |items| - 1
    ensures forall k :: 0 <= k < i ==> r[k] == items[k]
    ensures forall k :: i <= k < |r| ==> r[k] == items[k + 1]
  {
    items[..i] + items[i + 1..]
  }

  /** `result` is `items` with the first occurrence of the object `id`
      taken out and the later elements moved down. */
  ghost predicate IsFirstRemoved(items: seq<Item>, id: nat, result: seq<Item>) {
    exists i :: FirstAt(items, id, i) && result == items[..i] + items[i + 1..]
  }

  /** Position `i` holds the first occurrence of the object `id`. */
  predicate FirstAt(items: seq<Item>, id: nat, i: int) {
    && 0 <= i < |items|
    && items[i].id == id
    && forall k :: 0 <= k < i ==> items[k].id != id
  }

  /** How many times the object `id` occurs in `items`. */
  function Occurrences(items: seq<Item>, id: nat): nat {
    if |items| == 0 then 0
    else (if items[0].id == id then 1 else 0) + Occurrences(items[1..], id)
  }

  /** The elements of `items` that are not the object `id`, in their order. */
  function Others(items: seq<Item>, id: nat): seq<Item> {
    if |items| == 0 then []
    else (if items[0].id == id then [] else [items[0]]) + Others(items[1..], id)
  }

  lemma {:induction false} OccurrencesAppend(a: seq<Item>, b: seq<Item>, id: nat)
    ensures Occurrences(a + b, id) == Occurrences(a, id) + Occurrences(b, id)
  {
    if |a| == 0 {
      assert a + b == b;
    } else {
      assert (a + b)[1..] == a[1..] + b;
      OccurrencesAppend(a[1..], b, id);
    }
  }

  lemma {:induction false} OthersAppend(a: seq<Item>, b: seq<Item>, id: nat)
    ensures Others(a + b, id) == Others(a, id) + Others(b, id)
  {
    if |a| == 0 {
      assert a + b == b;
    } else {
      assert (a + b)[1..] == a[1..] + b;
      OthersAppend(a[1..], b, id);
    }
  }

  /** A sequence that does not hold the object `id` has none of it to drop. */
  lemma {:induction false} OthersWithout(items: seq<Item>, id: nat)
    requires !HasId(items, id)
    ensures Others(items, id) == items
    ensures Occurrences(items, id) == 0
  {
    if |items| > 0 {
      assert forall k :: 0 <= k < |items[1..]| ==> items[1..][k] == items[k + 1];
      OthersWithout(items[1..], id);
    }
  }

  /** Removing the FIRST occurrence of an object takes exactly one occurrence
      of it away and leaves every other object, and their order, untouched. */
  lemma {:induction false} RemoveFirstOccurrence(items: seq<Item>, id: nat)
    requires HasId(items, id)
    ensures Occurrences(RemoveAt(items, IndexOf(items, id)), id) == Occurrences(items, id) - 1
    ensures Others(RemoveAt(items, IndexOf(items, id)), id) == Others(items, id)
  {
    var i := IndexOf(items, id);
    var before, after := items[..i], items[i + 1..];
    assert RemoveAt(items, i) == before + after;
    assert items == before + ([items[i]] + after);
    assert !HasId(before, id) by {
      assert forall k :: 0 <= k < |before| ==> before[k] == items[k];
    }
    OthersWithout(before, id);
    assert Occurrences([items[i]] + after, id) == 1 + Occurrences(after, id) by {
      assert ([items[i]] + after)[1..] == after;
    }
    assert Others([items[i]] + after, id) == Others(after, id) by {
      assert ([items[i]] + after)[1..] == after;
    }
    OccurrencesAppend(before, [items[i]] + after, id);
    OccurrencesAppend(before, after, id);
    OthersAppend(before, [items[i]] + after, id);
    OthersAppend(before, after, id);
  }
}
