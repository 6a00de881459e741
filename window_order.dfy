// The focus order and z-buffer of src/window_order.rs. The focus order is a
// deque of window ids with the focused window at the front; the z-buffer is
// rebuilt from it by a stable sort on stacking level, highest level first.
module WindowOrdering {
  import opened Helpers
  import opened ZSort

  /** One z-buffer slot: `(id, zorder, focused)`. */
  datatype ZEntry = ZEntry(id: nat, zorder: ZOrder, focused: bool)

  function EntryLevel(e: ZEntry): ZOrder { e.zorder }

  function EntryId(e: ZEntry): nat { e.id }

  /** The entries pushed by the loop of `rezbuffer`, before sorting. */
  function Tagged(order: seq<nat>, getZ: nat -> ZOrder): (r: seq<ZEntry>)
    ensures |r| == |order|
    ensures forall i :: 0 <= i < |r| ==> r[i] == ZEntry(order[i], getZ(order[i]), i == 0)
  {
    seq(|order|, i requires 0 <= i < |order| => ZEntry(order[i], getZ(order[i]), i == 0))
  }

  /** The z-buffer `rezbuffer` leaves behind. */
  function ZBufferOf(order: seq<nat>, getZ: nat -> ZOrder): seq<ZEntry>
  {
    SortDesc(Tagged(order, getZ), EntryLevel)
  }

  /** `make_focused`: take the first occurrence out and push it on the front. */
  function MadeFocused(order: seq<nat>, id: nat): seq<nat>
    requires id in order
  {
    [id] + RemoveAt(order, IndexOf(order, id))
  }

  /** `move_focused_after`: pop the front and reinsert it at the old index of `id`. */
  function MovedAfter(order: seq<nat>, id: nat): seq<nat>
    requires id in order
  {
    InsertAt(order[1..], IndexOf(order, id), order[0])
  }

  /**
   * After `make_focused` the id is at the front, no id was gained or lost, and the
   * other ids keep their relative order.
   */
  lemma MadeFocusedSpec(order: seq<nat>, id: nat)
    requires id in order
    ensures var r := MadeFocused(order, id);
      |r| == |order| && r[0] == id &&
      multiset(r) == multiset(order) &&
      IsSubseq(r[1..], order)
  {
    var k := IndexOf(order, id);
    RemoveAtMultiset(order, k);
    RemoveAtSubseq(order, k);
    assert MadeFocused(order, id)[1..] == RemoveAt(order, k);
  }

  /** When ids are unique, the rest of the order is exactly "everything but `id`". */
  lemma MadeFocusedUnique(order: seq<nat>, id: nat)
    requires id in order
    requires forall i, j :: 0 <= i < j < |order| ==> order[i] != order[j]
    ensures MadeFocused(order, id) == [id] + RemoveAll(order, id)
  {
    RemoveOnly(order, IndexOf(order, id));
  }

  lemma {:induction false} RemoveOnly(s: seq<nat>, k: nat)
    requires k < |s|
    requires forall i, j :: 0 <= i < j < |s| ==> s[i] != s[j]
    ensures RemoveAt(s, k) == RemoveAll(s, s[k])
  {
    if k == 0 {
      RemoveAllSpec(s[1..], s[0]);
      assert s[0] !in s[1..];
    } else {
      RemoveOnly(s[1..], k - 1);
      assert RemoveAt(s, k) == [s[0]] + RemoveAt(s[1..], k - 1);
    }
  }

  /**
   * `move_focused_after(id)` puts the old front directly behind `id` and shifts the
   * ids in between forward by one; with `id` already in front nothing changes.
   */
  lemma MovedAfterSpec(order: seq<nat>, id: nat)
    requires id in order
    ensures var r, k := MovedAfter(order, id), IndexOf(order, id);
      |r| == |order| && multiset(r) == multiset(order) &&
      (k == 0 ==> r == order) &&
      (k > 0 ==> r[k - 1] == id && r[k] == order[0] &&
                 (forall j :: 0 <= j < k ==> r[j] == order[j + 1]) &&
                 (forall j :: k < j < |r| ==> r[j] == order[j]))
  {
    var k := IndexOf(order, id);
    var t := order[1..];
    var r := MovedAfter(order, id);
    InsertAtMultiset(t, k, order[0]);
    assert order == [order[0]] + t;
    if k == 0 {
      assert r == order;
    }
  }

  lemma TaggedFlags(order: seq<nat>, getZ: nat -> ZOrder)
    requires |order| > 0
    ensures var t, e := Tagged(order, getZ), ZEntry(order[0], getZ(order[0]), true);
      multiset(t)[e] == 1 &&
      forall k :: 0 <= k < |t| && t[k].focused ==> t[k] == e
  {
    var t, e := Tagged(order, getZ), ZEntry(order[0], getZ(order[0]), true);
    assert t == [t[0]] + t[1..];
    assert e !in t[1..];
  }

  /** The entries pushed before sorting carry the ids of the focus order, in order. */
  lemma TaggedIds(order: seq<nat>, getZ: nat -> ZOrder)
    ensures MapSeq(EntryId, Tagged(order, getZ)) == order
  {
    var m := MapSeq(EntryId, Tagged(order, getZ));
    assert forall k :: 0 <= k < |order| ==> m[k] == order[k];
  }

  /** The z-buffer lists exactly the ids of the focus order. */
  lemma ZBufferIds(order: seq<nat>, getZ: nat -> ZOrder)
    ensures multiset(MapSeq(EntryId, ZBufferOf(order, getZ))) == multiset(order)
  {
    var t := Tagged(order, getZ);
    SortDescSpec(t, EntryLevel);
    MapMultiset(EntryId, ZBufferOf(order, getZ), t);
    TaggedIds(order, getZ);
  }

  /** Only the entry built from the front of the focus order is marked focused, and it occurs once. */
  lemma ZBufferFocus(order: seq<nat>, getZ: nat -> ZOrder)
    requires |order| > 0
    ensures var zb, e := ZBufferOf(order, getZ), ZEntry(order[0], getZ(order[0]), true);
      multiset(zb)[e] == 1 &&
      forall k :: 0 <= k < |zb| && zb[k].focused ==> zb[k] == e
  {
    var t := Tagged(order, getZ);
    var zb := ZBufferOf(order, getZ);
    SortDescSpec(t, EntryLevel);
    TaggedFlags(order, getZ);
    forall k | 0 <= k < |zb| && zb[k].focused
      ensures zb[k] == ZEntry(order[0], getZ(order[0]), true)
    {
      assert zb[k] in multiset(t);
      var j :| 0 <= j < |t| && t[j] == zb[k];
    }
  }

  /**
   * The z-buffer lists exactly the ids of the focus order, sorted by level with
   * the highest first; windows on the same level keep their focus order; and
   * exactly one entry, the one built from the front of the focus order, carries
   * the focused flag.
   */
  lemma ZBufferSpec(order: seq<nat>, getZ: nat -> ZOrder)
    ensures var zb := ZBufferOf(order, getZ);
      SortedDesc(zb, EntryLevel) &&
      multiset(MapSeq(EntryId, zb)) == multiset(order) &&
      (forall level :: Band(zb, EntryLevel, level) == Band(Tagged(order, getZ), EntryLevel, level)) &&
      (|order| == 0 ==> zb == []) &&
      (|order| > 0 ==> multiset(zb)[ZEntry(order[0], getZ(order[0]), true)] == 1) &&
      (forall k :: 0 <= k < |zb| && zb[k].focused ==> zb[k] == ZEntry(order[0], getZ(order[0]), true))
  {
    SortDescSpec(Tagged(order, getZ), EntryLevel);
    ZBufferIds(order, getZ);
    if |order| > 0 {
      ZBufferFocus(order, getZ);
    }
  }

  class WindowOrder {
    var focusOrder: seq<nat>
    var zbuffer: seq<ZEntry>

    constructor ()
      ensures focusOrder == [] && zbuffer == []
    {
      focusOrder := [];
      zbuffer := [];
    }

    /** Front and Normal windows take focus position 0; Back windows go last. */
    method AddWindow(id: nat, zorder: ZOrder)
      modifies this`focusOrder
      ensures zorder == Back ==> focusOrder == old(focusOrder) + [id]
      ensures zorder != Back ==> focusOrder == [id] + old(focusOrder)
    {
      match zorder {
        case Front => focusOrder := [id] + focusOrder;
        case Normal => focusOrder := [id] + focusOrder;
        case Back => focusOrder := focusOrder + [id];
      }
    }

    method RemoveWindow(id: nat)
      modifies this`focusOrder
      ensures focusOrder == RemoveAll(old(focusOrder), id)
    {
      focusOrder := RemoveAll(focusOrder, id);
    }

    /** The source unwraps the lookup, so the id must be present. */
    method MakeFocused(id: nat)
      requires id in focusOrder
      modifies this`focusOrder
      ensures focusOrder == MadeFocused(old(focusOrder), id)
    {
      var index := IndexOf(focusOrder, id);
      focusOrder := RemoveAt(focusOrder, index);
      focusOrder := [id] + focusOrder;
    }

    method MoveFocusedAfter(id: nat)
      requires id in focusOrder
      modifies this`focusOrder
      ensures focusOrder == MovedAfter(old(focusOrder), id)
    {
      var afterIndex := IndexOf(focusOrder, id);
      var frontId := focusOrder[0];
      focusOrder := focusOrder[1..];
      focusOrder := InsertAt(focusOrder, afterIndex, frontId);
    }

    /** Rebuild the z-buffer: one entry per focus position, then the stable sort. */
    method Rezbuffer(getZ: nat -> ZOrder)
      modifies this`zbuffer
      ensures zbuffer == ZBufferOf(focusOrder, getZ)
    {
      zbuffer := [];
      var i := 0;
      while i < |focusOrder|
        invariant 0 <= i <= |focusOrder|
        invariant zbuffer == Tagged(focusOrder[..i], getZ)
      {
        var id := focusOrder[i];
        zbuffer := zbuffer + [ZEntry(id, getZ(id), i == 0)];
        i := i + 1;
      }
      assert focusOrder[..i] == focusOrder;
      zbuffer := SortDesc(zbuffer, EntryLevel);
    }

    function Focused(): (r: Option<nat>)
      reads this
      ensures r.Some? <==> |focusOrder| > 0
      ensures r.Some? ==> r.value == focusOrder[0]
    {
      if |focusOrder| == 0 then None else Some(focusOrder[0])
    }

    function IterFocusOrder(): (r: seq<nat>)
      reads this
      ensures r == focusOrder
    {
      focusOrder
    }

    function IterFrontToBack(): (r: seq<nat>)
      reads this
      ensures |r| == |zbuffer|
      ensures forall k :: 0 <= k < |r| ==> r[k] == zbuffer[k].id
    {
      MapSeq(EntryId, zbuffer)
    }

    /** The z-buffer walked from the last entry to the first, with the focused flags. */
    function IterBackToFront(): (r: seq<(nat, bool)>)
      reads this
      ensures |r| == |zbuffer|
      ensures forall k :: 0 <= k < |r| ==>
        r[k] == (zbuffer[|zbuffer| - 1 - k].id, zbuffer[|zbuffer| - 1 - k].focused)
    {
      var pairs := MapSeq((e: ZEntry) => (e.id, e.focused), zbuffer);
      forall k | 0 <= k < |pairs| ensures Reverse(pairs)[k] == pairs[|pairs| - 1 - k] {
        ReverseAt(pairs, k);
      }
      Reverse(pairs)
    }
  }

}
