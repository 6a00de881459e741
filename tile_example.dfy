// The tiling example's state (orbital-tile/examples/example.rs) as an object
// whose methods update its maps in place. Each method is proved against the
// reference definition of the same name in module TileTree, and keeps the
// invariant `Sound` under a ghost ranking of the forks.
module TileExample {
  import opened Helpers
  import opened TileTree

  class Example {
    /** The window size the top fork covers. */
    const w: nat
    const h: nat
    var windows: map<nat, Tile>
    var forks: map<nat, Fork>
    /** Window ids, the focused one last. */
    var order: seq<nat>
    var nextId: nat
    /** A depth per fork that makes the fork links acyclic; it only grows when a fork is added. */
    ghost var depth: map<nat, nat>
    ghost var bound: nat

    /** The state as a value. */
    function Snapshot(): Tiling
      reads this
    {
      Tiling(windows, forks, order, nextId)
    }

    ghost predicate Valid()
      reads this
    {
      Sound(Snapshot(), depth, bound)
    }

    /** `Example::new`: only the top fork `Id(0)`, covering `w`×`h`. */
    constructor(w: nat, h: nat)
      ensures Valid() && Snapshot() == Initial(w, h)
      ensures this.w == w && this.h == h
    {
      this.w := w;
      this.h := h;
      windows := map[];
      forks := map[0 := Fork(None, Position(0, 0), Size(w, h), Horizontal, None, None)];
      order := [];
      nextId := 1;
      depth := map[0 := 0];
      bound := 1;
    }

    /**
     * The scan `order.iter().rev()` of `create_focused`: the index of the most
     * recent window that has a fork to tile into.
     */
    method FindTileable() returns (found: Option<nat>)
      ensures found == LastTileable(Snapshot(), |order|)
    {
      found := None;
      var i := |order|;
      while i > 0 && found.None?
        invariant 0 <= i <= |order|
        invariant LastTileable(Snapshot(), |order|) == if found.Some? then found else LastTileable(Snapshot(), i)
      {
        var otherId := order[i - 1];
        if otherId in windows && windows[otherId].parent.Some? && windows[otherId].parent.value in forks {
          found := Some(i - 1);
        }
        i := i - 1;
      }
    }

    /**
     * The tiling branch of `create_focused`: the new window `id` halves
     * `otherId`'s area inside `otherId`'s fork, or inside a fresh fork that
     * replaces `otherId` when that fork is full.
     */
    method TileWith(id: nat, otherId: nat)
      requires Tileable(Snapshot(), otherId)
      modifies this`windows, this`forks, this`order, this`nextId
      ensures Snapshot() == TiledWith(old(Snapshot()), id, otherId)
    {
      ghost var t := Snapshot();
      nextId := id + 1;
      var other := windows[otherId];
      var forkId := other.parent.value;
      var fork := forks[forkId];
      if fork.b.Some? {
        // A full fork: a new fork takes the other window's place.
        var originalId := forkId;
        forkId := nextId;
        nextId := nextId + 1;
        var orient := Flip(fork.orient);
        other := other.(parent := Some(forkId));
        forks := forks[originalId := Relinked(fork, otherId, forkId)];
        forks := forks[forkId := Fork(Some(originalId), other.pos, other.size, orient, Some(otherId), None)];
      }
      var f := forks[forkId];
      forks := forks[forkId := f.(b := Some(id))];
      var pos := other.pos;
      match f.orient {
        case Horizontal =>
          other := other.(size := other.size.(w := DivTrunc(other.size.w, 2)));
          pos := pos.(x := pos.x + other.size.w);
        case Vertical =>
          other := other.(size := other.size.(h := DivTrunc(other.size.h, 2)));
          pos := pos.(y := pos.y + other.size.h);
      }
      assert other.size == Halved(t.windows[otherId].size, f.orient);
      assert pos == Beside(t.windows[otherId].pos, other.size, f.orient);
      windows := windows[otherId := other];
      windows := windows[id := Tile(Some(forkId), pos, other.size)];
      order := order + [id];
    }

    /**
     * `create_focused` when no window has a fork to tile into: the new window
     * fills the top fork if it is empty, and floats at `x`, `y` otherwise.
     */
    method PlaceUntiled(width: int, height: int, x: int, y: int)
      requires LastTileable(Snapshot(), |order|).None?
      modifies this`windows, this`forks, this`order, this`nextId
      ensures Snapshot() == Created(old(Snapshot()), width, height, x, y)
    {
      var id := nextId;
      nextId := nextId + 1;
      var parent: Option<nat> := None;
      var pos := Position(x, y);
      var size := Size(width, height);
      if 0 in forks && forks[0].a.None? {
        var top := forks[0];
        forks := forks[0 := top.(a := Some(id))];
        pos := top.pos;
        size := top.size;
        parent := Some(0);
      }
      windows := windows[id := Tile(parent, pos, size)];
      order := order + [id];
    }

    /**
     * `create_focused`, with the size `width`×`height` and the place `x`, `y`
     * the random generator drew.
     */
    method CreateFocused(width: int, height: int, x: int, y: int)
      requires Valid()
      modifies this`windows, this`forks, this`order, this`nextId, this`depth, this`bound
      ensures Valid()
      ensures Snapshot() == Created(old(Snapshot()), width, height, x, y)
    {
      ghost var t := Snapshot();
      ghost var rk := CreatedRanks(t, depth, bound);
      CreatedSound(t, depth, bound, width, height, x, y);
      var found := FindTileable();
      match found {
        case Some(k) => TileWith(nextId, order[k]);
        case None => PlaceUntiled(width, height, x, y);
      }
      depth, bound := rk.0, rk.1;
    }

    /**
     * `close_focused` up to its worklist: pops the focused id and unlinks its
     * window; returns the resize the sibling gets, if any.
     */
    method Detach() returns (resizes: seq<Resize>)
      modifies this`windows, this`forks, this`order
      ensures (Snapshot(), resizes) == Detached(old(Snapshot()))
    {
      if order == [] {
        return [];
      }
      var id := order[|order| - 1];
      order := order[..|order| - 1];
      if id !in windows {
        return [];
      }
      var window := windows[id];
      windows := windows - {id};
      if window.parent.None? || window.parent.value !in forks {
        return [];
      }
      var forkId := window.parent.value;
      var fork := forks[forkId];
      var otherId: Option<nat>;
      if fork.a == Some(id) {
        otherId := fork.b;
      } else if fork.b == Some(id) {
        otherId := fork.a;
      } else {
        return [];
      }
      fork := fork.(a := None, b := None);
      resizes := [];
      match otherId
      case None =>
        // An empty fork goes, except the top fork.
        if forkId != 0 {
          forks := forks - {forkId};
        } else {
          forks := forks[forkId := fork];
        }
      case Some(o) =>
        resizes := [Resize(o, fork.pos, fork.size)];
        match fork.parent {
          case None =>
            forks := forks[forkId := fork.(a := Some(o))];
          case Some(p) =>
            // The sibling replaces the fork in the fork's parent.
            forks := forks[forkId := fork];
            if p in forks {
              forks := forks[p := Relinked(forks[p], forkId, o)];
            }
            if o in windows {
              windows := windows[o := windows[o].(parent := Some(p))];
            } else if o in forks {
              forks := forks[o := forks[o].(parent := Some(p))];
            }
            forks := forks - {forkId};
        }
    }

    /**
     * A fork entry of the worklist: the fork takes the place, and the entries
     * for its children's halves are returned, `b` first.
     */
    method PlaceFork(e: Resize) returns (pushed: seq<Resize>)
      requires e.id in forks
      modifies this`forks
      ensures forks == old(forks)[e.id := old(forks)[e.id].(pos := e.pos, size := e.size)]
      ensures pushed == Split(old(forks)[e.id], e.pos, e.size)
    {
      var fork := forks[e.id].(pos := e.pos, size := e.size);
      forks := forks[e.id := fork];
      pushed := [];
      if fork.a.Some? {
        var aSize := e.size;
        if fork.b.Some? {
          var bPos := e.pos;
          var bSize := e.size;
          match fork.orient {
            case Horizontal =>
              aSize := aSize.(w := DivTrunc(aSize.w, 2));
              bPos := bPos.(x := bPos.x + aSize.w);
              bSize := bSize.(w := aSize.w);
            case Vertical =>
              aSize := aSize.(h := DivTrunc(aSize.h, 2));
              bPos := bPos.(y := bPos.y + aSize.h);
              bSize := bSize.(h := aSize.h);
          }
          pushed := pushed + [Resize(fork.b.value, bPos, bSize)];
        }
        pushed := pushed + [Resize(fork.a.value, e.pos, aSize)];
      }
    }

    /**
     * The `resizes` loop of `close_focused`: entries are taken from the front; a
     * fork queues its children's halves at the back.
     */
    method Lay(resizes: seq<Resize>)
      requires Ranked(forks, depth, bound)
      modifies this`windows, this`forks
      ensures (windows, forks) == Laid(old(windows), old(forks), depth, bound, resizes)
    {
      ghost var goal := Laid(windows, forks, depth, bound, resizes);
      var q := resizes;
      while q != []
        invariant Ranked(forks, depth, bound)
        invariant Laid(windows, forks, depth, bound, q) == goal
        decreases Load(forks, depth, bound, q)
      {
        ghost var q0 := q;
        var e := q[0];
        q := q[1..];
        if e.id in windows {
          windows := windows[e.id := windows[e.id].(pos := e.pos, size := e.size)];
        } else if e.id in forks {
          LaidStepFork(windows, forks, depth, bound, q0);
          var pushed := PlaceFork(e);
          q := q + pushed;
        }
      }
    }

    /** `close_focused`: the surgery, then the worklist. */
    method CloseFocused()
      requires Valid()
      modifies this`windows, this`forks, this`order
      ensures Valid()
      ensures Snapshot() == Closed(old(Snapshot()), depth, bound)
    {
      ghost var t := Snapshot();
      ClosedSound(t, depth, bound);
      DetachedRanked(t, depth, bound);
      var resizes := Detach();
      Lay(resizes);
    }

    /**
     * The scan of `focus_direction` from window `currentId`: the nearest
     * window in `dir`, the later one on a tie.
     */
    method FindClosest(dir: Direction, currentId: nat, current: Tile) returns (closestId: Option<nat>)
      ensures closestId.Some? <==> Nearest(Snapshot(), dir, current, currentId, |order|).Some?
      ensures closestId.Some? ==> closestId.value == order[Nearest(Snapshot(), dir, current, currentId, |order|).value]
    {
      ghost var t := Snapshot();
      var closestDist := 0;
      closestId := None;
      var i := 0;
      while i < |order|
        invariant 0 <= i <= |order|
        invariant closestId.Some? <==> Nearest(t, dir, current, currentId, i).Some?
        invariant closestId.Some? ==>
          closestId.value == order[Nearest(t, dir, current, currentId, i).value] &&
          closestDist == Dist(t, dir, current, closestId.value)
      {
        NearestStep(t, dir, current, currentId, i);
        var id := order[i];
        if id != currentId && id in windows {
          var dist := Distance(dir, current, windows[id]);
          if dist.Some? && (dist.value <= closestDist || closestId.None?) {
            closestDist := dist.value;
            closestId := Some(id);
          }
        }
        i := i + 1;
      }
    }

    /**
     * `focus_direction`: the nearest window in `dir` from the focused one is
     * moved to the end of `order`.
     */
    method FocusDirection(dir: Direction)
      modifies this`order
      ensures Snapshot() == Focused(old(Snapshot()), dir)
      ensures old(Valid()) ==> Valid()
    {
      var closestId: Option<nat> := None;
      if order != [] && order[|order| - 1] in windows {
        var currentId := order[|order| - 1];
        closestId := FindClosest(dir, currentId, windows[currentId]);
      }
      if closestId.Some? {
        order := RemoveAll(order, closestId.value) + [closestId.value];
      }
    }
  }
}
