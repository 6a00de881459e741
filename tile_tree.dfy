// The binary tiling tree of the orbital-tile example
// (orbital-tile/src/lib.rs and orbital-tile/examples/example.rs), as values.
// Forks split their area between child `a` and child `b`; windows are the
// leaves. Ids are allocated from one counter for windows and forks alike, and
// fork `Id(0)` is the top of the tree.
module TileTree {
  import opened Helpers

  datatype Direction = Left | Right | Up | Down

  datatype Orientation = Horizontal | Vertical

  datatype Position = Position(x: int, y: int)

  datatype Size = Size(w: int, h: int)

  datatype Fork = Fork(parent: Option<nat>, pos: Position, size: Size, orient: Orientation,
                       a: Option<nat>, b: Option<nat>)

  /** A tiled or floating window of the example; its random colour only matters for drawing and is left out. */
  datatype Tile = Tile(parent: Option<nat>, pos: Position, size: Size)
  {
    function LeftEdge(): int { pos.x }
    function RightEdge(): int { pos.x + size.w }
    function TopEdge(): int { pos.y }
    function BottomEdge(): int { pos.y + size.h }
  }

  /** The state of `Example` that the tiling operations read and write. */
  datatype Tiling = Tiling(windows: map<nat, Tile>, forks: map<nat, Fork>, order: seq<nat>, nextId: nat)

  /** One entry of the `resizes` worklist: give `id` this place and size. */
  datatype Resize = Resize(id: nat, pos: Position, size: Size)

  predicate Child(f: Fork, c: nat) {
    f.a == Some(c) || f.b == Some(c)
  }

  function Flip(o: Orientation): (r: Orientation)
    ensures r != o
  {
    match o
    case Horizontal => Vertical
    case Vertical => Horizontal
  }

  /** `size.w /= 2` (Horizontal) or `size.h /= 2` (Vertical): the half, rounded toward zero. */
  function Halved(s: Size, o: Orientation): (r: Size)
    ensures o.Horizontal? ==> r.h == s.h && (s.w >= 0 ==> 0 <= r.w && 2 * r.w <= s.w <= 2 * r.w + 1)
    ensures o.Vertical? ==> r.w == s.w && (s.h >= 0 ==> 0 <= r.h && 2 * r.h <= s.h <= 2 * r.h + 1)
  {
    match o
    case Horizontal => s.(w := DivTrunc(s.w, 2))
    case Vertical => s.(h := DivTrunc(s.h, 2))
  }

  /** Where the second half starts: `pos` moved along the orientation by the first half. */
  function Beside(p: Position, half: Size, o: Orientation): Position
  {
    match o
    case Horizontal => p.(x := p.x + half.w)
    case Vertical => p.(y := p.y + half.h)
  }

  // ---------------------------------------------------------------------------
  // Acyclicity: a ghost depth per fork, deeper than the fork's parent.
  // ---------------------------------------------------------------------------

  /**
   * Every fork has a depth below `bound`, and a fork's fork children are deeper
   * than the fork: following `a`/`b` links from fork to fork never returns.
   */
  predicate Ranked(forks: map<nat, Fork>, depth: map<nat, nat>, bound: nat) {
    (forall k :: k in forks ==> k in depth && depth[k] < bound) &&
    (forall k, c {:trigger Child(forks[k], c)} :: k in forks && c in forks && Child(forks[k], c) ==> depth[k] < depth[c])
  }

  /** A map with fewer forks and no new links between them is still ranked. */
  lemma RankedShrinks(forks: map<nat, Fork>, smaller: map<nat, Fork>, depth: map<nat, nat>, bound: nat)
    requires Ranked(forks, depth, bound)
    requires smaller.Keys <= forks.Keys
    requires forall k, c :: k in smaller && Child(smaller[k], c) ==> Child(forks[k], c)
    ensures Ranked(smaller, depth, bound)
  {
  }

  function Pow3(n: nat): (r: nat)
    ensures r >= 1
  {
    if n == 0 then 1 else 3 * Pow3(n - 1)
  }

  lemma {:induction false} Pow3Grows(m: nat, n: nat)
    requires m <= n
    ensures Pow3(m) <= Pow3(n)
    decreases n - m
  {
    if m < n {
      Pow3Grows(m + 1, n);
    }
  }

  /** The termination weight of one worklist entry: a fork weighs three times as much as its children may. */
  function Weight(forks: map<nat, Fork>, depth: map<nat, nat>, bound: nat, id: nat): nat
  {
    if id in forks && id in depth && depth[id] < bound then Pow3(bound - depth[id]) else 1
  }

  function Load(forks: map<nat, Fork>, depth: map<nat, nat>, bound: nat, q: seq<Resize>): nat
  {
    if q == [] then 0 else Weight(forks, depth, bound, q[0].id) + Load(forks, depth, bound, q[1..])
  }

  lemma {:induction false} LoadAppend(forks: map<nat, Fork>, depth: map<nat, nat>, bound: nat, q: seq<Resize>, extra: seq<Resize>)
    ensures Load(forks, depth, bound, q + extra) == Load(forks, depth, bound, q) + Load(forks, depth, bound, extra)
  {
    if q != [] {
      assert (q + extra)[1..] == q[1..] + extra;
      LoadAppend(forks, depth, bound, q[1..], extra);
    } else {
      assert q + extra == extra;
    }
  }

  /** The load depends on which ids are forks, not on their places. */
  lemma {:induction false} LoadKeys(forks: map<nat, Fork>, other: map<nat, Fork>, depth: map<nat, nat>, bound: nat, q: seq<Resize>)
    requires forks.Keys == other.Keys
    ensures Load(forks, depth, bound, q) == Load(other, depth, bound, q)
  {
    if q != [] {
      LoadKeys(forks, other, depth, bound, q[1..]);
    }
  }

  // ---------------------------------------------------------------------------
  // The resize worklist of `close_focused`.
  // ---------------------------------------------------------------------------

  /**
   * The entries a fork pushes when it is resized to `pos`/`size`: its only
   * child takes the whole area; two children get equal halves along the
   * fork's orientation, `b` (pushed first) right of or below `a`.
   */
  function Split(f: Fork, pos: Position, size: Size): (r: seq<Resize>)
    ensures |r| <= 2 && forall k :: 0 <= k < |r| ==> Child(f, r[k].id)
    ensures f.a.None? ==> r == []
    ensures f.a.Some? && f.b.None? ==> r == [Resize(f.a.value, pos, size)]
    ensures f.a.Some? && f.b.Some? ==>
      |r| == 2 && r[0].id == f.b.value && r[1].id == f.a.value &&
      r[1].pos == pos && r[0].size == r[1].size &&
      (f.orient.Horizontal? ==>
        r[0].pos == Position(pos.x + r[1].size.w, pos.y) && r[1].size.h == size.h &&
        (size.w >= 0 ==> 2 * r[1].size.w <= size.w <= 2 * r[1].size.w + 1)) &&
      (f.orient.Vertical? ==>
        r[0].pos == Position(pos.x, pos.y + r[1].size.h) && r[1].size.w == size.w &&
        (size.h >= 0 ==> 2 * r[1].size.h <= size.h <= 2 * r[1].size.h + 1))
  {
    if f.a.None? then []
    else if f.b.None? then [Resize(f.a.value, pos, size)]
    else
      var half := Halved(size, f.orient);
      [Resize(f.b.value, Beside(pos, half, f.orient), half), Resize(f.a.value, pos, half)]
  }

  /** What a fork pushes weighs less than the fork. */
  lemma SplitLighter(forks: map<nat, Fork>, depth: map<nat, nat>, bound: nat, id: nat, pos: Position, size: Size)
    requires Ranked(forks, depth, bound) && id in forks
    ensures Load(forks, depth, bound, Split(forks[id], pos, size)) < Weight(forks, depth, bound, id)
  {
    var s := Split(forks[id], pos, size);
    var top := bound - depth[id] - 1;
    forall k | 0 <= k < |s|
      ensures Weight(forks, depth, bound, s[k].id) <= Pow3(top)
    {
      if s[k].id in forks {
        Pow3Grows(bound - depth[s[k].id], top);
      }
    }
    assert Weight(forks, depth, bound, id) == 3 * Pow3(top);
    if |s| == 2 {
      assert s[1..][1..] == [] && s[1..][0] == s[1];
      assert Load(forks, depth, bound, s[1..]) == Weight(forks, depth, bound, s[1].id);
      assert Load(forks, depth, bound, s) == Weight(forks, depth, bound, s[0].id) + Weight(forks, depth, bound, s[1].id);
    } else if |s| == 1 {
      assert s[1..] == [];
      assert Load(forks, depth, bound, s) == Weight(forks, depth, bound, s[0].id);
    }
  }

  /** Updating one fork's place keeps the links, hence the ranking. */
  lemma RankedPlaced(forks: map<nat, Fork>, depth: map<nat, nat>, bound: nat, id: nat, pos: Position, size: Size)
    requires Ranked(forks, depth, bound) && id in forks
    ensures Ranked(forks[id := forks[id].(pos := pos, size := size)], depth, bound)
  {
    RankedShrinks(forks, forks[id := forks[id].(pos := pos, size := size)], depth, bound);
  }

  /**
   * The `resizes` loop as a reference definition: the front entry is popped; a
   * window takes the given place, a fork takes it and pushes its children's
   * halves, an unknown id is skipped. Only places change: the key sets and
   * every parent and child link are kept.
   */
  ghost function Laid(windows: map<nat, Tile>, forks: map<nat, Fork>, depth: map<nat, nat>, bound: nat, q: seq<Resize>)
    : (r: (map<nat, Tile>, map<nat, Fork>))
    requires Ranked(forks, depth, bound)
    ensures r.0.Keys == windows.Keys && r.1.Keys == forks.Keys
    ensures forall k :: k in windows ==> r.0[k].parent == windows[k].parent
    ensures forall k :: k in forks ==>
      r.1[k].parent == forks[k].parent && r.1[k].orient == forks[k].orient &&
      r.1[k].a == forks[k].a && r.1[k].b == forks[k].b
    decreases Load(forks, depth, bound, q)
  {
    if q == [] then (windows, forks)
    else
      var e := q[0];
      if e.id in windows then
        Laid(windows[e.id := windows[e.id].(pos := e.pos, size := e.size)], forks, depth, bound, q[1..])
      else if e.id in forks then
        var f := forks[e.id];
        var placed := forks[e.id := f.(pos := e.pos, size := e.size)];
        RankedPlaced(forks, depth, bound, e.id, e.pos, e.size);
        SplitLighter(forks, depth, bound, e.id, e.pos, e.size);
        LoadAppend(forks, depth, bound, q[1..], Split(f, e.pos, e.size));
        LoadKeys(forks, placed, depth, bound, q[1..] + Split(f, e.pos, e.size));
        Laid(windows, placed, depth, bound, q[1..] + Split(f, e.pos, e.size))
      else
        Laid(windows, forks, depth, bound, q[1..])
  }

  /**
   * A fork shallower than every fork in the worklist keeps its place: the
   * worklist only ever reaches deeper forks, so it never comes back.
   */
  lemma {:induction false} LaidKeepsShallow(windows: map<nat, Tile>, forks: map<nat, Fork>, depth: map<nat, nat>, bound: nat,
                                            q: seq<Resize>, k: nat)
    requires Ranked(forks, depth, bound) && k in forks
    requires forall i :: 0 <= i < |q| && q[i].id in forks ==> depth[k] < depth[q[i].id]
    ensures Laid(windows, forks, depth, bound, q).1[k] == forks[k]
    decreases Load(forks, depth, bound, q)
  {
    if q != [] {
      var e := q[0];
      if e.id in windows {
        LaidKeepsShallow(windows[e.id := windows[e.id].(pos := e.pos, size := e.size)], forks, depth, bound, q[1..], k);
      } else if e.id in forks {
        var f := forks[e.id];
        var placed := forks[e.id := f.(pos := e.pos, size := e.size)];
        var next := q[1..] + Split(f, e.pos, e.size);
        RankedPlaced(forks, depth, bound, e.id, e.pos, e.size);
        SplitLighter(forks, depth, bound, e.id, e.pos, e.size);
        LoadAppend(forks, depth, bound, q[1..], Split(f, e.pos, e.size));
        LoadKeys(forks, placed, depth, bound, next);
        forall i | 0 <= i < |next| && next[i].id in placed
          ensures depth[k] < depth[next[i].id]
        {
          if i < |q| - 1 {
            assert next[i] == q[i + 1];
          } else {
            assert Child(f, next[i].id);
          }
        }
        LaidKeepsShallow(windows, placed, depth, bound, next, k);
      } else {
        LaidKeepsShallow(windows, forks, depth, bound, q[1..], k);
      }
    }
  }

  /**
   * One step of the worklist on a fork entry: the fork is placed, its halves go
   * to the back, the ranking survives and the load drops.
   */
  lemma LaidStepFork(windows: map<nat, Tile>, forks: map<nat, Fork>, depth: map<nat, nat>, bound: nat, q: seq<Resize>)
    requires Ranked(forks, depth, bound) && q != [] && q[0].id !in windows && q[0].id in forks
    ensures var e := q[0];
      var placed := forks[e.id := forks[e.id].(pos := e.pos, size := e.size)];
      var next := q[1..] + Split(forks[e.id], e.pos, e.size);
      Ranked(placed, depth, bound) &&
      Laid(windows, forks, depth, bound, q) == Laid(windows, placed, depth, bound, next) &&
      Load(placed, depth, bound, next) < Load(forks, depth, bound, q)
  {
    var e := q[0];
    var placed := forks[e.id := forks[e.id].(pos := e.pos, size := e.size)];
    RankedPlaced(forks, depth, bound, e.id, e.pos, e.size);
    SplitLighter(forks, depth, bound, e.id, e.pos, e.size);
    LoadAppend(forks, depth, bound, q[1..], Split(forks[e.id], e.pos, e.size));
    LoadKeys(forks, placed, depth, bound, q[1..] + Split(forks[e.id], e.pos, e.size));
  }

  // ---------------------------------------------------------------------------
  // The invariant every operation keeps.
  // ---------------------------------------------------------------------------

  /** Both children of `f`, where present, are allocated ids other than `Id(0)`. */
  predicate LinksBelow(f: Fork, n: nat) {
    (f.a.Some? ==> 1 <= f.a.value < n) && (f.b.Some? ==> 1 <= f.b.value < n)
  }

  /**
   * Ids below `nextId` are taken, window and fork ids never clash, the top
   * fork `Id(0)` exists and has no parent, no fork points at `Id(0)` or at an id
   * not yet allocated, and the fork links are ranked.
   */
  predicate Sound(t: Tiling, depth: map<nat, nat>, bound: nat) {
    1 <= t.nextId &&
    (forall k :: k in t.windows ==> 1 <= k < t.nextId && k !in t.forks) &&
    (forall k :: k in t.forks ==> k < t.nextId) &&
    0 in t.forks && t.forks[0].parent.None? &&
    (forall k :: k in t.forks ==> LinksBelow(t.forks[k], t.nextId)) &&
    Ranked(t.forks, depth, bound)
  }

  /** `Example::new`: only the top fork, covering the whole `w`×`h` window, horizontal and empty. */
  function Initial(w: nat, h: nat): (r: Tiling)
    ensures Sound(r, map[0 := 0], 1)
    ensures r.windows == map[] && r.order == [] && r.nextId == 1
    ensures r.forks.Keys == {0} && r.forks[0].pos == Position(0, 0) && r.forks[0].size == Size(w, h)
  {
    Tiling(map[], map[0 := Fork(None, Position(0, 0), Size(w, h), Horizontal, None, None)], [], 1)
  }

  // ---------------------------------------------------------------------------
  // create_focused
  // ---------------------------------------------------------------------------

  /** A window the new one can tile with: it exists and has a parent fork that exists. */
  predicate Tileable(t: Tiling, id: nat) {
    id in t.windows && t.windows[id].parent.Some? && t.windows[id].parent.value in t.forks
  }

  /** The scan `order.iter().rev()`: the index of the most recent tileable window among the first `n`. */
  function LastTileable(t: Tiling, n: nat): (r: Option<nat>)
    requires n <= |t.order|
    ensures r.Some? ==> r.value < n && Tileable(t, t.order[r.value])
    ensures r.Some? ==> forall j :: r.value < j < n ==> !Tileable(t, t.order[j])
    ensures r.None? ==> forall j :: 0 <= j < n ==> !Tileable(t, t.order[j])
  {
    if n == 0 then None
    else if Tileable(t, t.order[n - 1]) then Some(n - 1)
    else LastTileable(t, n - 1)
  }

  /** The slot of `fork` that holds `from`, `a` before `b`, now holds `to`; nothing else changes. */
  function Relinked(fork: Fork, from: nat, to: nat): (r: Fork)
    ensures r.parent == fork.parent && r.pos == fork.pos && r.size == fork.size && r.orient == fork.orient
    ensures forall c :: Child(r, c) ==> Child(fork, c) || c == to
    ensures Child(fork, from) ==> Child(r, to)
    ensures !Child(fork, from) ==> r == fork
  {
    if fork.a == Some(from) then fork.(a := Some(to))
    else if fork.b == Some(from) then fork.(b := Some(to))
    else fork
  }

  /**
   * The new window `id` tiles with `other`. If `other`'s fork is full, a fresh
   * fork `id + 1` with the flipped orientation takes `other`'s place and area
   * and holds `other` as `a`; the new window becomes `b` of the fork that now
   * holds `other`, and the two split `other`'s area along that fork's orientation.
   */
  function TiledWith(t: Tiling, id: nat, other: nat): (r: Tiling)
    requires Tileable(t, other)
  {
    var o := t.windows[other];
    var f := o.parent.value;
    var fork := t.forks[f];
    if fork.b.Some? then
      var nf := id + 1;
      var relinked := Relinked(fork, other, nf);
      var orient := Flip(fork.orient);
      var half := Halved(o.size, orient);
      Tiling(t.windows[other := o.(parent := Some(nf), size := half)][id := Tile(Some(nf), Beside(o.pos, half, orient), half)],
             t.forks[f := relinked][nf := Fork(Some(f), o.pos, o.size, orient, Some(other), Some(id))],
             t.order + [id], id + 2)
    else
      var half := Halved(o.size, fork.orient);
      Tiling(t.windows[other := o.(size := half)][id := Tile(Some(f), Beside(o.pos, half, fork.orient), half)],
             t.forks[f := fork.(b := Some(id))],
             t.order + [id], id + 1)
  }

  /**
   * `create_focused` with the random size and place it drew: the new window
   * takes id `nextId` and goes to the end of `order`; it tiles with the most
   * recent tileable window, else fills an empty top fork, else floats at `x`, `y`.
   */
  function Created(t: Tiling, width: int, height: int, x: int, y: int): (r: Tiling)
    ensures r.order == t.order + [t.nextId] && r.nextId > t.nextId
    ensures r.windows.Keys == t.windows.Keys + {t.nextId}
    ensures t.forks.Keys <= r.forks.Keys <= t.forks.Keys + {t.nextId + 1}
  {
    var id := t.nextId;
    match LastTileable(t, |t.order|)
    case Some(k) => TiledWith(t, id, t.order[k])
    case None =>
      if 0 in t.forks && t.forks[0].a.None? then
        Tiling(t.windows[id := Tile(Some(0), t.forks[0].pos, t.forks[0].size)],
               t.forks[0 := t.forks[0].(a := Some(id))], t.order + [id], id + 1)
      else
        Tiling(t.windows[id := Tile(None, Position(x, y), Size(width, height))], t.forks, t.order + [id], id + 1)
  }

  /** The ranking after `create_focused`: a fresh fork sits one below the fork it was hung from. */
  function CreatedRanks(t: Tiling, depth: map<nat, nat>, bound: nat): (r: (map<nat, nat>, nat))
  {
    match LastTileable(t, |t.order|)
    case Some(k) =>
      var f := t.windows[t.order[k]].parent.value;
      if t.forks[f].b.Some? && f in depth then
        (depth[t.nextId + 1 := depth[f] + 1], Max(bound, depth[f] + 2))
      else (depth, bound)
    case None => (depth, bound)
  }

  /** The new window's id was free, and the next one handed out is larger. */
  lemma CreatedFresh(t: Tiling, depth: map<nat, nat>, bound: nat, width: int, height: int, x: int, y: int)
    requires Sound(t, depth, bound)
    ensures t.nextId !in t.windows && t.nextId !in t.forks
    ensures var r := Created(t, width, height, x, y);
      r.windows.Keys - t.windows.Keys == {t.nextId} && t.nextId < r.nextId
  {
  }

  /** With nothing to tile with and an empty top fork, the new window fills the top fork. */
  lemma CreatedFillsTop(t: Tiling, width: int, height: int, x: int, y: int)
    requires forall j :: 0 <= j < |t.order| ==> !Tileable(t, t.order[j])
    requires 0 in t.forks && t.forks[0].a.None?
    ensures var r := Created(t, width, height, x, y);
      r.windows[t.nextId] == Tile(Some(0), t.forks[0].pos, t.forks[0].size) &&
      r.forks == t.forks[0 := t.forks[0].(a := Some(t.nextId))]
  {
    assert LastTileable(t, |t.order|).None?;
  }

  /** With nowhere to tile, the new window floats where it was placed. */
  lemma CreatedFloats(t: Tiling, width: int, height: int, x: int, y: int)
    requires forall j :: 0 <= j < |t.order| ==> !Tileable(t, t.order[j])
    requires 0 !in t.forks || t.forks[0].a.Some?
    ensures var r := Created(t, width, height, x, y);
      r.windows[t.nextId] == Tile(None, Position(x, y), Size(width, height)) && r.forks == t.forks
  {
    assert LastTileable(t, |t.order|).None?;
  }

  /** The partner of the new window is the most recent tileable one. */
  predicate Partner(t: Tiling, k: nat) {
    k < |t.order| && Tileable(t, t.order[k]) &&
    forall j :: k < j < |t.order| ==> !Tileable(t, t.order[j])
  }

  /**
   * Tiling with the partner `order[k]`: the partner keeps its place and its size
   * is halved along the orientation of the fork that ends up holding it (a fresh
   * fork with the flipped orientation when its own fork was full); the new
   * window gets the other half, next to it, as child `b` of that fork.
   */
  lemma CreatedHalves(t: Tiling, depth: map<nat, nat>, bound: nat, width: int, height: int, x: int, y: int, k: nat)
    requires Sound(t, depth, bound) && Partner(t, k)
    ensures var r := Created(t, width, height, x, y);
      var o := t.windows[t.order[k]];
      var fork := t.forks[o.parent.value];
      var target := if fork.b.Some? then t.nextId + 1 else o.parent.value;
      var orient := if fork.b.Some? then Flip(fork.orient) else fork.orient;
      var half := Halved(o.size, orient);
      r.windows[t.order[k]] == o.(parent := Some(target), size := half) &&
      r.windows[t.nextId] == Tile(Some(target), Beside(o.pos, half, orient), half) &&
      target in r.forks && r.forks[target].b == Some(t.nextId) && r.forks[target].orient == orient
  {
    assert LastTileable(t, |t.order|) == Some(k);
  }

  /**
   * When the partner's fork already has a `b`, a fresh fork `nextId + 1` with the
   * flipped orientation replaces the partner in that fork's slot, covers the
   * partner's former area and holds the partner as `a`.
   */
  lemma CreatedSplitsFork(t: Tiling, depth: map<nat, nat>, bound: nat, width: int, height: int, x: int, y: int, k: nat)
    requires Sound(t, depth, bound) && Partner(t, k)
    requires t.forks[t.windows[t.order[k]].parent.value].b.Some?
    ensures var r := Created(t, width, height, x, y);
      var other := t.order[k];
      var o := t.windows[other];
      var f := o.parent.value;
      var fork := t.forks[f];
      var nf := t.nextId + 1;
      r.forks[nf] == Fork(Some(f), o.pos, o.size, Flip(fork.orient), Some(other), Some(t.nextId)) &&
      (fork.a == Some(other) ==> r.forks[f] == fork.(a := Some(nf))) &&
      (fork.a != Some(other) && fork.b == Some(other) ==> r.forks[f] == fork.(b := Some(nf))) &&
      r.forks.Keys == t.forks.Keys + {nf}
  {
    assert LastTileable(t, |t.order|) == Some(k);
  }

  /** The shape of the state after tiling with a partner whose fork is full. */
  lemma SplitShape(t: Tiling, other: nat)
    requires Tileable(t, other)
    requires t.forks[t.windows[other].parent.value].b.Some?
    ensures var r := TiledWith(t, t.nextId, other);
      var o := t.windows[other];
      var f := o.parent.value;
      var fork := t.forks[f];
      r.windows.Keys == t.windows.Keys + {t.nextId} &&
      r.forks == t.forks[f := Relinked(fork, other, t.nextId + 1)]
                        [t.nextId + 1 := Fork(Some(f), o.pos, o.size, Flip(fork.orient), Some(other), Some(t.nextId))] &&
      r.nextId == t.nextId + 2
  {
  }

  /** Hanging fork `nf`, holding two non-forks, one below fork `f` keeps the ranking. */
  lemma HangRanked(forks: map<nat, Fork>, depth: map<nat, nat>, bound: nat, f: nat, nf: nat, hung: Fork)
    requires Ranked(forks, depth, bound) && f in forks && nf !in forks
    requires forall k :: k in forks ==> !Child(forks[k], nf)
    requires hung.a.Some? && hung.a.value !in forks && hung.a.value != nf && hung.b.Some? && hung.b.value !in forks && hung.b.value != nf
    ensures Ranked(forks[f := Relinked(forks[f], hung.a.value, nf)][nf := hung], depth[nf := depth[f] + 1], Max(bound, depth[f] + 2))
  {
    var fs := forks[f := Relinked(forks[f], hung.a.value, nf)][nf := hung];
    var d := depth[nf := depth[f] + 1];
    forall p, c | p in fs && c in fs && Child(fs[p], c)
      ensures d[p] < d[c]
    {
      if p == nf {
        assert false;
      } else if p == f {
        if c != nf {
          assert Child(forks[f], c);
        }
      } else {
        assert Child(forks[p], c);
      }
    }
  }

  /** Hanging fork `nf` keeps every link pointing at an allocated id other than `Id(0)`. */
  lemma HangLinks(forks: map<nat, Fork>, n: nat, f: nat, nf: nat, hung: Fork)
    requires forall k :: k in forks ==> LinksBelow(forks[k], n)
    requires f in forks && hung.a.Some? && n <= nf && LinksBelow(hung, nf + 1)
    ensures var fs := forks[f := Relinked(forks[f], hung.a.value, nf)][nf := hung];
      forall k :: k in fs ==> LinksBelow(fs[k], nf + 1)
  {
    var relinked := Relinked(forks[f], hung.a.value, nf);
    assert LinksBelow(forks[f], n);
    if relinked.a.Some? {
      assert Child(relinked, relinked.a.value);
    }
    if relinked.b.Some? {
      assert Child(relinked, relinked.b.value);
    }
  }

  /** The key-set part of the invariant after hanging a fresh fork `id + 1` below fork `f`. */
  lemma HangKeys(t: Tiling, depth: map<nat, nat>, bound: nat, f: nat, other: nat, r: Tiling, hung: Fork)
    requires Sound(t, depth, bound) && f in t.forks
    requires r.windows.Keys == t.windows.Keys + {t.nextId}
    requires r.forks == t.forks[f := Relinked(t.forks[f], other, t.nextId + 1)][t.nextId + 1 := hung]
    requires r.nextId == t.nextId + 2
    ensures (forall k :: k in r.windows ==> 1 <= k < r.nextId && k !in r.forks) &&
      (forall k :: k in r.forks ==> k < r.nextId) &&
      0 in r.forks && r.forks[0].parent.None?
  {
  }

  /**
   * The invariant after hanging a fresh fork `id + 1` below fork `f`: it holds
   * the existing window `other` and the new window `id`, and takes the place of
   * one of `f`'s children.
   */
  lemma HangSound(t: Tiling, depth: map<nat, nat>, bound: nat, f: nat, other: nat, r: Tiling, hung: Fork)
    requires Sound(t, depth, bound) && f in t.forks && other in t.windows
    requires hung.a == Some(other) && hung.b == Some(t.nextId)
    requires r.windows.Keys == t.windows.Keys + {t.nextId}
    requires r.forks == t.forks[f := Relinked(t.forks[f], other, t.nextId + 1)][t.nextId + 1 := hung]
    requires r.nextId == t.nextId + 2
    ensures Sound(r, depth[t.nextId + 1 := depth[f] + 1], Max(bound, depth[f] + 2))
  {
    forall k | k in t.forks
      ensures !Child(t.forks[k], t.nextId + 1)
    {
      assert LinksBelow(t.forks[k], t.nextId);
    }
    HangKeys(t, depth, bound, f, other, r, hung);
    HangRanked(t.forks, depth, bound, f, t.nextId + 1, hung);
    HangLinks(t.forks, t.nextId, f, t.nextId + 1, hung);
  }

  /** Hanging a fresh fork between the partner and its full fork keeps the invariant. */
  lemma SplitSound(t: Tiling, depth: map<nat, nat>, bound: nat, other: nat)
    requires Sound(t, depth, bound) && Tileable(t, other)
    requires t.forks[t.windows[other].parent.value].b.Some?
    ensures var f := t.windows[other].parent.value;
      Sound(TiledWith(t, t.nextId, other), depth[t.nextId + 1 := depth[f] + 1], Max(bound, depth[f] + 2))
  {
    var o := t.windows[other];
    SplitShape(t, other);
    HangSound(t, depth, bound, o.parent.value, other, TiledWith(t, t.nextId, other),
              Fork(Some(o.parent.value), o.pos, o.size, Flip(t.forks[o.parent.value].orient), Some(other), Some(t.nextId)));
  }

  /** Becoming the second child of the partner's fork keeps the invariant. */
  lemma JoinSound(t: Tiling, depth: map<nat, nat>, bound: nat, other: nat)
    requires Sound(t, depth, bound) && Tileable(t, other)
    requires t.forks[t.windows[other].parent.value].b.None?
    ensures Sound(TiledWith(t, t.nextId, other), depth, bound)
  {
    var id := t.nextId;
    var r := TiledWith(t, id, other);
    var f := t.windows[other].parent.value;
    forall p, c | p in r.forks && c in r.forks && Child(r.forks[p], c)
      ensures depth[p] < depth[c]
    {
      if p != f || c != id {
        assert Child(t.forks[p], c);
      }
    }
    assert Ranked(r.forks, depth, bound);
  }

  /** Filling the empty top fork keeps the invariant. */
  lemma TopSound(t: Tiling, depth: map<nat, nat>, bound: nat)
    requires Sound(t, depth, bound) && t.forks[0].a.None?
    ensures var id := t.nextId;
      Sound(Tiling(t.windows[id := Tile(Some(0), t.forks[0].pos, t.forks[0].size)],
                   t.forks[0 := t.forks[0].(a := Some(id))], t.order + [id], id + 1), depth, bound)
  {
    var fs := t.forks[0 := t.forks[0].(a := Some(t.nextId))];
    forall p, c | p in fs && c in fs && Child(fs[p], c)
      ensures depth[p] < depth[c]
    {
      assert Child(t.forks[p], c);
    }
    forall k | k in fs
      ensures LinksBelow(fs[k], t.nextId + 1)
    {
      assert LinksBelow(t.forks[k], t.nextId);
    }
  }

  /** A floating window keeps the invariant. */
  lemma FloatSound(t: Tiling, depth: map<nat, nat>, bound: nat, width: int, height: int, x: int, y: int)
    requires Sound(t, depth, bound)
    ensures var id := t.nextId;
      Sound(Tiling(t.windows[id := Tile(None, Position(x, y), Size(width, height))], t.forks, t.order + [id], id + 1), depth, bound)
  {
    forall k | k in t.forks
      ensures LinksBelow(t.forks[k], t.nextId + 1)
    {
      assert LinksBelow(t.forks[k], t.nextId);
    }
  }

  /** With a partner, `create_focused` is `TiledWith`, and only a fresh fork adds a rank. */
  lemma PartnerShape(t: Tiling, depth: map<nat, nat>, bound: nat, width: int, height: int, x: int, y: int)
    requires LastTileable(t, |t.order|).Some?
    ensures var other := t.order[LastTileable(t, |t.order|).value];
      var f := t.windows[other].parent.value;
      Created(t, width, height, x, y) == TiledWith(t, t.nextId, other) &&
      CreatedRanks(t, depth, bound) ==
        if t.forks[f].b.Some? && f in depth then (depth[t.nextId + 1 := depth[f] + 1], Max(bound, depth[f] + 2))
        else (depth, bound)
  {
  }

  /** Tiling with a partner whose fork is full keeps the invariant. */
  lemma PartnerSplitSound(t: Tiling, depth: map<nat, nat>, bound: nat, width: int, height: int, x: int, y: int)
    requires Sound(t, depth, bound) && LastTileable(t, |t.order|).Some?
    requires t.forks[t.windows[t.order[LastTileable(t, |t.order|).value]].parent.value].b.Some?
    ensures var rk := CreatedRanks(t, depth, bound);
      Sound(Created(t, width, height, x, y), rk.0, rk.1)
  {
    var other := t.order[LastTileable(t, |t.order|).value];
    PartnerShape(t, depth, bound, width, height, x, y);
    assert t.windows[other].parent.value in depth;
    SplitSound(t, depth, bound, other);
  }

  /** Tiling with a partner whose fork has room keeps the invariant. */
  lemma PartnerJoinSound(t: Tiling, depth: map<nat, nat>, bound: nat, width: int, height: int, x: int, y: int)
    requires Sound(t, depth, bound) && LastTileable(t, |t.order|).Some?
    requires t.forks[t.windows[t.order[LastTileable(t, |t.order|).value]].parent.value].b.None?
    ensures var rk := CreatedRanks(t, depth, bound);
      Sound(Created(t, width, height, x, y), rk.0, rk.1)
  {
    var other := t.order[LastTileable(t, |t.order|).value];
    PartnerShape(t, depth, bound, width, height, x, y);
    JoinSound(t, depth, bound, other);
  }

  /** Tiling with a partner keeps the invariant. */
  lemma PartnerSound(t: Tiling, depth: map<nat, nat>, bound: nat, width: int, height: int, x: int, y: int)
    requires Sound(t, depth, bound) && LastTileable(t, |t.order|).Some?
    ensures var rk := CreatedRanks(t, depth, bound);
      Sound(Created(t, width, height, x, y), rk.0, rk.1)
  {
    if t.forks[t.windows[t.order[LastTileable(t, |t.order|).value]].parent.value].b.Some? {
      PartnerSplitSound(t, depth, bound, width, height, x, y);
    } else {
      PartnerJoinSound(t, depth, bound, width, height, x, y);
    }
  }

  /** Placing a window with no partner keeps the invariant. */
  lemma AloneSound(t: Tiling, depth: map<nat, nat>, bound: nat, width: int, height: int, x: int, y: int)
    requires Sound(t, depth, bound) && LastTileable(t, |t.order|).None?
    ensures Sound(Created(t, width, height, x, y), depth, bound)
  {
    if t.forks[0].a.None? {
      TopSound(t, depth, bound);
    } else {
      FloatSound(t, depth, bound, width, height, x, y);
    }
  }

  /** `create_focused` keeps the invariant, with the fresh fork ranked below its parent. */
  lemma CreatedSound(t: Tiling, depth: map<nat, nat>, bound: nat, width: int, height: int, x: int, y: int)
    requires Sound(t, depth, bound)
    ensures var rk := CreatedRanks(t, depth, bound);
      Sound(Created(t, width, height, x, y), rk.0, rk.1)
  {
    if LastTileable(t, |t.order|).Some? {
      PartnerSound(t, depth, bound, width, height, x, y);
    } else {
      AloneSound(t, depth, bound, width, height, x, y);
    }
  }

  // ---------------------------------------------------------------------------
  // close_focused
  // ---------------------------------------------------------------------------

  /**
   * The surgery when the closed window's fork had a parent `p` and a remaining
   * child `o`: `p`'s slot holding `f` now holds `o`, `o` (window or fork) gets
   * `p` as its parent, and fork `f` is removed.
   */
  function Spliced(t: Tiling, f: nat, p: nat, o: nat): (r: Tiling)
    ensures r.windows.Keys == t.windows.Keys && r.forks.Keys == t.forks.Keys - {f}
    ensures r.order == t.order && r.nextId == t.nextId
  {
    var forks1 := if p in t.forks then t.forks[p := Relinked(t.forks[p], f, o)] else t.forks;
    if o in t.windows then
      t.(windows := t.windows[o := t.windows[o].(parent := Some(p))], forks := forks1 - {f})
    else if o in forks1 then
      t.(forks := forks1[o := forks1[o].(parent := Some(p))] - {f})
    else
      t.(forks := forks1 - {f})
  }

  /**
   * `close_focused` up to its resize worklist: the last id is popped from
   * `order` and its window removed; in its fork the window's slot is emptied
   * and the sibling (if any) is taken out too. A sibling then replaces the
   * fork in its parent (the fork is removed) or, in a fork without parent,
   * moves to slot `a`; it is queued to take the fork's area. An empty fork is
   * removed unless it is the top fork `Id(0)`. Every failed lookup stops the
   * operation where it is.
   */
  function Detached(t: Tiling): (r: (Tiling, seq<Resize>))
    ensures t.order == [] ==> r == (t, [])
    ensures t.order != [] ==>
      r.0.order == t.order[..|t.order| - 1] && r.0.windows.Keys == t.windows.Keys - {t.order[|t.order| - 1]}
    ensures r.0.nextId == t.nextId && r.0.forks.Keys <= t.forks.Keys && |r.1| <= 1
  {
    if t.order == [] then (t, [])
    else
      var id := t.order[|t.order| - 1];
      var popped := t.(order := t.order[..|t.order| - 1]);
      if id !in t.windows then (popped, [])
      else
        var w := t.windows[id];
        var t1 := popped.(windows := t.windows - {id});
        if w.parent.None? || w.parent.value !in t.forks then (t1, [])
        else
          var f := w.parent.value;
          var fork := t.forks[f];
          if fork.a != Some(id) && fork.b != Some(id) then (t1, [])
          else
            var other := if fork.a == Some(id) then fork.b else fork.a;
            var emptied := fork.(a := None, b := None);
            if other.None? then
              (t1.(forks := if f != 0 then t.forks - {f} else t.forks[f := emptied]), [])
            else if fork.parent.None? then
              (t1.(forks := t.forks[f := emptied.(a := other)]), [Resize(other.value, fork.pos, fork.size)])
            else
              (Spliced(t1.(forks := t.forks[f := emptied]), f, fork.parent.value, other.value),
               [Resize(other.value, fork.pos, fork.size)])
  }

  /** Splicing out a fork in favour of its deeper child keeps the ranking. */
  lemma SplicedRanked(t: Tiling, depth: map<nat, nat>, bound: nat, f: nat, p: nat, o: nat)
    requires Ranked(t.forks, depth, bound) && f in t.forks
    requires o in t.forks ==> depth[f] < depth[o]
    requires p in t.forks && p != f && o in t.forks ==> !Child(t.forks[p], f) || depth[p] < depth[f]
    ensures Ranked(Spliced(t, f, p, o).forks, depth, bound)
  {
    var fs := Spliced(t, f, p, o).forks;
    forall k, c | k in fs && c in fs && Child(fs[k], c)
      ensures depth[k] < depth[c]
    {
      if k == p && p in t.forks && c == o && Child(t.forks[p], f) {
      } else {
        assert Child(t.forks[k], c);
      }
    }
  }

  /** The surgery keeps the ranking. */
  lemma DetachedRanked(t: Tiling, depth: map<nat, nat>, bound: nat)
    requires Ranked(t.forks, depth, bound)
    ensures Ranked(Detached(t).0.forks, depth, bound)
  {
    if t.order != [] {
      var id := t.order[|t.order| - 1];
      if id in t.windows && t.windows[id].parent.Some? && t.windows[id].parent.value in t.forks {
        var f := t.windows[id].parent.value;
        var fork := t.forks[f];
        if fork.a == Some(id) || fork.b == Some(id) {
          var other := if fork.a == Some(id) then fork.b else fork.a;
          var emptied := fork.(a := None, b := None);
          RankedShrinks(t.forks, t.forks[f := emptied], depth, bound);
          if other.Some? && fork.parent.None? {
            RankedShrinks(t.forks, t.forks[f := emptied.(a := other)], depth, bound);
          } else if other.Some? {
            var t2 := t.(order := t.order[..|t.order| - 1], windows := t.windows - {id}, forks := t.forks[f := emptied]);
            assert Child(fork, other.value);
            SplicedRanked(t2, depth, bound, f, fork.parent.value, other.value);
          } else if f != 0 {
            RankedShrinks(t.forks, t.forks - {f}, depth, bound);
          }
        }
      }
    }
  }

  /**
   * `close_focused`: the surgery, then the resize worklist run to the end. On an
   * empty `order` nothing changes; otherwise the last id leaves `order` and its
   * window is gone.
   */
  ghost function Closed(t: Tiling, depth: map<nat, nat>, bound: nat): (r: Tiling)
    requires Ranked(t.forks, depth, bound)
    ensures t.order == [] ==> r == t
    ensures t.order != [] ==>
      r.order == t.order[..|t.order| - 1] && r.windows.Keys == t.windows.Keys - {t.order[|t.order| - 1]}
    ensures r.nextId == t.nextId && r.forks.Keys <= t.forks.Keys
  {
    var d := Detached(t);
    DetachedRanked(t, depth, bound);
    var l := Laid(d.0.windows, d.0.forks, depth, bound, d.1);
    d.0.(windows := l.0, forks := l.1)
  }

  /**
   * A state with no more windows and forks, the same counter, the top fork
   * intact, a ranking, and links that are old links or point at one allocated
   * id `extra`, is sound.
   */
  lemma SoundFrom(t: Tiling, r: Tiling, depth: map<nat, nat>, bound: nat, extra: nat)
    requires Sound(t, depth, bound) && Ranked(r.forks, depth, bound)
    requires r.nextId == t.nextId && r.windows.Keys <= t.windows.Keys && r.forks.Keys <= t.forks.Keys
    requires 0 in r.forks && r.forks[0].parent.None?
    requires 1 <= extra < t.nextId
    requires forall k, c :: k in r.forks && Child(r.forks[k], c) ==> Child(t.forks[k], c) || c == extra
    ensures Sound(r, depth, bound)
  {
    forall k | k in r.forks
      ensures LinksBelow(r.forks[k], r.nextId)
    {
      assert LinksBelow(t.forks[k], t.nextId);
      if r.forks[k].a.Some? {
        assert Child(r.forks[k], r.forks[k].a.value);
      }
      if r.forks[k].b.Some? {
        assert Child(r.forks[k], r.forks[k].b.value);
      }
    }
  }

  /** Splicing keeps the invariant. */
  lemma SplicedSound(t: Tiling, depth: map<nat, nat>, bound: nat, id: nat, f: nat, p: nat, o: nat)
    requires Sound(t, depth, bound) && t.order != [] && id in t.windows && f in t.forks && Child(t.forks[f], o)
    requires t.forks[f].parent == Some(p)
    ensures var t2 := t.(order := t.order[..|t.order| - 1], windows := t.windows - {id},
                         forks := t.forks[f := t.forks[f].(a := None, b := None)]);
      Sound(Spliced(t2, f, p, o), depth, bound)
  {
    var t2 := t.(order := t.order[..|t.order| - 1], windows := t.windows - {id},
                 forks := t.forks[f := t.forks[f].(a := None, b := None)]);
    var r := Spliced(t2, f, p, o);
    assert LinksBelow(t.forks[f], t.nextId);
    RankedShrinks(t.forks, t2.forks, depth, bound);
    SplicedRanked(t2, depth, bound, f, p, o);
    forall k, c | k in r.forks && Child(r.forks[k], c)
      ensures Child(t.forks[k], c) || c == o
    {
      if k != p {
        assert Child(t2.forks[k], c);
      }
    }
    SoundFrom(t, r, depth, bound, o);
  }

  /** The surgery keeps the invariant; in particular the top fork is never removed. */
  lemma DetachedSound(t: Tiling, depth: map<nat, nat>, bound: nat)
    requires Sound(t, depth, bound)
    ensures Sound(Detached(t).0, depth, bound)
  {
    var r := Detached(t).0;
    if t.order != [] {
      var id := t.order[|t.order| - 1];
      if id in t.windows && t.windows[id].parent.Some? && t.windows[id].parent.value in t.forks {
        var f := t.windows[id].parent.value;
        var fork := t.forks[f];
        if fork.a == Some(id) || fork.b == Some(id) {
          var other := if fork.a == Some(id) then fork.b else fork.a;
          if other.Some? && fork.parent.Some? {
            assert Child(fork, other.value);
            SplicedSound(t, depth, bound, id, f, fork.parent.value, other.value);
          } else {
            DetachedRanked(t, depth, bound);
            assert forall k, c :: k in r.forks && Child(r.forks[k], c) ==> Child(t.forks[k], c);
            SoundFrom(t, r, depth, bound, id);
          }
        } else {
          SoundFrom(t, r, depth, bound, id);
        }
      } else if id in t.windows {
        SoundFrom(t, r, depth, bound, id);
      }
    }
  }

  /** Running the worklist keeps the invariant: it only moves and resizes. */
  lemma LaidSound(t: Tiling, depth: map<nat, nat>, bound: nat, q: seq<Resize>)
    requires Sound(t, depth, bound)
    ensures var l := Laid(t.windows, t.forks, depth, bound, q);
      Sound(t.(windows := l.0, forks := l.1), depth, bound)
  {
    var l := Laid(t.windows, t.forks, depth, bound, q);
    RankedShrinks(t.forks, l.1, depth, bound);
    forall k | k in l.1
      ensures LinksBelow(l.1[k], t.nextId)
    {
      assert LinksBelow(t.forks[k], t.nextId);
    }
  }

  /** `close_focused` keeps the invariant, so fork `Id(0)` survives every close. */
  lemma ClosedSound(t: Tiling, depth: map<nat, nat>, bound: nat)
    requires Sound(t, depth, bound)
    ensures Sound(Closed(t, depth, bound), depth, bound)
  {
    DetachedSound(t, depth, bound);
    var d := Detached(t);
    LaidSound(d.0, depth, bound, d.1);
  }

  /** The last window in `order` sits in fork `f`, whose other slot holds `sibling`. */
  predicate ClosesBeside(t: Tiling, f: nat, sibling: nat) {
    t.order != [] &&
    var id := t.order[|t.order| - 1];
    id in t.windows && t.windows[id].parent == Some(f) && f in t.forks && sibling != id &&
    ((t.forks[f].a == Some(id) && t.forks[f].b == Some(sibling)) ||
     (t.forks[f].a == Some(sibling) && t.forks[f].b == Some(id)))
  }

  /** The surgery in that case: what happens to the fork and its parent, and the one worklist entry. */
  lemma DetachedBeside(t: Tiling, depth: map<nat, nat>, bound: nat, f: nat, sibling: nat)
    requires Sound(t, depth, bound) && ClosesBeside(t, f, sibling)
    ensures var d := Detached(t);
      var fork := t.forks[f];
      d.1 == [Resize(sibling, fork.pos, fork.size)] &&
      (sibling in t.windows ==>
         sibling in d.0.windows &&
         d.0.windows[sibling].parent == (if fork.parent.Some? then fork.parent else t.windows[sibling].parent)) &&
      (sibling in t.forks ==>
         sibling in d.0.forks && sibling !in d.0.windows &&
         d.0.forks[sibling] == t.forks[sibling].(parent := if fork.parent.Some? then fork.parent else t.forks[sibling].parent)) &&
      (fork.parent.None? ==> f in d.0.forks && d.0.forks[f] == fork.(a := Some(sibling), b := None)) &&
      (fork.parent.Some? ==>
         f !in d.0.forks &&
         (fork.parent.value in t.forks && fork.parent.value != f && Child(t.forks[fork.parent.value], f) ==>
            Child(d.0.forks[fork.parent.value], sibling)))
  {
    var fork := t.forks[f];
    assert LinksBelow(fork, t.nextId) && Child(fork, sibling);
    if fork.parent.Some? {
      assert f != 0;
    }
  }

  /**
   * Closing a window next to a sibling: when the fork had a parent, the fork is
   * gone and the sibling holds its slot in the parent, with the parent as its
   * own; a fork without parent keeps the sibling as `a` and nothing as `b`.
   */
  lemma ClosedSplices(t: Tiling, depth: map<nat, nat>, bound: nat, f: nat, sibling: nat)
    requires Sound(t, depth, bound) && ClosesBeside(t, f, sibling)
    ensures var r := Closed(t, depth, bound);
      var fork := t.forks[f];
      (fork.parent.Some? ==>
         var p := fork.parent.value;
         f !in r.forks &&
         (p in t.forks && p != f && Child(t.forks[p], f) ==> Child(r.forks[p], sibling)) &&
         (sibling in t.windows ==> r.windows[sibling].parent == Some(p)) &&
         (sibling in t.forks ==> sibling in r.forks && r.forks[sibling].parent == Some(p))) &&
      (fork.parent.None? ==> r.forks[f].a == Some(sibling) && r.forks[f].b.None?)
  {
    DetachedBeside(t, depth, bound, f, sibling);
  }

  /** A worklist of one window entry just moves that window. */
  lemma LaidWindow(ws: map<nat, Tile>, fs: map<nat, Fork>, depth: map<nat, nat>, bound: nat, e: Resize)
    requires Ranked(fs, depth, bound) && e.id in ws
    ensures Laid(ws, fs, depth, bound, [e]) == (ws[e.id := ws[e.id].(pos := e.pos, size := e.size)], fs)
  {
    assert [e][1..] == [];
  }

  /** A worklist of one fork entry places that fork for good and goes on with its children. */
  lemma LaidFork(ws: map<nat, Tile>, fs: map<nat, Fork>, depth: map<nat, nat>, bound: nat, e: Resize)
    requires Ranked(fs, depth, bound) && e.id !in ws && e.id in fs
    ensures var placed := fs[e.id := fs[e.id].(pos := e.pos, size := e.size)];
      Ranked(placed, depth, bound) &&
      Laid(ws, fs, depth, bound, [e]) == Laid(ws, placed, depth, bound, Split(fs[e.id], e.pos, e.size)) &&
      Laid(ws, fs, depth, bound, [e]).1[e.id] == placed[e.id]
  {
    var placed := fs[e.id := fs[e.id].(pos := e.pos, size := e.size)];
    var next := Split(fs[e.id], e.pos, e.size);
    assert [e][1..] + next == next;
    RankedPlaced(fs, depth, bound, e.id, e.pos, e.size);
    forall i | 0 <= i < |next| && next[i].id in placed
      ensures depth[e.id] < depth[next[i].id]
    {
      assert Child(fs[e.id], next[i].id);
    }
    LaidKeepsShallow(ws, placed, depth, bound, next, e.id);
  }

  /** A worklist of two entries for two different windows moves both. */
  lemma LaidTwoWindows(ws: map<nat, Tile>, fs: map<nat, Fork>, depth: map<nat, nat>, bound: nat, e0: Resize, e1: Resize)
    requires Ranked(fs, depth, bound) && e0.id in ws && e1.id in ws && e0.id != e1.id
    ensures var r := Laid(ws, fs, depth, bound, [e0, e1]).0;
      r[e0.id] == ws[e0.id].(pos := e0.pos, size := e0.size) && r[e1.id] == ws[e1.id].(pos := e1.pos, size := e1.size)
  {
    assert [e0, e1][1..] == [e1];
    LaidWindow(ws[e0.id := ws[e0.id].(pos := e0.pos, size := e0.size)], fs, depth, bound, e1);
  }

  /** The sibling, window or fork, takes over the closed fork's place and size. */
  lemma ClosedSiblingTakesPlace(t: Tiling, depth: map<nat, nat>, bound: nat, f: nat, sibling: nat)
    requires Sound(t, depth, bound) && ClosesBeside(t, f, sibling)
    ensures var r := Closed(t, depth, bound);
      var fork := t.forks[f];
      (sibling in t.windows ==>
         sibling in r.windows && r.windows[sibling].pos == fork.pos && r.windows[sibling].size == fork.size) &&
      (sibling in t.forks ==>
         sibling in r.forks && r.forks[sibling].pos == fork.pos && r.forks[sibling].size == fork.size)
  {
    DetachedBeside(t, depth, bound, f, sibling);
    DetachedRanked(t, depth, bound);
    var d := Detached(t);
    var fork := t.forks[f];
    if sibling in t.windows {
      LaidWindow(d.0.windows, d.0.forks, depth, bound, Resize(sibling, fork.pos, fork.size));
    } else if sibling in t.forks {
      LaidFork(d.0.windows, d.0.forks, depth, bound, Resize(sibling, fork.pos, fork.size));
    }
  }

  /**
   * When the sibling is a fork of two windows, those windows split the closed
   * fork's area in equal halves along the sibling's orientation.
   */
  lemma ClosedHalves(t: Tiling, depth: map<nat, nat>, bound: nat, f: nat, sibling: nat, a: nat, b: nat)
    requires Sound(t, depth, bound) && ClosesBeside(t, f, sibling) && sibling in t.forks
    requires t.forks[sibling].a == Some(a) && t.forks[sibling].b == Some(b) && a != b
    requires a in t.windows && b in t.windows && a != t.order[|t.order| - 1] && b != t.order[|t.order| - 1]
    ensures var r := Closed(t, depth, bound);
      var halves := Split(t.forks[sibling], t.forks[f].pos, t.forks[f].size);
      a in r.windows && b in r.windows &&
      r.windows[b].pos == halves[0].pos && r.windows[b].size == halves[0].size &&
      r.windows[a].pos == halves[1].pos && r.windows[a].size == halves[1].size
  {
    DetachedBeside(t, depth, bound, f, sibling);
    DetachedRanked(t, depth, bound);
    var d := Detached(t);
    var fork := t.forks[f];
    var e := Resize(sibling, fork.pos, fork.size);
    LaidFork(d.0.windows, d.0.forks, depth, bound, e);
    var placed := d.0.forks[sibling := d.0.forks[sibling].(pos := e.pos, size := e.size)];
    var halves := Split(t.forks[sibling], e.pos, e.size);
    assert Split(d.0.forks[sibling], e.pos, e.size) == halves == [halves[0], halves[1]];
    LaidTwoWindows(d.0.windows, placed, depth, bound, halves[0], halves[1]);
  }

  // ---------------------------------------------------------------------------
  // focus_direction
  // ---------------------------------------------------------------------------

  /** The two windows share part of the vertical extent (not `out_of_bounds_vertical`). */
  predicate OverlapsVertically(cur: Tile, w: Tile) {
    !(w.TopEdge() >= cur.BottomEdge() || w.BottomEdge() <= cur.TopEdge())
  }

  /** The two windows share part of the horizontal extent (not `out_of_bounds_horizontal`). */
  predicate OverlapsHorizontally(cur: Tile, w: Tile) {
    !(w.LeftEdge() >= cur.RightEdge() || w.RightEdge() <= cur.LeftEdge())
  }

  /**
   * How far `w` lies from `cur` in `dir`, or `None` when the scan skips it:
   * it must overlap `cur` across the direction and start at or beyond `cur`'s
   * edge on that side; the distance is the gap, 0 when they overlap.
   */
  function Distance(dir: Direction, cur: Tile, w: Tile): (r: Option<int>)
    ensures r.Some? ==> r.value >= 0
    ensures dir.Left? ==>
      (r.Some? <==> OverlapsVertically(cur, w) && (w.RightEdge() <= cur.LeftEdge() || w.LeftEdge() <= cur.LeftEdge())) &&
      (r.Some? ==> r.value == Max(0, cur.LeftEdge() - w.RightEdge()))
    ensures dir.Right? ==>
      (r.Some? <==> OverlapsVertically(cur, w) && (w.LeftEdge() >= cur.RightEdge() || w.RightEdge() >= cur.RightEdge())) &&
      (r.Some? ==> r.value == Max(0, w.LeftEdge() - cur.RightEdge()))
    ensures dir.Up? ==>
      (r.Some? <==> OverlapsHorizontally(cur, w) && (w.BottomEdge() <= cur.TopEdge() || w.TopEdge() <= cur.TopEdge())) &&
      (r.Some? ==> r.value == Max(0, cur.TopEdge() - w.BottomEdge()))
    ensures dir.Down? ==>
      (r.Some? <==> OverlapsHorizontally(cur, w) && (w.TopEdge() >= cur.BottomEdge() || w.BottomEdge() >= cur.BottomEdge())) &&
      (r.Some? ==> r.value == Max(0, w.TopEdge() - cur.BottomEdge()))
  {
    match dir
    case Left =>
      if !OverlapsVertically(cur, w) then None
      else if w.RightEdge() <= cur.LeftEdge() then Some(cur.LeftEdge() - w.RightEdge())
      else if w.LeftEdge() <= cur.LeftEdge() then Some(0)
      else None
    case Right =>
      if !OverlapsVertically(cur, w) then None
      else if w.LeftEdge() >= cur.RightEdge() then Some(w.LeftEdge() - cur.RightEdge())
      else if w.RightEdge() >= cur.RightEdge() then Some(0)
      else None
    case Up =>
      if !OverlapsHorizontally(cur, w) then None
      else if w.BottomEdge() <= cur.TopEdge() then Some(cur.TopEdge() - w.BottomEdge())
      else if w.TopEdge() <= cur.TopEdge() then Some(0)
      else None
    case Down =>
      if !OverlapsHorizontally(cur, w) then None
      else if w.TopEdge() >= cur.BottomEdge() then Some(w.TopEdge() - cur.BottomEdge())
      else if w.BottomEdge() >= cur.BottomEdge() then Some(0)
      else None
  }

  /** A window the scan considers: not the focused id, existing, and in the given direction. */
  predicate Candidate(t: Tiling, dir: Direction, cur: Tile, curId: nat, id: nat) {
    id != curId && id in t.windows && Distance(dir, cur, t.windows[id]).Some?
  }

  function Dist(t: Tiling, dir: Direction, cur: Tile, id: nat): int
    requires id in t.windows && Distance(dir, cur, t.windows[id]).Some?
  {
    Distance(dir, cur, t.windows[id]).value
  }

  /**
   * The scan over `order[..n]`: the index of the nearest candidate, the later
   * one on a tie (a distance no larger than the best so far replaces it).
   */
  function Nearest(t: Tiling, dir: Direction, cur: Tile, curId: nat, n: nat): (r: Option<nat>)
    requires n <= |t.order|
    ensures r.Some? ==> r.value < n && Candidate(t, dir, cur, curId, t.order[r.value])
    ensures r.None? ==> forall j :: 0 <= j < n ==> !Candidate(t, dir, cur, curId, t.order[j])
    ensures r.Some? ==> forall j :: 0 <= j < n && Candidate(t, dir, cur, curId, t.order[j]) ==>
      Dist(t, dir, cur, t.order[r.value]) <= Dist(t, dir, cur, t.order[j])
    ensures r.Some? ==> forall j :: r.value < j < n && Candidate(t, dir, cur, curId, t.order[j]) ==>
      Dist(t, dir, cur, t.order[r.value]) < Dist(t, dir, cur, t.order[j])
  {
    if n == 0 then None
    else
      var prev := Nearest(t, dir, cur, curId, n - 1);
      var id := t.order[n - 1];
      if Candidate(t, dir, cur, curId, id) &&
         (prev.None? || Dist(t, dir, cur, id) <= Dist(t, dir, cur, t.order[prev.value]))
      then Some(n - 1)
      else prev
  }

  /** One more entry of the scan: it takes over when it is a candidate no farther than the best so far. */
  lemma NearestStep(t: Tiling, dir: Direction, cur: Tile, curId: nat, n: nat)
    requires n < |t.order|
    ensures var prev := Nearest(t, dir, cur, curId, n);
      var id := t.order[n];
      Nearest(t, dir, cur, curId, n + 1) ==
        if Candidate(t, dir, cur, curId, id) &&
           (prev.None? || Distance(dir, cur, t.windows[id]).value <= Dist(t, dir, cur, t.order[prev.value]))
        then Some(n) else prev
  {
  }

  /**
   * `focus_direction`: from the last window in `order`, the nearest candidate
   * in `dir` is moved to the end of `order` (every other copy of its id is
   * dropped); with no focused window or no candidate nothing changes.
   */
  function Focused(t: Tiling, dir: Direction): (r: Tiling)
    ensures r.windows == t.windows && r.forks == t.forks && r.nextId == t.nextId
  {
    if t.order == [] || t.order[|t.order| - 1] !in t.windows then t
    else
      var curId := t.order[|t.order| - 1];
      match Nearest(t, dir, t.windows[curId], curId, |t.order|)
      case None => t
      case Some(k) => t.(order := RemoveAll(t.order, t.order[k]) + [t.order[k]])
  }

  /** Moving an id to the end of a sequence keeps every other element, in order. */
  lemma MovedToEnd(s: seq<nat>, v: nat)
    ensures var r := RemoveAll(s, v) + [v];
      r[|r| - 1] == v && IsSubseq(r[..|r| - 1], s) && v !in r[..|r| - 1] &&
      multiset(r) == multiset(s)[v := 1]
  {
    var kept := RemoveAll(s, v);
    RemoveAllSpec(s, v);
    var r := kept + [v];
    assert r[..|r| - 1] == kept;
    assert multiset(r) == multiset(kept) + multiset{v};
  }

  /** The id the focus moves to overlaps the focused window across the direction. */
  lemma NearestOverlaps(t: Tiling, dir: Direction, cur: Tile, curId: nat)
    requires Nearest(t, dir, cur, curId, |t.order|).Some?
    ensures var pick := t.order[Nearest(t, dir, cur, curId, |t.order|).value];
      pick != curId && pick in t.windows &&
      (dir.Left? || dir.Right? ==> OverlapsVertically(cur, t.windows[pick])) &&
      (dir.Up? || dir.Down? ==> OverlapsHorizontally(cur, t.windows[pick]))
  {
    var pick := t.order[Nearest(t, dir, cur, curId, |t.order|).value];
    var d := Distance(dir, cur, t.windows[pick]);
  }

  /**
   * What focusing moves: the picked window ends `order`, the others keep their
   * relative order, and it is a window other than the focused one.
   */
  lemma FocusedMoves(t: Tiling, dir: Direction)
    requires t.order != [] && t.order[|t.order| - 1] in t.windows
    ensures var curId := t.order[|t.order| - 1];
      var r := Focused(t, dir);
      match Nearest(t, dir, t.windows[curId], curId, |t.order|)
      case None => r == t
      case Some(k) =>
        var pick := t.order[k];
        pick != curId && r.order[|r.order| - 1] == pick &&
        IsSubseq(r.order[..|r.order| - 1], t.order) && pick !in r.order[..|r.order| - 1] &&
        multiset(r.order) == multiset(t.order)[pick := 1]
  {
    var curId := t.order[|t.order| - 1];
    match Nearest(t, dir, t.windows[curId], curId, |t.order|)
    case None =>
    case Some(k) =>
      MovedToEnd(t.order, t.order[k]);
  }
}
