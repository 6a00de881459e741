// The damage-rectangle coalescer `schedule` (src/scheme.rs and src/compositor.rs
// carry the same algorithm). A redraw request is merged into the first pending
// rectangle whose bounding box with the request is no larger than the two areas
// together; when no pending rectangle qualifies the request is appended.
module Damage {
  import opened Helpers
  import opened Rects

  /** The merge test: a rectangle absorbs the request when their container wastes no area. */
  predicate Absorbs(rect: Rect, request: Rect) {
    Container(rect, request).Area() <= rect.Area() + request.Area()
  }

  /** The redraw list after scheduling `request`, as a reference definition. */
  function Scheduled(redraws: seq<Rect>, request: Rect): seq<Rect>
  {
    if redraws == [] then [request]
    else if Absorbs(redraws[0], request) then [Container(redraws[0], request)] + redraws[1..]
    else [redraws[0]] + Scheduled(redraws[1..], request)
  }

  /** When the first absorbing rectangle is at index `k`, exactly that entry becomes the container. */
  lemma {:induction false} ScheduledMerges(redraws: seq<Rect>, request: Rect, k: nat)
    requires k < |redraws| && Absorbs(redraws[k], request)
    requires forall j :: 0 <= j < k ==> !Absorbs(redraws[j], request)
    ensures Scheduled(redraws, request) == redraws[k := Container(redraws[k], request)]
  {
    if k > 0 {
      ScheduledMerges(redraws[1..], request, k - 1);
      assert redraws[k := Container(redraws[k], request)]
        == [redraws[0]] + redraws[1..][k - 1 := Container(redraws[k], request)];
    }
  }

  /** When no rectangle absorbs the request, it is appended. */
  lemma {:induction false} ScheduledAppends(redraws: seq<Rect>, request: Rect)
    requires forall j :: 0 <= j < |redraws| ==> !Absorbs(redraws[j], request)
    ensures Scheduled(redraws, request) == redraws + [request]
  {
    if redraws != [] {
      ScheduledAppends(redraws[1..], request);
      assert redraws + [request] == [redraws[0]] + (redraws[1..] + [request]);
    }
  }

  /**
   * Scheduling never loses damage: the request and every earlier rectangle are
   * covered afterwards, each earlier rectangle by the entry in its own slot, and
   * the list grows by at most one.
   */
  lemma {:induction false} ScheduledCovers(redraws: seq<Rect>, request: Rect)
    ensures var r := Scheduled(redraws, request);
      (|r| == |redraws| || |r| == |redraws| + 1) &&
      (exists k :: 0 <= k < |r| && Within(request, r[k])) &&
      (forall j :: 0 <= j < |redraws| ==> Within(redraws[j], r[j]))
  {
    var r := Scheduled(redraws, request);
    if redraws == [] {
      assert Within(request, r[0]);
    } else if Absorbs(redraws[0], request) {
      assert Within(request, r[0]);
    } else {
      ScheduledCovers(redraws[1..], request);
      var t := Scheduled(redraws[1..], request);
      var k :| 0 <= k < |t| && Within(request, t[k]);
      assert r[k + 1] == t[k];
      assert Within(redraws[0], r[0]);
      forall j | 1 <= j < |redraws| ensures Within(redraws[j], r[j]) {
        assert redraws[j] == redraws[1..][j - 1] && r[j] == t[j - 1];
      }
    }
  }

  /** Some pending rectangle holds `r`. */
  predicate Covered(redraws: seq<Rect>, r: Rect) {
    exists k :: 0 <= k < |redraws| && Within(r, redraws[k])
  }

  /**
   * What one `schedule` call guarantees to its callers: the request is covered
   * afterwards, whatever was covered before stays covered, and the list grows
   * by at most one.
   */
  lemma ScheduledKeeps(redraws: seq<Rect>, request: Rect)
    ensures Covered(Scheduled(redraws, request), request)
    ensures forall r :: Covered(redraws, r) ==> Covered(Scheduled(redraws, request), r)
    ensures |redraws| <= |Scheduled(redraws, request)| <= |redraws| + 1
  {
    var s := Scheduled(redraws, request);
    ScheduledCovers(redraws, request);
    forall r | Covered(redraws, r) ensures Covered(s, r) {
      var k :| 0 <= k < |redraws| && Within(r, redraws[k]);
      assert Within(redraws[k], s[k]);
    }
  }

  /** `schedule`: a scan with a `push` flag that stops at the first absorbing rectangle. */
  method Schedule(redraws: seq<Rect>, request: Rect) returns (result: seq<Rect>)
    ensures result == Scheduled(redraws, request)
  {
    result := redraws;
    var push := true;
    var i := 0;
    while i < |result|
      invariant 0 <= i <= |result| && |result| == |redraws|
      invariant push ==> result == redraws
      invariant push ==> forall j :: 0 <= j < i ==> !Absorbs(redraws[j], request)
      invariant !push ==> result == Scheduled(redraws, request)
    {
      var container := Container(result[i], request);
      if container.Area() <= result[i].Area() + request.Area() {
        ScheduledMerges(redraws, request, i);
        result := result[i := container];
        push := false;
        break;
      }
      i := i + 1;
    }
    if push {
      ScheduledAppends(redraws, request);
      result := result + [request];
    }
  }
}
