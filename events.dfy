// The per-window event queue of src/window.rs. A new event is merged into the
// last queued one when both have the same code and the code is one whose
// latest value (absolute pointer, move, resize, screen) or whose running total
// (relative pointer, scroll) is all a client needs; any other event is queued.
module Events {

  /** `orbclient::Event`: a code and two payload words. */
  datatype Event = Event(code: int, a: int, b: int)

  const EVENT_NONE: int := 0
  const EVENT_KEY: int := 1
  const EVENT_MOUSE: int := 2
  const EVENT_BUTTON: int := 3
  const EVENT_SCROLL: int := 4
  const EVENT_QUIT: int := 5
  const EVENT_FOCUS: int := 6
  const EVENT_MOVE: int := 7
  const EVENT_RESIZE: int := 8
  const EVENT_SCREEN: int := 9
  const EVENT_CLIPBOARD: int := 10
  const EVENT_MOUSE_RELATIVE: int := 11
  const EVENT_DROP: int := 12
  const EVENT_TEXT_INPUT: int := 13
  const EVENT_CLIPBOARD_UPDATE: int := 14
  const EVENT_HOVER: int := 15

  /** Codes whose newer event makes the queued one obsolete. */
  predicate Replaces(code: int) {
    code == EVENT_MOUSE || code == EVENT_MOVE || code == EVENT_RESIZE || code == EVENT_SCREEN
  }

  /** Codes whose payloads are deltas that can be summed. */
  predicate Accumulates(code: int) {
    code == EVENT_MOUSE_RELATIVE || code == EVENT_SCROLL
  }

  /** The queue after `Window::event`, as a reference definition. */
  function Coalesced(events: seq<Event>, e: Event): seq<Event>
  {
    if |events| > 0 && events[|events| - 1].code == e.code && Replaces(e.code) then
      events[|events| - 1 := e]
    else if |events| > 0 && events[|events| - 1].code == e.code && Accumulates(e.code) then
      var last := events[|events| - 1];
      events[|events| - 1 := Event(last.code, last.a + e.a, last.b + e.b)]
    else
      events + [e]
  }

  /** One payload word of an event. */
  function Field(e: Event, first: bool): int { if first then e.a else e.b }

  /** The sum of one payload word over the queued events of `code`. */
  function Total(s: seq<Event>, code: int, first: bool): int
  {
    if s == [] then 0
    else (if s[0].code == code then Field(s[0], first) else 0) + Total(s[1..], code, first)
  }

  /** The number of queued events of `code`. */
  function Count(s: seq<Event>, code: int): nat
  {
    if s == [] then 0
    else (if s[0].code == code then 1 else 0) + Count(s[1..], code)
  }

  lemma {:induction false} TotalConcat(s: seq<Event>, t: seq<Event>, code: int, first: bool)
    ensures Total(s + t, code, first) == Total(s, code, first) + Total(t, code, first)
  {
    if s == [] {
      assert s + t == t;
    } else {
      assert (s + t)[1..] == s[1..] + t;
      TotalConcat(s[1..], t, code, first);
    }
  }

  lemma {:induction false} CountConcat(s: seq<Event>, t: seq<Event>, code: int)
    ensures Count(s + t, code) == Count(s, code) + Count(t, code)
  {
    if s == [] {
      assert s + t == t;
    } else {
      assert (s + t)[1..] == s[1..] + t;
      CountConcat(s[1..], t, code);
    }
  }

  /** Whether `e` is merged into the last queued event rather than queued after it. */
  predicate Merges(events: seq<Event>, e: Event) {
    |events| > 0 && events[|events| - 1].code == e.code && (Replaces(e.code) || Accumulates(e.code))
  }

  /** No two neighbouring queued events could have been merged. */
  predicate Compact(s: seq<Event>) {
    forall k :: 0 < k < |s| ==>
      !(s[k - 1].code == s[k].code && (Replaces(s[k].code) || Accumulates(s[k].code)))
  }

  /**
   * What coalescing keeps: an event that is not merged is queued after the
   * untouched queue; a merge keeps the length and, for relative motion and
   * scrolling, leaves the summed payloads last; every event but the last is
   * untouched; the newest event of a replacing code is the
   * queue's last entry; queued relative motion and scrolling are never lost
   * (their per-code totals grow by exactly the new event's payload); events of
   * other codes are counted one for one; and a compact queue stays compact.
   */
  lemma CoalescedSpec(events: seq<Event>, e: Event)
    ensures var r := Coalesced(events, e);
      (!Merges(events, e) ==> r == events + [e]) &&
      (Merges(events, e) ==> |r| == |events|) &&
      (Merges(events, e) && Accumulates(e.code) ==>
         r[|r| - 1] == Event(e.code, events[|events| - 1].a + e.a, events[|events| - 1].b + e.b)) &&
      (|events| > 0 ==> r[..|events| - 1] == events[..|events| - 1]) &&
      r[|r| - 1].code == e.code &&
      (Replaces(e.code) ==> r[|r| - 1] == e) &&
      (forall code, first :: Accumulates(code) ==>
         Total(r, code, first) == Total(events, code, first) + (if e.code == code then Field(e, first) else 0)) &&
      (forall code :: !Replaces(code) && !Accumulates(code) ==>
         Count(r, code) == Count(events, code) + (if e.code == code then 1 else 0)) &&
      (Compact(events) ==> Compact(r))
  {
    var r := Coalesced(events, e);
    if Merges(events, e) {
      var n := |events| - 1;
      var p, last := events[..n], events[n];
      assert events == p + [last];
      assert r == p + [r[n]];
      forall code, first | Accumulates(code)
        ensures Total(r, code, first) == Total(events, code, first) + (if e.code == code then Field(e, first) else 0)
      {
        TotalConcat(p, [last], code, first);
        TotalConcat(p, [r[n]], code, first);
      }
      forall code | !Replaces(code) && !Accumulates(code)
        ensures Count(r, code) == Count(events, code) + (if e.code == code then 1 else 0)
      {
        CountConcat(p, [last], code);
        CountConcat(p, [r[n]], code);
      }
    } else {
      forall code, first | Accumulates(code)
        ensures Total(r, code, first) == Total(events, code, first) + (if e.code == code then Field(e, first) else 0)
      {
        TotalConcat(events, [e], code, first);
      }
      forall code | !Replaces(code) && !Accumulates(code)
        ensures Count(r, code) == Count(events, code) + (if e.code == code then 1 else 0)
      {
        CountConcat(events, [e], code);
      }
      assert r[..|events|] == events;
    }
  }
}
