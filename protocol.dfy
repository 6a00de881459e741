// The scheme front end of src/core/mod.rs: how the display server decodes
// what clients send through `orbital:` handles (the window path given to
// `open`, the command strings given to `write`), how it tells clipboard
// handles from window handles, what `fpath` reports, the size check of
// `mmap_prep`, and the retry of packets whose reply had to wait.
module Protocol {
  import opened Helpers
  import opened Utf8
  import opened Text

  // Handles.

  /** `CLIPBOARD_FLAG` on 64-bit targets: the top bit of a handle. */
  const CLIPBOARD_FLAG: bv64 := 0x8000_0000_0000_0000

  datatype Handle = WindowHandle(id: bv64) | ClipboardHandle(id: bv64)

  /**
   * Which handler `read`, `write` and `close` call: a handle with the clipboard
   * bit set names the clipboard of the window whose id is the handle without
   * that bit; any other handle names the window itself.
   */
  function Route(id: bv64): (h: Handle)
    ensures h.ClipboardHandle? <==> id & CLIPBOARD_FLAG != 0
    ensures h.ClipboardHandle? ==> h.id & CLIPBOARD_FLAG == 0 && h.id | CLIPBOARD_FLAG == id
    ensures h.WindowHandle? ==> h.id == id
  {
    if id & CLIPBOARD_FLAG == CLIPBOARD_FLAG then ClipboardHandle(id & !CLIPBOARD_FLAG) else WindowHandle(id)
  }

  /** The bytes `dup` must receive to open a clipboard handle. */
  const CLIPBOARD_PATH: seq<Byte> := Encode("clipboard")

  /**
   * `dup(id, buf)`: for "clipboard", the id the clipboard handler returned
   * with the clipboard bit set, so that later calls on it are routed to that
   * window's clipboard; any other buffer is refused and no handler runs.
   */
  function Dup(buf: seq<Byte>, created: Result<bv64>): (r: Result<bv64>)
    ensures buf != CLIPBOARD_PATH ==> r == Err(EINVAL)
    ensures buf == CLIPBOARD_PATH && created.Err? ==> r == created
    ensures buf == CLIPBOARD_PATH && created.Ok? ==>
      r.Ok? && Route(r.value) == ClipboardHandle(created.value & !CLIPBOARD_FLAG)
  {
    if buf == CLIPBOARD_PATH then
      match created
      case Ok(id) => Ok(id | CLIPBOARD_FLAG)
      case Err(e) => Err(e)
    else Err(EINVAL)
  }

  /** Window ids below the top bit are never taken for clipboard handles. */
  lemma WindowIdsRouteToWindows(id: bv64)
    requires id < CLIPBOARD_FLAG
    ensures Route(id) == WindowHandle(id)
  {
  }

  /** `size_of::<orbclient::Event>()`: a code and two payload words of 8 bytes each. */
  const EVENT_SIZE: nat := 24

  datatype ReadCall = ClipboardRead(window: bv64, len: nat) | EventsRead(window: bv64, slots: nat)

  /**
   * `read(id, buf)`: a clipboard read gets the whole buffer; an event read
   * gets as many event slots as fit in it.
   */
  function ReadCallOf(id: bv64, len: nat): (c: ReadCall)
    ensures Route(id).ClipboardHandle? ==> c == ClipboardRead(Route(id).id, len)
    ensures Route(id).WindowHandle? ==>
      c.EventsRead? && c.window == id && c.slots * EVENT_SIZE <= len < (c.slots + 1) * EVENT_SIZE
  {
    match Route(id)
    case ClipboardHandle(w) => ClipboardRead(w, len)
    case WindowHandle(w) => EventsRead(w, len / EVENT_SIZE)
  }

  /** The reply to `read`, given what the handler returned: a byte count. */
  function ReadReply(c: ReadCall, handled: Result<nat>): (r: Result<nat>)
    ensures handled.Err? ==> r == handled
    ensures c.ClipboardRead? ==> r == handled
    ensures c.EventsRead? && handled.Ok? ==>
      (r.Ok? && r.value % EVENT_SIZE == 0 && (handled.value <= c.slots ==> r.value <= c.slots * EVENT_SIZE))
  {
    match handled
    case Err(e) => Err(e)
    case Ok(n) => if c.EventsRead? then Ok(n * EVENT_SIZE) else Ok(n)
  }

  // `open`.

  /** The arguments of `handle_window_new`. */
  datatype NewWindow = NewWindow(x: int, y: int, width: int, height: int, flags: string, title: string)

  /**
   * `open(path)`: the '/'-separated fields flags, x, y, width, height, then
   * the title, which is everything after the fifth '/'; a missing or
   * malformed number is 0 and a missing field is empty.
   */
  function Open(path: string): NewWindow
  {
    var ps := Split(path, '/');
    NewWindow(ParseOr0(Nth(ps, 1)), ParseOr0(Nth(ps, 2)), ParseOr0(Nth(ps, 3)), ParseOr0(Nth(ps, 4)),
              ps[0], if |ps| > 5 then Join(ps[5..], '/') else [])
  }

  /**
   * The flags are the text before the first '/', and the title is the text
   * after the fifth, '/'s included; a path with fewer fields has no title.
   */
  lemma OpenSpec(path: string)
    ensures var ps, r := Split(path, '/'), Open(path);
      r.flags == ps[0] && '/' !in r.flags &&
      (|ps| > 5 ==> path == Join(ps[..5], '/') + ['/'] + r.title) &&
      (|ps| <= 5 ==> r.title == [])
  {
    var ps := Split(path, '/');
    SplitSpec(path, '/');
    if |ps| > 5 {
      JoinConcat(ps[..5], ps[5..], '/');
      assert ps[..5] + ps[5..] == ps;
    }
  }

  // `fpath`.

  /** What `handle_window_properties` reports about a window. */
  datatype Properties = Properties(flags: string, x: int, y: int, width: int, height: int, title: string)

  /** The window path `flags/x/y/width/height/title`. */
  function PathBody(p: Properties): string
  {
    Join([p.flags, FormatInt(p.x), FormatInt(p.y), FormatInt(p.width), FormatInt(p.height), p.title], '/')
  }

  const SCHEME_NAME: string := "orbital"

  /** The full path `orbital:flags/x/y/width/height/title`. */
  function PathText(p: Properties): string
  {
    SCHEME_NAME + [':'] + PathBody(p)
  }

  /**
   * `fpath(id, buf)`: the bytes of the window's full path, cut off where the
   * buffer ends; the reply is their count.
   */
  function Fpath(p: Properties, len: nat): (r: seq<Byte>)
    ensures |r| == Min(len, |Encode(PathText(p))|)
    ensures r == Encode(PathText(p))[..|r|]
  {
    var e := Encode(PathText(p));
    if len < |e| then e[..len] else e
  }

  // `url_parts` and `parse_display_path`.

  /**
   * `url_parts`: the scheme name before the first ':' and the path up to the
   * next ':' (either may be empty); an error when there is no ':' at all.
   */
  function UrlParts(url: string): Option<(string, string)>
  {
    var ps := Split(url, ':');
    if |ps| < 2 then None else Some((ps[0], ps[1]))
  }

  /**
   * `parse_display_path("vt/width/height")`: the first three '/'-separated
   * fields, a missing or malformed number being 0.
   */
  function ParseDisplayPath(path: string): (string, int, int)
  {
    var ps := Split(path, '/');
    (ps[0], ParseOr0(Nth(ps, 1)), ParseOr0(Nth(ps, 2)))
  }

  /** A joined text holds a character only if some piece does. */
  lemma {:induction false} JoinFree(ps: seq<string>, c: char, d: char)
    requires |ps| >= 1 && NoneContain(ps, d) && c != d
    ensures d !in Join(ps, c)
    decreases |ps|
  {
    if |ps| > 1 {
      assert NoneContain(ps[1..], d) by {
        forall k | 0 <= k < |ps| - 1 ensures d !in ps[1..][k] { assert ps[1..][k] == ps[k + 1]; }
      }
      JoinFree(ps[1..], c, d);
    }
  }

  /** Splitting a join whose pieces, all but the last, are free of the separator. */
  lemma {:induction false} SplitJoinLast(ps: seq<string>, c: char)
    requires |ps| >= 1 && NoneContain(ps[..|ps| - 1], c)
    ensures Split(Join(ps, c), c) == ps[..|ps| - 1] + Split(ps[|ps| - 1], c)
    decreases |ps|
  {
    if |ps| > 1 {
      var init, tail := ps[..|ps| - 1], ps[1..];
      var q := tail[..|tail| - 1];
      assert init == [ps[0]] + q;
      assert c !in ps[0] by { assert init[0] == ps[0]; }
      assert NoneContain(q, c) by {
        forall k | 0 <= k < |q| ensures c !in q[k] {
          assert q[k] == init[k + 1];
        }
      }
      SplitJoinLast(tail, c);
      var last := ps[|ps| - 1];
      assert tail[|tail| - 1] == last;
      assert Join(ps, c) == ps[0] + [c] + Join(tail, c);
      SplitCons(ps[0], c, Join(tail, c));
      calc {
        Split(Join(ps, c), c);
        [ps[0]] + Split(Join(tail, c), c);
        [ps[0]] + (q + Split(last, c));
        init + Split(last, c);
      }
    }
  }

  /** `url_parts` as the tests of src/core/mod.rs describe it. */
  lemma UrlPartsSpec(url: string)
    ensures UrlParts(url).None? <==> ':' !in url
    ensures UrlParts(url).Some? ==> var (scheme, path) := UrlParts(url).value;
      ':' !in scheme && ':' !in path && |scheme| + 1 + |path| <= |url| &&
      url[..|scheme|] == scheme && url[|scheme|] == ':' && url[|scheme| + 1..|scheme| + 1 + |path|] == path &&
      (|scheme| + 1 + |path| == |url| || url[|scheme| + 1 + |path|] == ':')
  {
    SplitSpec(url, ':');
    var ps := Split(url, ':');
    if |ps| >= 2 {
      var rest := Join(ps[1..], ':');
      JoinConcat([ps[0]], ps[1..], ':');
      assert [ps[0]] + ps[1..] == ps;
      assert url == ps[0] + [':'] + rest;
      if |ps| > 2 {
        JoinConcat([ps[1]], ps[2..], ':');
        assert [ps[1]] + ps[2..] == ps[1..];
        assert rest == ps[1] + [':'] + Join(ps[2..], ':');
      }
      assert url[|ps[0]| + 1..] == rest;
    }
  }

  /** A scheme name and a path free of ':' come back out of `url_parts`. */
  lemma UrlPartsOf(scheme: string, path: string, rest: string)
    requires ':' !in scheme && ':' !in path
    ensures UrlParts(scheme + [':'] + path) == Some((scheme, path))
    ensures UrlParts(scheme + [':'] + path + [':'] + rest) == Some((scheme, path))
  {
    SplitCons(scheme, ':', path);
    SplitNone(path, ':');
    assert scheme + [':'] + path + [':'] + rest == scheme + [':'] + (path + [':'] + rest);
    SplitCons(scheme, ':', path + [':'] + rest);
    SplitCons(path, ':', rest);
  }

  /** The cases the unit tests of `url_parts` check. */
  lemma UrlPartsNoColon()
    ensures UrlParts("foo-no-colon").None?
  {
    UrlPartsSpec("foo-no-colon");
  }

  lemma UrlPartsEmptyScheme()
    ensures UrlParts(":path") == Some(("", "path"))
  {
    UrlPartsOf("", "path", "");
    assert "" + [':'] + "path" == ":path";
  }

  lemma UrlPartsEmptyPath()
    ensures UrlParts("scheme:") == Some(("scheme", ""))
  {
    UrlPartsOf("scheme", "", "");
    assert "scheme" + [':'] + "" == "scheme:";
  }

  lemma UrlPartsBoth()
    ensures UrlParts("scheme:path") == Some(("scheme", "path"))
  {
    UrlPartsOf("scheme", "path", "");
    assert "scheme" + [':'] + "path" == "scheme:path";
  }

  /** `parse_display_path` reads back a path it could have been given. */
  lemma DisplayPathRoundTrip(vt: string, w: int, h: int)
    requires '/' !in vt && IsI32(w) && IsI32(h)
    ensures ParseDisplayPath(Join([vt, FormatInt(w), FormatInt(h)], '/')) == (vt, w, h)
  {
    var ps := [vt, FormatInt(w), FormatInt(h)];
    FormatIntFree(w, '/');
    FormatIntFree(h, '/');
    SplitJoin(ps, '/');
    ParseFormat(w);
    ParseFormat(h);
  }

  /** Without a '/' the whole path is the screen name, and the size is 0×0. */
  lemma DisplayPathDefaults(path: string)
    requires '/' !in path
    ensures ParseDisplayPath(path) == (path, 0, 0)
  {
    SplitNone(path, '/');
  }

  /**
   * What `fpath` reports can be handed back: `url_parts` finds the scheme
   * name and the window path, and `open` reads every property back from the
   * window path, as long as the flags hold no '/', the numbers are `i32`s and
   * neither the flags nor the title holds a ':'.
   */
  lemma FpathRoundTrip(p: Properties)
    requires '/' !in p.flags && ':' !in p.flags && ':' !in p.title
    requires IsI32(p.x) && IsI32(p.y) && IsI32(p.width) && IsI32(p.height)
    ensures UrlParts(PathText(p)) == Some((SCHEME_NAME, PathBody(p)))
    ensures Open(PathBody(p)) == NewWindow(p.x, p.y, p.width, p.height, p.flags, p.title)
  {
    var ps := [p.flags, FormatInt(p.x), FormatInt(p.y), FormatInt(p.width), FormatInt(p.height), p.title];
    FormatIntFree(p.x, '/'); FormatIntFree(p.y, '/'); FormatIntFree(p.width, '/'); FormatIntFree(p.height, '/');
    FormatIntFree(p.x, ':'); FormatIntFree(p.y, ':'); FormatIntFree(p.width, ':'); FormatIntFree(p.height, ':');
    JoinFree(ps, '/', ':');
    UrlPartsOf(SCHEME_NAME, PathBody(p), []);
    SplitJoinLast(ps, '/');
    var qs := Split(PathBody(p), '/');
    assert qs == ps[..5] + Split(p.title, '/');
    SplitSpec(p.title, '/');
    assert qs[5..] == Split(p.title, '/');
    ParseFormat(p.x); ParseFormat(p.y); ParseFormat(p.width); ParseFormat(p.height);
  }

  // `write`.

  /** The window requests a `write` can carry, one per handler. */
  datatype Command =
    | Async(on: bool)
    | Drag
    | SetFlags(flags: string, value: bool)
    | MouseCursor(visible: bool)
    | MouseGrab(grab: bool)
    | MouseRelative(relative: bool)
    | Position(x: Option<int>, y: Option<int>)
    | Resize(w: Option<int>, h: Option<int>)
    | Title(title: string)

  /** The letter before the first ',' that selects each request. */
  function Kind(cmd: Command): string
  {
    match cmd
    case Async(_) => "A"
    case Drag => "D"
    case SetFlags(_, _) => "F"
    case MouseCursor(_) => "M"
    case MouseGrab(_) => "M"
    case MouseRelative(_) => "M"
    case Position(_, _) => "P"
    case Resize(_, _) => "S"
    case Title(_) => "T"
  }

  /** "0" or "1" as a switch. */
  function Switch(s: string): Option<bool>
  {
    if s == "0" then Some(false) else if s == "1" then Some(true) else None
  }

  /** The mouse requests `M,C,…`, `M,G,…` and `M,R,…`. */
  function MouseCommand(data: string): Option<Command>
  {
    if data == "C,0" then Some(MouseCursor(false))
    else if data == "C,1" then Some(MouseCursor(true))
    else if data == "G,0" then Some(MouseGrab(false))
    else if data == "G,1" then Some(MouseGrab(true))
    else if data == "R,0" then Some(MouseRelative(false))
    else if data == "R,1" then Some(MouseRelative(true))
    else None
  }

  /**
   * The command grammar of `write` once the bytes are text: the kind before
   * the first ',' and the data after it. A request is answered only when its
   * kind is one of the seven and its data is what that kind demands.
   */
  function ParseCommand(msg: string): (r: Result<Command>)
    ensures r.Err? ==> r.error == EINVAL
    ensures r.Ok? ==> Kind(r.value) == SplitOnce(msg, ',').0
  {
    var (kind, data) := SplitOnce(msg, ',');
    if kind == "A" then
      match Switch(data)
      case Some(on) => Ok(Async(on))
      case None => Err(EINVAL)
    else if kind == "D" then
      if data == [] then Ok(Drag) else Err(EINVAL)
    else if kind == "F" then
      var parts := Split(data, ',');
      match Switch(Nth(parts, 1))
      case Some(v) => Ok(SetFlags(parts[0], v))
      case None => Err(EINVAL)
    else if kind == "M" then
      match MouseCommand(data)
      case Some(cmd) => Ok(cmd)
      case None => Err(EINVAL)
    else if kind == "P" then
      var parts := Split(data, ',');
      Ok(Position(ParseI32(Nth(parts, 0)), ParseI32(Nth(parts, 1))))
    else if kind == "S" then
      var parts := Split(data, ',');
      Ok(Resize(ParseI32(Nth(parts, 0)), ParseI32(Nth(parts, 1))))
    else if kind == "T" then
      Ok(Title(data))
    else Err(EINVAL)
  }

  /** `write(id, buf)` on a window handle: text that is not UTF-8 is refused outright. */
  function ParseWrite(buf: seq<Byte>): (r: Result<Command>)
    ensures Decode(buf).None? ==> r == Err(EINVAL)
    ensures Decode(buf).Some? ==> r == ParseCommand(Decode(buf).value)
  {
    match Decode(buf)
    case None => Err(EINVAL)
    case Some(msg) => ParseCommand(msg)
  }

  /** One call into the window handler. */
  datatype Call = CommandCall(cmd: Command) | FlagCall(flag: char, value: bool)

  /**
   * The handler calls a command makes, in order: `F` sets each of its flag
   * characters in turn to the same value; every other command is one call.
   */
  function Calls(cmd: Command): (r: seq<Call>)
    ensures cmd.SetFlags? ==>
      (|r| == |cmd.flags| && forall k :: 0 <= k < |r| ==> r[k] == FlagCall(cmd.flags[k], cmd.value))
    ensures !cmd.SetFlags? ==> r == [CommandCall(cmd)]
  {
    if cmd.SetFlags? then FlagsCalls(cmd.flags, cmd.value) else [CommandCall(cmd)]
  }

  function FlagsCalls(flags: string, value: bool): (r: seq<Call>)
    ensures |r| == |flags| && forall k :: 0 <= k < |r| ==> r[k] == FlagCall(flags[k], value)
  {
    if flags == [] then [] else [FlagCall(flags[0], value)] + FlagsCalls(flags[1..], value)
  }

  datatype WriteCall = ClipboardWrite(window: bv64, data: seq<Byte>) | WindowWrite(window: bv64, request: Result<Command>)

  /** `write(id, buf)`: clipboard handles get the raw bytes, window handles a parsed request. */
  function WriteCallOf(id: bv64, buf: seq<Byte>): (c: WriteCall)
    ensures Route(id).ClipboardHandle? ==> c == ClipboardWrite(Route(id).id, buf)
    ensures Route(id).WindowHandle? ==> c == WindowWrite(id, ParseWrite(buf))
  {
    match Route(id)
    case ClipboardHandle(w) => ClipboardWrite(w, buf)
    case WindowHandle(w) => WindowWrite(w, ParseWrite(buf))
  }

  /**
   * The reply to `write`: the clipboard handler's own; for a window, EINVAL
   * for a malformed request, the first failing handler call's error, or else
   * the length of the whole buffer.
   */
  function WriteReply(buf: seq<Byte>, c: WriteCall, handled: Result<nat>): (r: Result<nat>)
    ensures c.ClipboardWrite? ==> r == handled
    ensures c.WindowWrite? && c.request.Err? ==> r == Err(EINVAL)
    ensures c.WindowWrite? && c.request.Ok? && handled.Err? ==> r == Err(handled.error)
    ensures c.WindowWrite? && c.request.Ok? && handled.Ok? ==> r == Ok(|buf|)
  {
    match c
    case ClipboardWrite(_, _) => handled
    case WindowWrite(_, request) =>
      if request.Err? then Err(EINVAL)
      else if handled.Err? then Err(handled.error)
      else Ok(|buf|)
  }

  function SwitchText(on: bool): string { if on then "1" else "0" }

  function OptionalInt(v: Option<int>): string
  {
    match v
    case None => []
    case Some(n) => FormatInt(n)
  }

  /** How a client spells each request. */
  function Format(cmd: Command): string
  {
    match cmd
    case Async(on) => Join(["A", SwitchText(on)], ',')
    case Drag => "D"
    case SetFlags(flags, value) => Join(["F", flags, SwitchText(value)], ',')
    case MouseCursor(on) => Join(["M", "C", SwitchText(on)], ',')
    case MouseGrab(on) => Join(["M", "G", SwitchText(on)], ',')
    case MouseRelative(on) => Join(["M", "R", SwitchText(on)], ',')
    case Position(x, y) => Join(["P", OptionalInt(x), OptionalInt(y)], ',')
    case Resize(w, h) => Join(["S", OptionalInt(w), OptionalInt(h)], ',')
    case Title(title) => Join(["T", title], ',')
  }

  /** Requests a client can spell: flag lists without ',', numbers that are `i32`s. */
  predicate Spellable(cmd: Command)
  {
    match cmd
    case SetFlags(flags, _) => ',' !in flags
    case Position(x, y) => (x.Some? ==> IsI32(x.value)) && (y.Some? ==> IsI32(y.value))
    case Resize(w, h) => (w.Some? ==> IsI32(w.value)) && (h.Some? ==> IsI32(h.value))
    case _ => true
  }

  lemma OptionalIntRoundTrip(v: Option<int>)
    requires v.Some? ==> IsI32(v.value)
    ensures ParseI32(OptionalInt(v)) == v && ',' !in OptionalInt(v)
  {
    if v.Some? {
      ParseFormat(v.value);
      FormatIntFree(v.value, ',');
    }
  }

  /** The kind and data of a request spelled as a join. */
  lemma SplitOnceJoin(kind: string, rest: seq<string>)
    requires ',' !in kind && |rest| >= 1
    ensures SplitOnce(Join([kind] + rest, ','), ',') == (kind, Join(rest, ','))
  {
    JoinConcat([kind], rest, ',');
    SplitCons(kind, ',', Join(rest, ','));
    SplitSpec(Join(rest, ','), ',');
  }

  /** A request read back from its kind and its data. */
  lemma ParseParts(kind: string, rest: seq<string>, cmd: Command)
    requires ',' !in kind && |rest| >= 1
    requires ParseCommand(kind + [','] + Join(rest, ',')) == Ok(cmd)
    ensures ParseCommand(Join([kind] + rest, ',')) == Ok(cmd)
  {
    JoinConcat([kind], rest, ',');
  }

  lemma ParseSwitch(kind: string, on: bool)
    requires kind == "A"
    ensures ParseCommand(kind + [','] + SwitchText(on)) == Ok(Async(on))
  {
    SplitOnceJoin(kind, [SwitchText(on)]);
    JoinConcat([kind], [SwitchText(on)], ',');
  }

  lemma ParseFlags(flags: string, value: bool)
    requires ',' !in flags
    ensures ParseCommand("F" + [','] + Join([flags, SwitchText(value)], ',')) == Ok(SetFlags(flags, value))
  {
    SplitOnceJoin("F", [flags, SwitchText(value)]);
    JoinConcat(["F"], [flags, SwitchText(value)], ',');
    SplitJoin([flags, SwitchText(value)], ',');
  }

  lemma ParseMouse(which: string, on: bool, cmd: Command)
    requires which in ["C", "G", "R"]
    requires cmd == if which == "C" then MouseCursor(on) else if which == "G" then MouseGrab(on) else MouseRelative(on)
    ensures ParseCommand("M" + [','] + Join([which, SwitchText(on)], ',')) == Ok(cmd)
  {
    SplitOnceJoin("M", [which, SwitchText(on)]);
    JoinConcat(["M"], [which, SwitchText(on)], ',');
    var data := Join([which, SwitchText(on)], ',');
    assert data == which + [','] + SwitchText(on);
    assert data == [which[0], ',', if on then '1' else '0'];
  }

  lemma ParsePair(kind: string, a: Option<int>, b: Option<int>, cmd: Command)
    requires kind in ["P", "S"]
    requires (a.Some? ==> IsI32(a.value)) && (b.Some? ==> IsI32(b.value))
    requires cmd == if kind == "P" then Position(a, b) else Resize(a, b)
    ensures ParseCommand(kind + [','] + Join([OptionalInt(a), OptionalInt(b)], ',')) == Ok(cmd)
  {
    OptionalIntRoundTrip(a);
    OptionalIntRoundTrip(b);
    SplitOnceJoin(kind, [OptionalInt(a), OptionalInt(b)]);
    JoinConcat([kind], [OptionalInt(a), OptionalInt(b)], ',');
    SplitJoin([OptionalInt(a), OptionalInt(b)], ',');
  }

  lemma ParseTitle(title: string)
    ensures ParseCommand("T" + [','] + title) == Ok(Title(title))
  {
    SplitOnceJoin("T", [title]);
    JoinConcat(["T"], [title], ',');
  }

  /** Every spellable request reads back as itself. */
  lemma ParseFormatted(cmd: Command)
    requires Spellable(cmd)
    ensures ParseCommand(Format(cmd)) == Ok(cmd)
  {
    match cmd
    case Async(on) =>
      ParseSwitch("A", on);
      ParseParts("A", [SwitchText(on)], cmd);
    case Drag =>
      SplitNone("D", ',');
    case SetFlags(flags, value) =>
      ParseFlags(flags, value);
      ParseParts("F", [flags, SwitchText(value)], cmd);
    case MouseCursor(on) =>
      ParseMouse("C", on, cmd);
      ParseParts("M", ["C", SwitchText(on)], cmd);
    case MouseGrab(on) =>
      ParseMouse("G", on, cmd);
      ParseParts("M", ["G", SwitchText(on)], cmd);
    case MouseRelative(on) =>
      ParseMouse("R", on, cmd);
      ParseParts("M", ["R", SwitchText(on)], cmd);
    case Position(x, y) =>
      ParsePair("P", x, y, cmd);
      ParseParts("P", [OptionalInt(x), OptionalInt(y)], cmd);
    case Resize(w, h) =>
      ParsePair("S", w, h, cmd);
      ParseParts("S", [OptionalInt(w), OptionalInt(h)], cmd);
    case Title(title) =>
      ParseTitle(title);
      ParseParts("T", [title], cmd);
  }

  /** The same at the level of the bytes `write` receives. */
  lemma WriteFormatted(cmd: Command)
    requires Spellable(cmd)
    ensures ParseWrite(Encode(Format(cmd))) == Ok(cmd)
  {
    DecodeEncode(Format(cmd));
    ParseFormatted(cmd);
  }

  /**
   * What each kind accepts: `A` exactly "0" or "1", `D` no data, `F` a value
   * "0" or "1" after the flag list, `M` exactly one of six strings, and `P`,
   * `S` and `T` anything; any other kind, the empty one included, nothing.
   */
  lemma CommandGrammar(msg: string)
    ensures var (kind, data) := SplitOnce(msg, ',');
      (kind == "A" ==> (ParseCommand(msg).Ok? <==> data == "0" || data == "1")) &&
      (kind == "D" ==> (ParseCommand(msg).Ok? <==> data == [])) &&
      (kind == "F" ==> (ParseCommand(msg).Ok? <==> Switch(Nth(Split(data, ','), 1)).Some?)) &&
      (kind == "M" ==> (ParseCommand(msg).Ok? <==>
        data in ["C,0", "C,1", "G,0", "G,1", "R,0", "R,1"])) &&
      (kind in ["P", "S", "T"] ==> ParseCommand(msg).Ok?) &&
      (kind !in ["A", "D", "F", "M", "P", "S", "T"] ==> ParseCommand(msg) == Err(EINVAL))
  {
  }

  // `mmap_prep`.

  /** `size_of::<Color>()`. */
  const COLOR_SIZE: nat := 4

  /**
   * `mmap_prep(id, _, size, _)`: the window's pixels are handed out only when
   * the mapping is no larger than they are; `mapped` is the window's pixel
   * count as the map handler returns it, and Ok stands for their address.
   */
  function MmapPrep(size: nat, mapped: Result<nat>): (r: Result<()>)
    ensures r.Ok? <==> mapped.Ok? && size <= mapped.value * COLOR_SIZE
    ensures mapped.Err? ==> r == Err(mapped.error)
    ensures mapped.Ok? && size > mapped.value * COLOR_SIZE ==> r == Err(EINVAL)
  {
    match mapped
    case Err(e) => Err(e)
    case Ok(pixels) => if size > pixels * COLOR_SIZE then Err(EINVAL) else Ok(())
  }

  // The packets kept back until a display event.

  /** `syscall::Packet`, reduced to its handle and its reply word `a`. */
  datatype Packet = Packet(id: nat, a: int, b: int, c: int, d: int)

  /**
   * One pass over the delayed packets, as a reference definition: each packet
   * is first asked whether it must still wait, then handled; one that must
   * wait and got no reply (`a == 0`) stays, unhandled, in order; every other
   * one leaves the list and its handled form is sent. The handler's state is
   * threaded through in packet order.
   */
  function Retried<S>(todo: seq<Packet>, s: S, delay: (S, Packet) -> bool, handle: (S, Packet) -> (S, Packet))
    : (r: (seq<Packet>, seq<Packet>, S))
    decreases |todo|
  {
    if todo == [] then ([], [], s)
    else
      var n := |todo| - 1;
      var (kept, sent, s1) := Retried(todo[..n], s, delay, handle);
      var wait := delay(s1, todo[n]);
      var (s2, handled) := handle(s1, todo[n]);
      if wait && handled.a == 0 then (kept + [todo[n]], sent, s2) else (kept, sent + [handled], s2)
  }

  /** Every packet is either kept or sent, and the kept ones keep their order. */
  lemma {:induction false} RetriedSpec<S>(todo: seq<Packet>, s: S, delay: (S, Packet) -> bool, handle: (S, Packet) -> (S, Packet))
    ensures var (kept, sent, _) := Retried(todo, s, delay, handle);
      |kept| + |sent| == |todo| && IsSubseq(kept, todo)
    decreases |todo|
  {
    if todo != [] {
      var n := |todo| - 1;
      RetriedSpec(todo[..n], s, delay, handle);
      var (kept, sent, s1) := Retried(todo[..n], s, delay, handle);
      SubseqSnoc(kept, todo[..n], todo[n]);
      assert todo == todo[..n] + [todo[n]];
    }
  }

  /** A subsequence stays one when the longer sequence grows, or both grow alike. */
  lemma {:induction false} SubseqSnoc<T>(a: seq<T>, b: seq<T>, x: T)
    requires IsSubseq(a, b)
    ensures IsSubseq(a, b + [x]) && IsSubseq(a + [x], b + [x])
    decreases |b|
  {
    if b == [] {
      assert a == [];
      assert IsSubseq([x], [x]) by { SubseqRefl([x]); }
    } else if a != [] && a[0] == b[0] && IsSubseq(a[1..], b[1..]) {
      SubseqSnoc(a[1..], b[1..], x);
      assert (b + [x])[1..] == b[1..] + [x];
      assert (a + [x])[1..] == a[1..] + [x];
    } else {
      SubseqSnoc(a, b[1..], x);
      assert (b + [x])[1..] == b[1..] + [x];
      if a != [] {
        assert (a + [x])[0] == a[0];
      } else {
        SubseqEmpty(b[1..] + [x]);
        assert IsSubseq([x], b + [x]) by { SubseqOne(b, x); }
      }
    }
  }

  lemma {:induction false} SubseqEmpty<T>(b: seq<T>)
    ensures IsSubseq([], b)
    decreases |b|
  {
    if b != [] {
      SubseqEmpty(b[1..]);
    }
  }

  lemma {:induction false} SubseqOne<T>(b: seq<T>, x: T)
    ensures IsSubseq([x], b + [x])
    decreases |b|
  {
    if b == [] {
      SubseqRefl([x]);
    } else {
      SubseqOne(b[1..], x);
      assert (b + [x])[1..] == b[1..] + [x];
    }
  }

  /** The state `run` keeps between events: the packets waiting for a display event. */
  class Orbital {
    var todo: seq<Packet>

    constructor()
      ensures todo == []
    {
      todo := [];
    }

    /**
     * The retry loop of `run`, on a display event: walk the waiting packets
     * with an index, keep those that must still wait, and remove and send the
     * rest; the sent packets are returned in sending order.
     */
    method RetryTodo<S>(s0: S, delay: (S, Packet) -> bool, handle: (S, Packet) -> (S, Packet))
      returns (sent: seq<Packet>, s: S)
      modifies this
      ensures (todo, sent, s) == Retried(old(todo), s0, delay, handle)
    {
      ghost var start := todo;
      ghost var j := 0;
      var i := 0;
      sent, s := [], s0;
      while i < |todo|
        invariant 0 <= j <= |start| && i <= |todo|
        invariant todo[..i] == Retried(start[..j], s0, delay, handle).0
        invariant todo[i..] == start[j..]
        invariant sent == Retried(start[..j], s0, delay, handle).1
        invariant s == Retried(start[..j], s0, delay, handle).2
        decreases |todo| - i
      {
        var packet := todo[i];
        assert packet == start[j];
        assert start[..j + 1][..j] == start[..j];
        var wait := delay(s, packet);
        var (s1, handled) := handle(s, packet);
        s := s1;
        if wait && handled.a == 0 {
          assert todo[..i + 1] == todo[..i] + [packet];
          i := i + 1;
        } else {
          todo := todo[..i] + todo[i + 1..];
          sent := sent + [handled];
        }
        j := j + 1;
      }
      assert start[..j] == start;
      assert todo[..i] == todo;
    }
  }
}
