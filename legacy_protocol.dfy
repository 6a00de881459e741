// The older scheme front end of orbital-core/src/lib.rs. Its `open` checks the
// path is UTF-8 and then reads the same `flags/x/y/width/height/title` fields
// as the newer one; its `write` knows only `P`, `S` and `T` and splits the
// whole message at every ','; and it reads the display size straight from the
// display's path.
module LegacyProtocol {
  import opened Helpers
  import opened Utf8
  import opened Text
  import opened Protocol

  /** `open(path)`: EINVAL unless the path is UTF-8, otherwise the window fields. */
  function LegacyOpen(path: seq<Byte>): (r: Result<NewWindow>)
    ensures Decode(path).None? ==> r == Err(EINVAL)
    ensures Decode(path).Some? ==> r == Ok(Open(Decode(path).value))
  {
    match Decode(path)
    case None => Err(EINVAL)
    case Some(text) => Ok(Open(text))
  }

  /**
   * The command grammar of the older `write`: the first ','-separated field
   * picks the request; `P` and `S` read the next two fields as optional
   * numbers and `T` takes the next field as the title.
   */
  function LegacyCommand(msg: string): (r: Result<Command>)
    ensures r.Err? ==> r.error == EINVAL
    ensures r.Ok? ==> Split(msg, ',')[0] in ["P", "S", "T"] && Kind(r.value) == Split(msg, ',')[0]
    ensures Split(msg, ',')[0] in ["P", "S", "T"] ==> r.Ok?
  {
    var parts := Split(msg, ',');
    if parts[0] == "P" then Ok(Position(ParseI32(Nth(parts, 1)), ParseI32(Nth(parts, 2))))
    else if parts[0] == "S" then Ok(Resize(ParseI32(Nth(parts, 1)), ParseI32(Nth(parts, 2))))
    else if parts[0] == "T" then Ok(Title(Nth(parts, 1)))
    else Err(EINVAL)
  }

  /** `write(id, buf)`: EINVAL unless the buffer is UTF-8. */
  function LegacyWrite(buf: seq<Byte>): (r: Result<Command>)
    ensures Decode(buf).None? ==> r == Err(EINVAL)
    ensures Decode(buf).Some? ==> r == LegacyCommand(Decode(buf).value)
  {
    match Decode(buf)
    case None => Err(EINVAL)
    case Some(msg) => LegacyCommand(msg)
  }

  /**
   * The reply to the older `write`: EINVAL for a malformed request, the
   * handler's error when it fails, or else the length of the whole buffer.
   */
  function LegacyWriteReply(buf: seq<Byte>, handled: Result<()>): (r: Result<nat>)
    ensures LegacyWrite(buf).Err? ==> r == Err(EINVAL)
    ensures LegacyWrite(buf).Ok? && handled.Err? ==> r == Err(handled.error)
    ensures LegacyWrite(buf).Ok? && handled.Ok? ==> r == Ok(|buf|)
  {
    if LegacyWrite(buf).Err? then Err(EINVAL)
    else if handled.Err? then Err(handled.error)
    else Ok(|buf|)
  }

  /** A title sent with `T` is cut at its first ','. */
  lemma LegacyTitle(title: string)
    ensures LegacyCommand(Join(["T", title], ',')) == Ok(Title(Split(title, ',')[0]))
  {
    JoinConcat(["T"], [title], ',');
    SplitCons("T", ',', title);
  }

  /** A position or size reads the same under the older grammar as it is written. */
  lemma LegacyPair(kind: string, a: Option<int>, b: Option<int>)
    requires kind == "P" || kind == "S"
    requires (a.Some? ==> IsI32(a.value)) && (b.Some? ==> IsI32(b.value))
    ensures var parts := Split(Join([kind, OptionalInt(a), OptionalInt(b)], ','), ',');
      parts[0] == kind && ParseI32(Nth(parts, 1)) == a && ParseI32(Nth(parts, 2)) == b
  {
    OptionalIntRoundTrip(a);
    OptionalIntRoundTrip(b);
    SplitJoin([kind, OptionalInt(a), OptionalInt(b)], ',');
  }

  /**
   * Where the two grammars overlap they agree: a position, a size or a title
   * without ',' reads the same under both.
   */
  lemma GrammarsAgree(cmd: Command)
    requires cmd.Position? || cmd.Resize? || (cmd.Title? && ',' !in cmd.title)
    requires Spellable(cmd)
    ensures LegacyCommand(Format(cmd)) == Ok(cmd) == ParseCommand(Format(cmd))
  {
    ParseFormatted(cmd);
    match cmd
    case Position(x, y) => LegacyPair("P", x, y);
    case Resize(w, h) => LegacyPair("S", w, h);
    case Title(title) => SplitJoin(["T", title], ',');
  }

  /**
   * The display size: the second and third '/'-separated fields of the text
   * after the first ':' of the display's path, a missing or malformed number
   * being 0.
   */
  function LegacyDisplaySize(path: string): (int, int)
  {
    var res := Nth(Split(path, ':'), 1);
    var fields := Split(res, '/');
    (ParseOr0(Nth(fields, 1)), ParseOr0(Nth(fields, 2)))
  }

  /**
   * The older reading of the display size is the newer one's: the size that
   * `parse_display_path` finds in the path `url_parts` returns, or 0×0 when
   * the display's path has no ':'.
   */
  lemma DisplaySizeAgrees(path: string)
    ensures UrlParts(path).None? ==> LegacyDisplaySize(path) == (0, 0)
    ensures UrlParts(path).Some? ==>
      var d := ParseDisplayPath(UrlParts(path).value.1);
      LegacyDisplaySize(path) == (d.1, d.2)
  {
    if UrlParts(path).None? {
      assert Nth(Split(path, ':'), 1) == [];
      assert Split([], '/') == [[]];
      assert ParseI32([]) == None;
    }
  }
}
