// `Config::from_str` of src/config.rs: a `key=value` file read line by line.
// Every `background=` line adds a background in file order; for each other key
// the last line that sets it wins; any other line is ignored.
module Configuration {
  import opened Helpers
  import opened Text

  datatype Config = Config(
    background: seq<string>,
    backgroundMode: string,
    cursor: string,
    bottomRightCorner: string,
    bottomSide: string,
    rightSide: string,
    windowClose: string,
    windowCloseUnfocused: string)

  const BACKGROUND: string := "background="
  const BACKGROUND_MODE: string := "background_mode="
  const CURSOR: string := "cursor="
  const BOTTOM_RIGHT_CORNER: string := "bottom_right_corner="
  const BOTTOM_SIDE: string := "bottom_side="
  const RIGHT_SIDE: string := "right_side="
  const WINDOW_CLOSE: string := "window_close="
  const WINDOW_CLOSE_UNFOCUSED: string := "window_close_unfocused="

  /** The lines of a text, each trimmed. */
  function Trimmed(text: string): seq<string>
  {
    MapSeq(Trim, Lines(text))
  }

  /** The values of the `background=` lines, in file order. */
  function Backgrounds(lines: seq<string>): seq<string>
  {
    if lines == [] then []
    else
      var n := |lines| - 1;
      Backgrounds(lines[..n]) + (if StartsWith(lines[n], BACKGROUND) then [lines[n][|BACKGROUND|..]] else [])
  }

  /** The value of the last line starting with `key`, or "" when none does. */
  function LastValue(lines: seq<string>, key: string): string
  {
    if lines == [] then []
    else
      var n := |lines| - 1;
      if StartsWith(lines[n], key) then lines[n][|key|..] else LastValue(lines[..n], key)
  }

  /** The configuration before any line is read. */
  const EMPTY: Config := Config([], [], [], [], [], [], [], [])

  /**
   * What one trimmed line does: a `background=` line pushes its value, a line
   * starting with another key replaces that field with the rest of the line.
   */
  function Step(c: Config, line: string): Config
  {
    Config(
      if StartsWith(line, BACKGROUND) then c.background + [line[|BACKGROUND|..]] else c.background,
      if StartsWith(line, BACKGROUND_MODE) then line[|BACKGROUND_MODE|..] else c.backgroundMode,
      if StartsWith(line, CURSOR) then line[|CURSOR|..] else c.cursor,
      if StartsWith(line, BOTTOM_RIGHT_CORNER) then line[|BOTTOM_RIGHT_CORNER|..] else c.bottomRightCorner,
      if StartsWith(line, BOTTOM_SIDE) then line[|BOTTOM_SIDE|..] else c.bottomSide,
      if StartsWith(line, RIGHT_SIDE) then line[|RIGHT_SIDE|..] else c.rightSide,
      if StartsWith(line, WINDOW_CLOSE) then line[|WINDOW_CLOSE|..] else c.windowClose,
      if StartsWith(line, WINDOW_CLOSE_UNFOCUSED) then line[|WINDOW_CLOSE_UNFOCUSED|..] else c.windowCloseUnfocused)
  }

  /** The configuration that a sequence of trimmed lines leaves, read in order. */
  function Parse(lines: seq<string>): Config
  {
    if lines == [] then EMPTY else Step(Parse(lines[..|lines| - 1]), lines[|lines| - 1])
  }

  /**
   * `Config::from_str`: start from an empty configuration and let each line,
   * trimmed, add a background or set the field whose key it starts with.
   */
  method FromStr(text: string) returns (config: Config)
    ensures config.background == Backgrounds(Trimmed(text))
    ensures config.backgroundMode == LastValue(Trimmed(text), BACKGROUND_MODE)
    ensures config.cursor == LastValue(Trimmed(text), CURSOR)
    ensures config.bottomRightCorner == LastValue(Trimmed(text), BOTTOM_RIGHT_CORNER)
    ensures config.bottomSide == LastValue(Trimmed(text), BOTTOM_SIDE)
    ensures config.rightSide == LastValue(Trimmed(text), RIGHT_SIDE)
    ensures config.windowClose == LastValue(Trimmed(text), WINDOW_CLOSE)
    ensures config.windowCloseUnfocused == LastValue(Trimmed(text), WINDOW_CLOSE_UNFOCUSED)
  {
    config := EMPTY;
    var lines := Lines(text);
    ghost var trimmed := Trimmed(text);
    for i := 0 to |lines|
      invariant config == Parse(trimmed[..i])
    {
      var line := Trim(lines[i]);
      MapSeqSnoc(Trim, lines, i);
      ParseStep(trimmed[..i], line);
      config := ApplyLine(config, line);
    }
    assert trimmed[..|lines|] == trimmed;
    ParseFields(trimmed);
  }

  /** The body of the loop of `Config::from_str`, for one trimmed line. */
  method ApplyLine(c: Config, line: string) returns (r: Config)
    ensures r == Step(c, line)
  {
    var background, backgroundMode, cursor, bottomRightCorner := c.background, c.backgroundMode, c.cursor, c.bottomRightCorner;
    var bottomSide, rightSide, windowClose, windowCloseUnfocused := c.bottomSide, c.rightSide, c.windowClose, c.windowCloseUnfocused;
    background := if StartsWith(line, BACKGROUND) then background + [line[11..]] else background;
    backgroundMode := if StartsWith(line, BACKGROUND_MODE) then line[16..] else backgroundMode;
    cursor := if StartsWith(line, CURSOR) then line[7..] else cursor;
    bottomRightCorner := if StartsWith(line, BOTTOM_RIGHT_CORNER) then line[20..] else bottomRightCorner;
    bottomSide := if StartsWith(line, BOTTOM_SIDE) then line[12..] else bottomSide;
    rightSide := if StartsWith(line, RIGHT_SIDE) then line[11..] else rightSide;
    windowClose := if StartsWith(line, WINDOW_CLOSE) then line[13..] else windowClose;
    windowCloseUnfocused := if StartsWith(line, WINDOW_CLOSE_UNFOCUSED) then line[23..] else windowCloseUnfocused;
    r := Config(background, backgroundMode, cursor, bottomRightCorner,
                bottomSide, rightSide, windowClose, windowCloseUnfocused);
  }

  /** One more line is one more step. */
  lemma ParseStep(lines: seq<string>, line: string)
    ensures Parse(lines + [line]) == Step(Parse(lines), line)
  {
    assert (lines + [line])[..|lines|] == lines;
  }

  /**
   * Field by field, the configuration lists the backgrounds in file order and
   * holds, for every other key, the value of the last line that sets it.
   */
  lemma {:induction false} ParseFields(lines: seq<string>)
    ensures Parse(lines).background == Backgrounds(lines)
    ensures Parse(lines).backgroundMode == LastValue(lines, BACKGROUND_MODE)
    ensures Parse(lines).cursor == LastValue(lines, CURSOR)
    ensures Parse(lines).bottomRightCorner == LastValue(lines, BOTTOM_RIGHT_CORNER)
    ensures Parse(lines).bottomSide == LastValue(lines, BOTTOM_SIDE)
    ensures Parse(lines).rightSide == LastValue(lines, RIGHT_SIDE)
    ensures Parse(lines).windowClose == LastValue(lines, WINDOW_CLOSE)
    ensures Parse(lines).windowCloseUnfocused == LastValue(lines, WINDOW_CLOSE_UNFOCUSED)
  {
    if lines != [] {
      var n := |lines| - 1;
      ParseFields(lines[..n]);
      assert lines == lines[..n] + [lines[n]];
      BackgroundsStep(lines[..n], lines[n]);
      LastValueStep(lines[..n], lines[n], BACKGROUND_MODE);
      LastValueStep(lines[..n], lines[n], CURSOR);
      LastValueStep(lines[..n], lines[n], BOTTOM_RIGHT_CORNER);
      LastValueStep(lines[..n], lines[n], BOTTOM_SIDE);
      LastValueStep(lines[..n], lines[n], RIGHT_SIDE);
      LastValueStep(lines[..n], lines[n], WINDOW_CLOSE);
      LastValueStep(lines[..n], lines[n], WINDOW_CLOSE_UNFOCUSED);
    }
  }

  /** One more line: a `background=` line adds its value. */
  lemma BackgroundsStep(lines: seq<string>, line: string)
    ensures Backgrounds(lines + [line]) ==
      Backgrounds(lines) + (if StartsWith(line, BACKGROUND) then [line[|BACKGROUND|..]] else [])
  {
    assert (lines + [line])[..|lines|] == lines;
  }

  /** One more line: it sets the key's value when it starts with the key. */
  lemma LastValueStep(lines: seq<string>, line: string, key: string)
    ensures LastValue(lines + [line], key) == if StartsWith(line, key) then line[|key|..] else LastValue(lines, key)
  {
    assert (lines + [line])[..|lines|] == lines;
  }

  /** Empty text has no backgrounds and leaves every other field empty. */
  lemma EmptyConfig(key: string)
    ensures Backgrounds(Trimmed([])) == [] && LastValue(Trimmed([]), key) == []
  {
    LinesSpec([]);
  }

  /** Backgrounds accumulate in file order across any split of the lines. */
  lemma {:induction false} BackgroundsConcat(a: seq<string>, b: seq<string>)
    ensures Backgrounds(a + b) == Backgrounds(a) + Backgrounds(b)
    decreases |b|
  {
    if b == [] {
      assert a + b == a;
    } else {
      var n := |b| - 1;
      assert (a + b)[..|a| + n] == a + b[..n];
      assert (a + b)[|a| + n] == b[n];
      BackgroundsConcat(a, b[..n]);
    }
  }

  /** A single line adds exactly its value when it is a `background=` line. */
  lemma BackgroundsOne(line: string)
    ensures Backgrounds([line]) == if StartsWith(line, BACKGROUND) then [line[|BACKGROUND|..]] else []
  {
    assert [line][..0] == [];
  }

  /** The last line that starts with the key gives the value, whatever came before it. */
  lemma {:induction false} LastValueWins(lines: seq<string>, key: string, i: nat)
    requires i < |lines| && StartsWith(lines[i], key)
    requires forall j :: i < j < |lines| ==> !StartsWith(lines[j], key)
    ensures LastValue(lines, key) == lines[i][|key|..]
    decreases |lines|
  {
    var n := |lines| - 1;
    if i < n {
      assert forall j :: i < j < n ==> lines[..n][j] == lines[j];
      LastValueWins(lines[..n], key, i);
    }
  }

  /** Without a line that starts with the key, the field stays empty. */
  lemma {:induction false} LastValueUnset(lines: seq<string>, key: string)
    requires forall j :: 0 <= j < |lines| ==> !StartsWith(lines[j], key)
    ensures LastValue(lines, key) == []
    decreases |lines|
  {
    if lines != [] {
      var n := |lines| - 1;
      assert forall j :: 0 <= j < n ==> lines[..n][j] == lines[j];
      LastValueUnset(lines[..n], key);
    }
  }

  /** How many of the eight keys a line starts with. */
  function KeysMatched(line: string): nat
  {
    (if StartsWith(line, BACKGROUND) then 1 else 0) +
    (if StartsWith(line, BACKGROUND_MODE) then 1 else 0) +
    (if StartsWith(line, CURSOR) then 1 else 0) +
    (if StartsWith(line, BOTTOM_RIGHT_CORNER) then 1 else 0) +
    (if StartsWith(line, BOTTOM_SIDE) then 1 else 0) +
    (if StartsWith(line, RIGHT_SIDE) then 1 else 0) +
    (if StartsWith(line, WINDOW_CLOSE) then 1 else 0) +
    (if StartsWith(line, WINDOW_CLOSE_UNFOCUSED) then 1 else 0)
  }

  /** Two prefixes that differ at some position cannot both start a line. */
  lemma Clash(p: string, q: string, line: string, k: nat)
    requires k < |p| && k < |q| && p[k] != q[k]
    ensures !(StartsWith(line, p) && StartsWith(line, q))
  {
  }

  /**
   * No line sets two fields: none of the keys is a prefix of another (the
   * '=' ends `background=` and `window_close=` before the longer keys go on).
   */
  lemma KeysExclusive(line: string)
    ensures KeysMatched(line) <= 1
  {
    Clash(BACKGROUND, BACKGROUND_MODE, line, 10);
    Clash(BACKGROUND, CURSOR, line, 0);
    Clash(BACKGROUND, BOTTOM_RIGHT_CORNER, line, 1);
    Clash(BACKGROUND, BOTTOM_SIDE, line, 1);
    Clash(BACKGROUND, RIGHT_SIDE, line, 0);
    Clash(BACKGROUND, WINDOW_CLOSE, line, 0);
    Clash(BACKGROUND, WINDOW_CLOSE_UNFOCUSED, line, 0);
    Clash(BACKGROUND_MODE, CURSOR, line, 0);
    Clash(BACKGROUND_MODE, BOTTOM_RIGHT_CORNER, line, 1);
    Clash(BACKGROUND_MODE, BOTTOM_SIDE, line, 1);
    Clash(BACKGROUND_MODE, RIGHT_SIDE, line, 0);
    Clash(BACKGROUND_MODE, WINDOW_CLOSE, line, 0);
    Clash(BACKGROUND_MODE, WINDOW_CLOSE_UNFOCUSED, line, 0);
    Clash(CURSOR, BOTTOM_RIGHT_CORNER, line, 0);
    Clash(CURSOR, BOTTOM_SIDE, line, 0);
    Clash(CURSOR, RIGHT_SIDE, line, 0);
    Clash(CURSOR, WINDOW_CLOSE, line, 0);
    Clash(CURSOR, WINDOW_CLOSE_UNFOCUSED, line, 0);
    Clash(BOTTOM_RIGHT_CORNER, BOTTOM_SIDE, line, 7);
    Clash(BOTTOM_RIGHT_CORNER, RIGHT_SIDE, line, 0);
    Clash(BOTTOM_RIGHT_CORNER, WINDOW_CLOSE, line, 0);
    Clash(BOTTOM_RIGHT_CORNER, WINDOW_CLOSE_UNFOCUSED, line, 0);
    Clash(BOTTOM_SIDE, RIGHT_SIDE, line, 0);
    Clash(BOTTOM_SIDE, WINDOW_CLOSE, line, 0);
    Clash(BOTTOM_SIDE, WINDOW_CLOSE_UNFOCUSED, line, 0);
    Clash(RIGHT_SIDE, WINDOW_CLOSE, line, 0);
    Clash(RIGHT_SIDE, WINDOW_CLOSE_UNFOCUSED, line, 0);
    Clash(WINDOW_CLOSE, WINDOW_CLOSE_UNFOCUSED, line, 12);
  }
}
