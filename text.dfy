// The few `str` operations the protocol and configuration parsers are built
// from: `split`, `splitn(2, _)`, `i32::from_str`, `i32`'s `Display`, `trim` and
// `lines`, each with the behaviour of Rust's standard library.
module Text {
  import opened Helpers

  /** `s.split(c)`: the pieces between occurrences of `c`; never empty. */
  function Split(s: string, c: char): (r: seq<string>)
    ensures |r| >= 1
  {
    if s == [] then [[]]
    else
      var rest := Split(s[1..], c);
      if s[0] == c then [[]] + rest else [[s[0]] + rest[0]] + rest[1..]
  }

  /** The pieces rejoined with `c` between neighbours. */
  function Join(ps: seq<string>, c: char): string
    requires |ps| >= 1
    decreases |ps|
  {
    if |ps| == 1 then ps[0] else ps[0] + [c] + Join(ps[1..], c)
  }

  /** `parts.next().unwrap_or("")` after `k` earlier calls. */
  function Nth(ps: seq<string>, k: nat): string
  {
    if k < |ps| then ps[k] else []
  }

  predicate NoneContain(ps: seq<string>, c: char) {
    forall k :: 0 <= k < |ps| ==> c !in ps[k]
  }

  /** No piece holds the separator. */
  lemma {:induction false} SplitFree(s: string, c: char)
    ensures NoneContain(Split(s, c), c)
  {
    if s != [] {
      SplitFree(s[1..], c);
      var rest, r := Split(s[1..], c), Split(s, c);
      forall k | 0 <= k < |r| ensures c !in r[k] {
        if s[0] == c {
          if k > 0 { assert r[k] == rest[k - 1]; }
        } else if k > 0 {
          assert r[k] == rest[k];
        } else {
          assert r[0] == [s[0]] + rest[0];
        }
      }
    }
  }

  /** Text put in front of the first piece comes first in the joined text. */
  lemma JoinHead(x: string, ps: seq<string>, c: char)
    requires |ps| >= 1
    ensures Join([x + ps[0]] + ps[1..], c) == x + Join(ps, c)
  {
    var qs := [x + ps[0]] + ps[1..];
    assert qs[0] == x + ps[0] && qs[1..] == ps[1..];
    if |ps| > 1 {
      assert x + ps[0] + [c] + Join(ps[1..], c) == x + (ps[0] + [c] + Join(ps[1..], c));
    }
  }

  /** The pieces rejoin to the input. */
  lemma {:induction false} SplitRejoins(s: string, c: char)
    ensures Join(Split(s, c), c) == s
  {
    if s != [] {
      SplitRejoins(s[1..], c);
      var rest := Split(s[1..], c);
      if s[0] == c {
        var r := [[]] + rest;
        assert r[0] == [] && r[1..] == rest;
        assert Join(r, c) == [] + [c] + s[1..];
      } else {
        JoinHead([s[0]], rest, c);
      }
      assert s == [s[0]] + s[1..];
    }
  }

  /** The text is one piece exactly when it holds no separator. */
  lemma {:induction false} SplitSingle(s: string, c: char)
    ensures |Split(s, c)| == 1 <==> c !in s
  {
    if s != [] {
      SplitSingle(s[1..], c);
      assert s == [s[0]] + s[1..];
    }
  }

  /** No piece holds the separator, and the pieces rejoin to the input. */
  lemma SplitSpec(s: string, c: char)
    ensures NoneContain(Split(s, c), c)
    ensures Join(Split(s, c), c) == s
    ensures |Split(s, c)| == 1 <==> c !in s
  {
    SplitFree(s, c);
    SplitRejoins(s, c);
    SplitSingle(s, c);
  }

  /** A separator ends the first piece. */
  lemma {:induction false} SplitCons(a: string, c: char, b: string)
    requires c !in a
    ensures Split(a + [c] + b, c) == [a] + Split(b, c)
  {
    if a == [] {
      assert a + [c] + b == [c] + b;
      assert ([c] + b)[1..] == b;
    } else {
      assert (a + [c] + b)[1..] == a[1..] + [c] + b;
      SplitCons(a[1..], c, b);
      assert [a[0]] + a[1..] == a;
    }
  }

  /** Text without the separator is a single piece. */
  lemma {:induction false} SplitNone(a: string, c: char)
    requires c !in a
    ensures Split(a, c) == [a]
  {
    if a != [] {
      SplitNone(a[1..], c);
      assert [a[0]] + a[1..] == a;
    }
  }

  /** Splitting undoes joining pieces free of the separator. */
  lemma {:induction false} SplitJoin(ps: seq<string>, c: char)
    requires |ps| >= 1 && NoneContain(ps, c)
    ensures Split(Join(ps, c), c) == ps
    decreases |ps|
  {
    if |ps| == 1 {
      SplitNone(ps[0], c);
    } else {
      assert NoneContain(ps[1..], c) by {
        forall k | 0 <= k < |ps| - 1 ensures c !in ps[1..][k] { assert ps[1..][k] == ps[k + 1]; }
      }
      SplitJoin(ps[1..], c);
      SplitCons(ps[0], c, Join(ps[1..], c));
      assert [ps[0]] + ps[1..] == ps;
    }
  }

  /** Joining a list of pieces in two parts. */
  lemma {:induction false} JoinConcat(a: seq<string>, b: seq<string>, c: char)
    requires |a| >= 1 && |b| >= 1
    ensures Join(a + b, c) == Join(a, c) + [c] + Join(b, c)
    decreases |a|
  {
    if |a| == 1 {
      assert (a + b)[1..] == b;
    } else {
      assert (a + b)[1..] == a[1..] + b;
      JoinConcat(a[1..], b, c);
    }
  }

  /** `s.splitn(2, c)` followed by two `next().unwrap_or("")` calls. */
  function SplitOnce(s: string, c: char): (string, string)
  {
    var ps := Split(s, c);
    (ps[0], if |ps| > 1 then Join(ps[1..], c) else [])
  }

  /** The head is the text before the first separator; the tail everything after it. */
  lemma SplitOnceSpec(s: string, c: char)
    ensures var (head, tail) := SplitOnce(s, c);
      c !in head &&
      (c in s ==> s == head + [c] + tail) &&
      (c !in s ==> head == s && tail == [])
  {
    SplitSpec(s, c);
    var ps := Split(s, c);
    if |ps| > 1 {
      assert ps == [ps[0]] + ps[1..];
      JoinConcat([ps[0]], ps[1..], c);
    }
  }

  /** Rust's `is_whitespace`: the Unicode White_Space characters. */
  predicate IsWhitespace(ch: char) {
    ('\t' <= ch <= '\r') || ch == ' ' || ch == '\U{85}' || ch == '\U{A0}' || ch == '\U{1680}' ||
    ('\U{2000}' <= ch <= '\U{200A}') || ch == '\U{2028}' || ch == '\U{2029}' || ch == '\U{202F}' ||
    ch == '\U{205F}' || ch == '\U{3000}'
  }

  /** `str::starts_with`: the text begins with `p`. */
  predicate StartsWith(s: string, p: string)
  {
    |p| <= |s| && s[..|p|] == p
  }

  /** `trim_start`: leading whitespace removed. */
  function TrimStart(s: string): (r: string)
    ensures |r| <= |s|
  {
    if s == [] || !IsWhitespace(s[0]) then s else TrimStart(s[1..])
  }

  /** `trim_end`: trailing whitespace removed. */
  function TrimEnd(s: string): (r: string)
    ensures |r| <= |s|
    decreases |s|
  {
    if s == [] || !IsWhitespace(s[|s| - 1]) then s else TrimEnd(s[..|s| - 1])
  }

  /** `trim`: whitespace removed from both ends. */
  function Trim(s: string): string
  {
    TrimEnd(TrimStart(s))
  }

  /** `trim_start` keeps the longest suffix that does not start with whitespace. */
  lemma {:induction false} TrimStartSpec(s: string)
    ensures var r := TrimStart(s);
      |r| <= |s| && r == s[|s| - |r|..] && (r == [] || !IsWhitespace(r[0])) &&
      forall k :: 0 <= k < |s| - |r| ==> IsWhitespace(s[k])
  {
    if s != [] && IsWhitespace(s[0]) {
      TrimStartSpec(s[1..]);
      var r := TrimStart(s);
      forall k | 0 <= k < |s| - |r| ensures IsWhitespace(s[k]) {
        if k > 0 { assert s[k] == s[1..][k - 1]; }
      }
    }
  }

  /** `trim_end` keeps the longest prefix that does not end in whitespace. */
  lemma {:induction false} TrimEndSpec(s: string)
    ensures var r := TrimEnd(s);
      |r| <= |s| && r == s[..|r|] && (r == [] || !IsWhitespace(r[|r| - 1])) &&
      forall k :: |r| <= k < |s| ==> IsWhitespace(s[k])
    decreases |s|
  {
    if s != [] && IsWhitespace(s[|s| - 1]) {
      var u := s[..|s| - 1];
      TrimEndSpec(u);
      var r := TrimEnd(s);
      assert r == TrimEnd(u);
      assert r == u[..|r|];
      forall k | |r| <= k < |s| ensures IsWhitespace(s[k]) {
        if k < |s| - 1 { assert s[k] == u[k]; }
      }
    }
  }

  /** How many leading characters `trim` drops. */
  function TrimmedLead(s: string): nat
  {
    |s| - |TrimStart(s)|
  }

  /** `trim_start` keeps a suffix. */
  lemma {:induction false} TrimStartSuffix(s: string)
    ensures TrimStart(s) == s[|s| - |TrimStart(s)|..]
  {
    if s != [] && IsWhitespace(s[0]) {
      TrimStartSuffix(s[1..]);
      assert s[1..][|s| - 1 - |TrimStart(s[1..])|..] == s[|s| - |TrimStart(s[1..])|..];
    }
  }

  /** `trim_end` keeps a prefix. */
  lemma {:induction false} TrimEndPrefix(s: string)
    ensures TrimEnd(s) == s[..|TrimEnd(s)|]
    decreases |s|
  {
    if s != [] && IsWhitespace(s[|s| - 1]) {
      var u := s[..|s| - 1];
      TrimEndPrefix(u);
      assert u[..|TrimEnd(u)|] == s[..|TrimEnd(u)|];
    }
  }

  /** `trim` keeps the slice between the whitespace it drops. */
  lemma TrimSlice(s: string)
    ensures TrimmedLead(s) + |Trim(s)| <= |s|
    ensures Trim(s) == s[TrimmedLead(s)..TrimmedLead(s) + |Trim(s)|]
  {
    var t := TrimStart(s);
    TrimStartSuffix(s);
    TrimEndPrefix(t);
    var i := |s| - |t|;
    var r := TrimEnd(t);
    assert r == t[..|r|] && t == s[i..];
    assert r == s[i..i + |r|];
  }

  /** What `trim` drops at the end is whitespace. */
  lemma TrimTrailing(s: string)
    ensures forall k :: TrimmedLead(s) + |Trim(s)| <= k < |s| ==> IsWhitespace(s[k])
  {
    var t := TrimStart(s);
    TrimStartSuffix(s);
    TrimEndSpec(t);
    WhitespaceTail(s, |s| - |t|, |TrimEnd(t)|);
  }

  /** Whitespace at the end of a suffix is whitespace at the end of the whole text. */
  lemma WhitespaceTail(s: string, i: nat, j: nat)
    requires i <= |s| && j <= |s| - i
    requires forall k :: j <= k < |s| - i ==> IsWhitespace(s[i..][k])
    ensures forall k :: i + j <= k < |s| ==> IsWhitespace(s[k])
  {
    forall k | i + j <= k < |s| ensures IsWhitespace(s[k]) {
      assert s[k] == s[i..][k - i];
    }
  }

  /** What `trim` keeps neither starts nor ends with whitespace. */
  lemma TrimEnds(s: string)
    ensures Trim(s) != [] ==> !IsWhitespace(Trim(s)[0]) && !IsWhitespace(Trim(s)[|Trim(s)| - 1])
  {
    var t := TrimStart(s);
    TrimStartSpec(s);
    TrimEndSpec(t);
    assert Trim(s) != [] ==> Trim(s)[0] == t[0];
  }

  /** `trim` keeps one slice of the text, dropping whitespace only. */
  lemma TrimSpec(s: string)
    ensures TrimmedLead(s) + |Trim(s)| <= |s|
    ensures Trim(s) == s[TrimmedLead(s)..TrimmedLead(s) + |Trim(s)|]
    ensures forall k :: 0 <= k < TrimmedLead(s) ==> IsWhitespace(s[k])
    ensures forall k :: TrimmedLead(s) + |Trim(s)| <= k < |s| ==> IsWhitespace(s[k])
    ensures Trim(s) != [] ==> !IsWhitespace(Trim(s)[0]) && !IsWhitespace(Trim(s)[|Trim(s)| - 1])
  {
    TrimStartSpec(s);
    TrimSlice(s);
    TrimTrailing(s);
    TrimEnds(s);
  }

  /** A line without its trailing carriage return, as `lines` strips it before a line feed. */
  function StripCr(line: string): string
  {
    if |line| > 0 && line[|line| - 1] == '\r' then line[..|line| - 1] else line
  }

  /**
   * `s.lines()`: the pieces between line feeds, each with one trailing
   * carriage return removed; the last piece only when it is not empty, and
   * kept as it is since no line feed follows it.
   */
  function Lines(s: string): (r: seq<string>)
  {
    var ps := Split(s, '\n');
    var n := |ps| - 1;
    MapSeq(StripCr, ps[..n]) + (if ps[n] == [] then [] else [ps[n]])
  }

  /** Every piece followed by a line feed. */
  function Unlines(ls: seq<string>): string
  {
    if ls == [] then [] else ls[0] + ['\n'] + Unlines(ls[1..])
  }

  lemma {:induction false} UnlinesJoin(ps: seq<string>)
    requires |ps| >= 1
    ensures Unlines(ps[..|ps| - 1]) + ps[|ps| - 1] == Join(ps, '\n')
    decreases |ps|
  {
    if |ps| > 1 {
      UnlinesJoin(ps[1..]);
      assert ps[..|ps| - 1][1..] == ps[1..][..|ps| - 2];
    }
  }

  lemma {:induction false} StripCrNone(ps: seq<string>)
    requires forall k :: 0 <= k < |ps| ==> '\r' !in ps[k]
    ensures MapSeq(StripCr, ps) == ps
  {
    if ps != [] {
      assert '\r' !in ps[0];
      StripCrNone(ps[1..]);
      assert ps == [ps[0]] + ps[1..];
    }
  }

  /** Removing a carriage return adds no character. */
  lemma StripCrIn(line: string, ch: char)
    ensures ch in StripCr(line) ==> ch in line
  {
    if ch in StripCr(line) && StripCr(line) != line {
      var k :| 0 <= k < |StripCr(line)| && StripCr(line)[k] == ch;
      assert line[k] == ch;
    }
  }

  /** No line holds a line feed. */
  lemma LinesFree(s: string)
    ensures NoneContain(Lines(s), '\n')
  {
    SplitFree(s, '\n');
    var ps := Split(s, '\n');
    var n := |ps| - 1;
    var m := MapSeq(StripCr, ps[..n]);
    var r := Lines(s);
    assert r == m + (if ps[n] == [] then [] else [ps[n]]);
    forall k | 0 <= k < |r| ensures '\n' !in r[k] {
      if k < n {
        assert r[k] == m[k] == StripCr(ps[k]);
        StripCrIn(ps[k], '\n');
      } else {
        assert r[k] == ps[n];
      }
    }
  }

  /** A character the text lacks is in none of its pieces. */
  lemma SplitPiecesFree(s: string, c: char, ch: char)
    requires ch !in s
    ensures NoneContain(Split(s, c), ch)
  {
    SplitRejoins(s, c);
    var ps := Split(s, c);
    forall k | 0 <= k < |ps| ensures ch !in ps[k] {
      PieceIn(ps, c, k);
    }
  }

  /** Text without carriage returns that is empty or ends in a line feed has every piece but the last, an empty one, as a line. */
  lemma LinesTerminated(s: string)
    requires '\r' !in s && (s == [] || s[|s| - 1] == '\n')
    ensures var ps := Split(s, '\n'); ps[|ps| - 1] == [] && Lines(s) == ps[..|ps| - 1]
  {
    var ps := Split(s, '\n');
    var n := |ps| - 1;
    var init := ps[..n];
    SplitPiecesFree(s, '\n', '\r');
    assert NoneContain(init, '\r') by {
      forall k | 0 <= k < n ensures '\r' !in init[k] { assert init[k] == ps[k]; }
    }
    StripCrNone(init);
    if s != [] {
      LastPieceEmpty(s);
    } else {
      assert ps == [[]];
    }
    assert MapSeq(StripCr, init) + [] == init;
  }

  /** Text without carriage returns that is empty or ends in a line feed is its lines, each followed by a line feed. */
  lemma LinesUnlines(s: string)
    requires '\r' !in s && (s == [] || s[|s| - 1] == '\n')
    ensures Unlines(Lines(s)) == s
  {
    var ps := Split(s, '\n');
    LinesTerminated(s);
    SplitRejoins(s, '\n');
    UnlinesJoin(ps);
    assert Unlines(ps[..|ps| - 1]) + ps[|ps| - 1] == Unlines(ps[..|ps| - 1]);
  }

  /**
   * No line holds a line feed, empty text has no lines, and text without
   * carriage returns that is empty or ends in a line feed is exactly its
   * lines, each followed by a line feed.
   */
  lemma LinesSpec(s: string)
    ensures NoneContain(Lines(s), '\n')
    ensures s == [] ==> Lines(s) == []
    ensures '\r' !in s && (s == [] || s[|s| - 1] == '\n') ==> Unlines(Lines(s)) == s
  {
    LinesFree(s);
    if '\r' !in s && (s == [] || s[|s| - 1] == '\n') {
      LinesUnlines(s);
    }
  }

  /** Every character of a piece occurs in the joined text. */
  lemma {:induction false} PieceIn(ps: seq<string>, c: char, k: nat)
    requires |ps| >= 1 && k < |ps|
    ensures forall ch :: ch in ps[k] ==> ch in Join(ps, c)
    decreases |ps|
  {
    if k > 0 {
      PieceIn(ps[1..], c, k - 1);
    }
  }

  /** Text ending in the separator ends in an empty piece. */
  lemma {:induction false} LastPieceEmpty(s: string)
    requires s != [] && s[|s| - 1] == '\n'
    ensures Split(s, '\n')[|Split(s, '\n')| - 1] == []
  {
    if |s| > 1 {
      LastPieceEmpty(s[1..]);
    }
  }

  // Decimal numerals.

  predicate IsDigit(ch: char) { '0' <= ch <= '9' }

  predicate AllDigits(s: string) { forall k :: 0 <= k < |s| ==> IsDigit(s[k]) }

  /** The value of a run of decimal digits. */
  function DigitsValue(s: string): nat
    requires AllDigits(s)
  {
    if s == [] then 0 else DigitsValue(s[..|s| - 1]) * 10 + (s[|s| - 1] as int - '0' as int)
  }

  const I32_MIN: int := -0x8000_0000
  const I32_MAX: int := 0x7FFF_FFFF

  predicate IsI32(n: int) { I32_MIN <= n <= I32_MAX }

  /**
   * `s.parse::<i32>()`: an optional sign followed by at least one decimal
   * digit, whose value fits in 32 bits; anything else fails.
   */
  function ParseI32(s: string): (r: Option<int>)
    ensures r.Some? ==> IsI32(r.value)
  {
    if s == [] then None
    else
      var neg := s[0] == '-';
      var digits := if s[0] == '-' || s[0] == '+' then s[1..] else s;
      if digits == [] || !AllDigits(digits) then None
      else
        var mag: int := DigitsValue(digits);
        var v := if neg then -mag else mag;
        if IsI32(v) then Some(v) else None
  }

  /** `parse::<i32>().unwrap_or(0)`. */
  function ParseOr0(s: string): int
  {
    match ParseI32(s)
    case Some(v) => v
    case None => 0
  }

  function DigitChar(d: int): (ch: char)
    requires 0 <= d < 10
    ensures IsDigit(ch) && ch as int - '0' as int == d
  {
    ('0' as int + d) as char
  }

  /** The shortest decimal numeral of `n`. */
  function FormatNat(n: nat): (r: string)
    ensures |r| >= 1 && AllDigits(r)
  {
    if n < 10 then [DigitChar(n)] else FormatNat(n / 10) + [DigitChar(n % 10)]
  }

  /** An `i32` formatted with `{}`: a minus sign for negatives, then the digits. */
  function FormatInt(n: int): (r: string)
  {
    if n < 0 then ['-'] + FormatNat(-n) else FormatNat(n)
  }

  lemma {:induction false} FormatNatValue(n: nat)
    ensures DigitsValue(FormatNat(n)) == n
  {
    if n >= 10 {
      var f := FormatNat(n);
      assert f[..|f| - 1] == FormatNat(n / 10);
      FormatNatValue(n / 10);
    }
  }

  /** The characters a formatted number is made of. */
  lemma FormatIntChars(n: int)
    ensures forall k :: 0 <= k < |FormatInt(n)| ==> IsDigit(FormatInt(n)[k]) || FormatInt(n)[k] == '-'
    ensures |FormatInt(n)| >= 1
  {
  }

  /** Parsing a formatted `i32` gives it back. */
  lemma ParseFormat(n: int)
    requires IsI32(n)
    ensures ParseI32(FormatInt(n)) == Some(n)
  {
    var f := FormatInt(n);
    if n < 0 {
      FormatNatValue(-n);
      assert f[1..] == FormatNat(-n);
    } else {
      FormatNatValue(n);
    }
  }

  /** A formatted number holds no separator used by the protocol. */
  lemma FormatIntFree(n: int, c: char)
    requires c != '-' && !IsDigit(c)
    ensures c !in FormatInt(n)
  {
    FormatIntChars(n);
  }
}
