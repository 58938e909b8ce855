/**
 * The few Python string and number operations the backend services rely on: `str.strip()`,
 * `str.split(sep)` with a one-character separator, `str.lower()`, `str.capitalize()`,
 * `sep.join(...)`, the `in` test on strings, `int()` on a string, and the two-target
 * unpacking `a, b = map(int, s.split(":"))` together with the `ValueError` texts each raises.
 */
module PyText {
  import opened Common

  // ---------------------------------------------------------------------------
  // White space and `strip`

  /** `str.isspace` for one character: the characters `strip()` and `int()` drop. */
  predicate IsPySpace(c: char)
  {
    var n := c as int;
    (0x09 <= n <= 0x0D) || (0x1C <= n <= 0x20) || n == 0x85 || n == 0xA0 || n == 0x1680
    || (0x2000 <= n <= 0x200A) || n == 0x2028 || n == 0x2029 || n == 0x202F || n == 0x205F || n == 0x3000
  }

  predicate AllSpace(s: string)
  {
    forall i :: 0 <= i < |s| ==> IsPySpace(s[i])
  }

  function LStrip(s: string): string
  {
    if |s| > 0 && IsPySpace(s[0]) then LStrip(s[1..]) else s
  }

  function RStrip(s: string): string
  {
    if |s| > 0 && IsPySpace(s[|s| - 1]) then RStrip(s[..|s| - 1]) else s
  }

  /** `s.strip()`. */
  function Strip(s: string): string
  {
    RStrip(LStrip(s))
  }

  /** Stripping only removes white space, and leaves no white space at either end. */
  lemma {:induction false} LStripShape(s: string) returns (lead: string)
    ensures AllSpace(lead) && s == lead + LStrip(s)
    ensures LStrip(s) == [] || !IsPySpace(LStrip(s)[0])
    decreases |s|
  {
    if |s| > 0 && IsPySpace(s[0]) {
      var rest := LStripShape(s[1..]);
      lead := [s[0]] + rest;
      assert s == [s[0]] + s[1..];
    } else {
      lead := "";
    }
  }

  lemma {:induction false} RStripShape(s: string) returns (trail: string)
    ensures AllSpace(trail) && s == RStrip(s) + trail
    ensures RStrip(s) == [] || !IsPySpace(RStrip(s)[|RStrip(s)| - 1])
    ensures |RStrip(s)| > 0 && |s| > 0 ==> RStrip(s)[0] == s[0]
    decreases |s|
  {
    if |s| > 0 && IsPySpace(s[|s| - 1]) {
      var rest := RStripShape(s[..|s| - 1]);
      trail := rest + [s[|s| - 1]];
      assert s == s[..|s| - 1] + [s[|s| - 1]];
    } else {
      trail := "";
    }
  }

  lemma StripShape(s: string) returns (lead: string, trail: string)
    ensures AllSpace(lead) && AllSpace(trail) && s == lead + Strip(s) + trail
    ensures Strip(s) == [] || (!IsPySpace(Strip(s)[0]) && !IsPySpace(Strip(s)[|Strip(s)| - 1]))
  {
    lead := LStripShape(s);
    trail := RStripShape(LStrip(s));
  }

  lemma {:induction false} LStripOf(t: string)
    requires t == [] || !IsPySpace(t[0])
    ensures LStrip(t) == t
  {
  }

  lemma {:induction false} RStripOf(t: string)
    requires t == [] || !IsPySpace(t[|t| - 1])
    ensures RStrip(t) == t
  {
  }

  /** A string without white space at its ends is its own strip. */
  lemma StripOf(t: string)
    requires t == [] || (!IsPySpace(t[0]) && !IsPySpace(t[|t| - 1]))
    ensures Strip(t) == t
  {
    LStripOf(t);
    RStripOf(t);
  }

  lemma {:induction false} LStripSurrounded(lead: string, t: string)
    requires AllSpace(lead) && |t| > 0 && !IsPySpace(t[0])
    ensures LStrip(lead + t) == t
    decreases |lead|
  {
    if |lead| == 0 {
      assert lead + t == t;
    } else {
      assert (lead + t)[1..] == lead[1..] + t;
      LStripSurrounded(lead[1..], t);
    }
  }

  lemma {:induction false} RStripSurrounded(t: string, trail: string)
    requires AllSpace(trail) && |t| > 0 && !IsPySpace(t[|t| - 1])
    ensures RStrip(t + trail) == t
    decreases |trail|
  {
    if |trail| == 0 {
      assert t + trail == t;
    } else {
      var n := |trail| - 1;
      assert (t + trail)[..|t + trail| - 1] == t + trail[..n];
      RStripSurrounded(t, trail[..n]);
    }
  }

  /** Stripping removes exactly the white space around a string with non-blank ends. */
  lemma StripSurrounded(lead: string, t: string, trail: string)
    requires AllSpace(lead) && AllSpace(trail)
    requires |t| > 0 && !IsPySpace(t[0]) && !IsPySpace(t[|t| - 1])
    ensures Strip(lead + t + trail) == t
  {
    assert lead + t + trail == lead + (t + trail);
    LStripSurrounded(lead, t + trail);
    RStripSurrounded(t, trail);
  }

  // ---------------------------------------------------------------------------
  // `split` and `join`

  /** `s.split(sep)` for a one-character `sep`: the pieces between the separators, empty
    * pieces included, so there is always at least one. */
  function Split(s: string, sep: char): (r: seq<string>)
    ensures |r| >= 1
    decreases |s|
  {
    if |s| == 0 then [""]
    else
      var rest := Split(s[1..], sep);
      if s[0] == sep then [""] + rest else [[s[0]] + rest[0]] + rest[1..]
  }

  /** The inverse of `Split`: the pieces with `sep` between them. */
  function Join(parts: seq<string>, sep: char): string
    requires |parts| >= 1
  {
    if |parts| == 1 then parts[0] else parts[0] + [sep] + Join(parts[1..], sep)
  }

  /** Joining the pieces gives back the string. */
  lemma {:induction false} SplitJoin(s: string, sep: char)
    ensures Join(Split(s, sep), sep) == s
    decreases |s|
  {
    if |s| > 0 {
      SplitJoin(s[1..], sep);
      var rest := Split(s[1..], sep);
      assert s == [s[0]] + s[1..];
      if s[0] == sep {
        assert ([""] + rest)[1..] == rest;
      } else {
        var r := Split(s, sep);
        assert r[1..] == rest[1..];
        if |rest| > 1 {
          assert Join(rest, sep) == rest[0] + [sep] + Join(rest[1..], sep);
        }
      }
    }
  }

  /** No piece holds the separator, and there is one piece more than separators. */
  lemma {:induction false} SplitPieces(s: string, sep: char)
    ensures forall i :: 0 <= i < |Split(s, sep)| ==> sep !in Split(s, sep)[i]
    ensures |Split(s, sep)| == multiset(s)[sep] + 1
    decreases |s|
  {
    if |s| > 0 {
      SplitPieces(s[1..], sep);
      assert s == [s[0]] + s[1..];
      var rest := Split(s[1..], sep);
      var r := Split(s, sep);
      if s[0] == sep {
        assert r == [""] + rest;
        assert forall i :: 1 <= i < |r| ==> r[i] == rest[i - 1];
      } else {
        assert r[0] == [s[0]] + rest[0];
        assert forall i :: 1 <= i < |r| ==> r[i] == rest[i];
      }
    }
  }

  lemma {:induction false} SplitWithout(p: string, sep: char)
    requires sep !in p
    ensures Split(p, sep) == [p]
    decreases |p|
  {
    if |p| > 0 {
      SplitWithout(p[1..], sep);
      assert p == [p[0]] + p[1..];
    }
  }

  lemma {:induction false} SplitFirst(p: string, t: string, sep: char)
    requires sep !in p
    ensures Split(p + [sep] + t, sep) == [p] + Split(t, sep)
    decreases |p|
  {
    var s := p + [sep] + t;
    if |p| == 0 {
      assert s == [sep] + t && s[1..] == t;
    } else {
      assert s[0] == p[0] && s[1..] == p[1..] + [sep] + t;
      SplitFirst(p[1..], t, sep);
      assert [p[0]] + p[1..] == p;
    }
  }

  /** Splitting the join of separator-free pieces gives the pieces back. */
  lemma {:induction false} JoinSplit(parts: seq<string>, sep: char)
    requires |parts| >= 1 && forall i :: 0 <= i < |parts| ==> sep !in parts[i]
    ensures Split(Join(parts, sep), sep) == parts
    decreases |parts|
  {
    if |parts| == 1 {
      SplitWithout(parts[0], sep);
    } else {
      JoinSplit(parts[1..], sep);
      SplitFirst(parts[0], Join(parts[1..], sep), sep);
      assert [parts[0]] + parts[1..] == parts;
    }
  }

  /** Exactly two pieces: the string is `a + sep + b` with no separator in `a` or `b`. */
  lemma SplitTwo(a: string, b: string, sep: char)
    requires sep !in a && sep !in b
    ensures Split(a + [sep] + b, sep) == [a, b]
  {
    JoinSplit([a, b], sep);
    assert Join([a, b], sep) == a + [sep] + Join([b], sep);
  }

  lemma TwoPieces(s: string, sep: char)
    requires |Split(s, sep)| == 2
    ensures var parts := Split(s, sep); s == parts[0] + [sep] + parts[1] && sep !in parts[0] && sep !in parts[1]
  {
    SplitJoin(s, sep);
    SplitPieces(s, sep);
    var parts := Split(s, sep);
    assert Join(parts, sep) == parts[0] + [sep] + Join(parts[1..], sep);
  }

  /** `sep.join(parts)` for a separator string. */
  function JoinWith(parts: seq<string>, sep: string): string
  {
    if |parts| == 0 then ""
    else if |parts| == 1 then parts[0]
    else parts[0] + sep + JoinWith(parts[1..], sep)
  }

  // ---------------------------------------------------------------------------
  // Substrings and letter case

  /** `t in s` for strings. */
  predicate Contains(s: string, t: string)
  {
    exists i :: 0 <= i <= |s| && OccursAt(s, t, i)
  }

  predicate OccursAt(s: string, t: string, i: int)
  {
    0 <= i <= |s| - |t| && s[i..i + |t|] == t
  }

  function LowerChar(c: char): char
  {
    if 'A' <= c <= 'Z' then (c as int + 32) as char else c
  }

  function UpperChar(c: char): char
  {
    if 'a' <= c <= 'z' then (c as int - 32) as char else c
  }

  /** `s.lower()` on ASCII letters; every other character is kept. */
  function Lower(s: string): (r: string)
    ensures |r| == |s| && forall i :: 0 <= i < |s| ==> r[i] == LowerChar(s[i])
  {
    seq(|s|, i requires 0 <= i < |s| => LowerChar(s[i]))
  }

  /** `s.capitalize()`: the first character upper case, the rest lower case. */
  function Capitalize(s: string): (r: string)
    ensures |r| == |s|
  {
    if |s| == 0 then "" else [UpperChar(s[0])] + Lower(s[1..])
  }

  // ---------------------------------------------------------------------------
  // `int()` and unpacking

  predicate IsAsciiDigit(c: char)
  {
    '0' <= c <= '9'
  }

  predicate AllDigits(s: string)
  {
    forall i :: 0 <= i < |s| ==> IsAsciiDigit(s[i])
  }

  function DigitsValue(ds: string): nat
    requires AllDigits(ds)
  {
    if |ds| == 0 then 0 else DigitsValue(ds[..|ds| - 1]) * 10 + (ds[|ds| - 1] as int - '0' as int)
  }

  /** `int(s)`: white space around an optionally signed run of ASCII digits. */
  function PyInt(s: string): Option<int>
  {
    var t := Strip(s);
    var signed := |t| > 0 && (t[0] == '+' || t[0] == '-');
    var digits := if signed then t[1..] else t;
    if |digits| > 0 && AllDigits(digits) then
      var v: int := DigitsValue(digits);
      Some(if signed && t[0] == '-' then -v else v)
    else None
  }

  /** The `ValueError`s the unpacking can raise, in the order Python raises them. */
  datatype PyError =
    | BadLiteral(literal: string)
    | NotEnoughValues
    | TooManyValues

  function ErrorText(e: PyError): string
  {
    match e
    case BadLiteral(l) => "invalid literal for int() with base 10: '" + l + "'"
    case NotEnoughValues => "not enough values to unpack (expected 2, got 1)"
    case TooManyValues => "too many values to unpack (expected 2)"
  }

  datatype IntPair = Pair(first: int, second: int) | Raised(error: PyError)

  /** `a, b = map(int, s.split(":"))`: `int` is applied lazily, piece by piece, and a third
    * piece is converted before the count is found wrong. */
  function UnpackTwoInts(s: string): IntPair
  {
    var pieces := Split(s, ':');
    var a := PyInt(pieces[0]);
    if a.None? then Raised(BadLiteral(pieces[0]))
    else if |pieces| == 1 then Raised(NotEnoughValues)
    else
      var b := PyInt(pieces[1]);
      if b.None? then Raised(BadLiteral(pieces[1]))
      else if |pieces| == 2 then Pair(a.value, b.value)
      else if PyInt(pieces[2]).None? then Raised(BadLiteral(pieces[2]))
      else Raised(TooManyValues)
  }

  /** The unpacking succeeds exactly on two colon-free pieces that are both integers. */
  lemma UnpackIff(s: string)
    ensures UnpackTwoInts(s).Pair? <==>
      |Split(s, ':')| == 2 && PyInt(Split(s, ':')[0]).Some? && PyInt(Split(s, ':')[1]).Some?
    ensures UnpackTwoInts(s).Pair? ==>
      UnpackTwoInts(s) == Pair(PyInt(Split(s, ':')[0]).value, PyInt(Split(s, ':')[1]).value)
  {
  }

  /** An unsigned run of digits is read as its decimal value. */
  lemma PyIntDigits(t: string)
    requires |t| > 0 && AllDigits(t)
    ensures PyInt(t) == Some(DigitsValue(t))
  {
    assert IsAsciiDigit(t[0]) && IsAsciiDigit(t[|t| - 1]);
    StripOf(t);
  }
}
