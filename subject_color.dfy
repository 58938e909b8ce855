/**
 * The colour a class card gets from its subject name: a 32-bit string hash
 * of the subject's UTF-16 code units, folded into a pastel HSL triple.
 */
module SubjectColor {

  const TwoTo31: int := 0x8000_0000
  const TwoTo32: int := 0x1_0000_0000

  /** ECMAScript ToInt32 on an integral number: wrap into [-2^31, 2^31). */
  function ToInt32(x: int): (r: int)
    ensures -TwoTo31 <= r < TwoTo31
    ensures (r - x) % TwoTo32 == 0
  {
    var m := x % TwoTo32;
    if m >= TwoTo31 then m - TwoTo32 else m
  }

  /** `h << 5`: the left operand is converted to int32 and the shifted value wrapped again. */
  function ShiftLeft5(h: int): int
  {
    ToInt32(ToInt32(h) * 32)
  }

  /** `h >> 8`: arithmetic shift of the int32 conversion, i.e. floor division by 256. */
  function ShiftRight8(h: int): (r: int)
    ensures -0x80_0000 <= r < 0x80_0000
  {
    ToInt32(h) / 256
  }

  /** JavaScript `%` with a positive divisor: the remainder takes the dividend's sign. */
  function JsRem(a: int, b: int): (r: int)
    requires b > 0
    ensures -b < r < b
    ensures a >= 0 ==> r >= 0
    ensures a < 0 ==> r <= 0
    ensures Abs(r) == Abs(a) % b
  {
    if a >= 0 then a % b else -((-a) % b)
  }

  function Abs(x: int): nat
  {
    if x < 0 then -x else x
  }

  /** The UTF-16 code units `charCodeAt` walks through: a character outside
    * the Basic Multilingual Plane is a surrogate pair. */
  function Utf16(c: char): (r: seq<int>)
    ensures 1 <= |r| <= 2
    ensures forall i :: 0 <= i < |r| ==> 0 <= r[i] < 0x1_0000
  {
    var v := c as int;
    if v < 0x1_0000 then [v]
    else [0xD800 + (v - 0x1_0000) / 0x400, 0xDC00 + (v - 0x1_0000) % 0x400]
  }

  function CodeUnits(s: string): (r: seq<int>)
    ensures |s| <= |r| <= 2 * |s|
    ensures forall i :: 0 <= i < |r| ==> 0 <= r[i] < 0x1_0000
    ensures |r| == 0 <==> |s| == 0
  {
    if |s| == 0 then [] else CodeUnits(s[..|s| - 1]) + Utf16(s[|s| - 1])
  }

  /** The value of `hash` after the loop has consumed `units`, starting from 0:
    * each step computes `unit + ((hash << 5) - hash)`. The subtraction uses the
    * unconverted hash, so the value is a JavaScript number, not an int32. */
  function Hash(units: seq<int>): int
  {
    if |units| == 0 then 0
    else
      var h := Hash(units[..|units| - 1]);
      units[|units| - 1] + (ShiftLeft5(h) - h)
  }

  datatype Color =
    | Hex(code: string)
    | Hsl(hue: int, saturation: int, lightness: int)

  /** The slate grey used for a class without a subject. */
  const DefaultColor: Color := Hex("#94a3b8")

  /** `hue`, `saturation` and `lightness` as computed from a final hash value. */
  function PastelOf(hash: int): (r: Color)
    ensures r.Hsl?
    ensures 0 <= r.hue < 360 && r.hue == Abs(hash) % 360
    ensures 65 <= r.saturation < 80
    ensures 55 <= r.lightness < 70
  {
    Hsl(Abs(JsRem(hash, 360)), 65 + Abs(hash) % 15, 55 + Abs(ShiftRight8(hash)) % 15)
  }

  /** The colour `generateColor` returns for `subject`. */
  function ColorOf(subject: string): (r: Color)
    ensures r == DefaultColor <==> subject == ""
    ensures subject != "" ==> r.Hsl? && 0 <= r.hue < 360 && 65 <= r.saturation < 80 && 55 <= r.lightness < 70
  {
    if subject == "" then DefaultColor else PastelOf(Hash(CodeUnits(subject)))
  }

  /** The loop of `generateColor`, one code unit at a time. */
  method GenerateColor(subject: string) returns (r: Color)
    ensures r == ColorOf(subject)
  {
    if subject == "" {
      return DefaultColor;
    }
    var units := CodeUnits(subject);
    var hash := 0;
    var i := 0;
    while i < |units|
      invariant 0 <= i <= |units|
      invariant hash == Hash(units[..i])
    {
      assert units[..i + 1][..i] == units[..i];
      hash := units[i] + (ShiftLeft5(hash) - hash);
      i := i + 1;
    }
    assert units[..i] == units;
    r := PastelOf(hash);
  }

  /** Each step adds at most one code unit and one int32 to the magnitude, so the hash
    * of n units stays below n * (2^31 + 2^16); below 2^53, i.e. for subjects of fewer
    * than four million code units, JavaScript computes it exactly. */
  lemma {:induction false} HashBound(units: seq<int>)
    requires forall i :: 0 <= i < |units| ==> 0 <= units[i] < 0x1_0000
    ensures Abs(Hash(units)) <= |units| * (TwoTo31 + 0x1_0000)
  {
    if |units| > 0 {
      var prefix := units[..|units| - 1];
      HashBound(prefix);
      var h := Hash(prefix);
      assert Abs(ShiftLeft5(h)) <= TwoTo31;
      assert Abs(Hash(units)) <= units[|units| - 1] + TwoTo31 + Abs(h);
    }
  }

  /** The hash of a subject name depends only on its code units: appending a unit
    * extends the computation by one step. */
  lemma HashAppend(units: seq<int>, u: int)
    ensures Hash(units + [u]) == u + (ShiftLeft5(Hash(units)) - Hash(units))
  {
    assert (units + [u])[..|units|] == units;
  }

  /** Code units are taken character by character, so concatenation carries over. */
  lemma {:induction false} CodeUnitsAppend(s: string, t: string)
    ensures CodeUnits(s + t) == CodeUnits(s) + CodeUnits(t)
    decreases |t|
  {
    if |t| == 0 {
      assert s + t == s;
    } else {
      var t' := t[..|t| - 1];
      assert (s + t)[..|s + t| - 1] == s + t';
      assert (s + t)[|s + t| - 1] == t[|t| - 1];
      CodeUnitsAppend(s, t');
    }
  }

  /** A non-BMP character becomes a surrogate pair: a high and a low surrogate. */
  lemma SurrogatePair(c: char)
    requires c as int >= 0x1_0000
    ensures |Utf16(c)| == 2
    ensures 0xD800 <= Utf16(c)[0] < 0xDC00 && 0xDC00 <= Utf16(c)[1] < 0xE000
  {
  }

  /** A one-letter subject hashes to its code unit: "A" is 65, so hue 65, saturation
    * 65 + 65 % 15 = 70 and lightness 55 + (65 >> 8) % 15 = 55. */
  lemma SingleLetter()
    ensures ColorOf("A") == Hsl(65, 70, 55)
  {
    assert CodeUnits("A") == [65];
    assert Hash([65]) == 65 by {
      assert [65][..0] == [];
    }
  }

  /** The hue does not depend on the sign of the hash: `Math.abs` is taken after `%`. */
  lemma HueIsMagnitudeRemainder(hash: int)
    ensures PastelOf(hash).hue == PastelOf(-hash).hue
  {
  }
}
