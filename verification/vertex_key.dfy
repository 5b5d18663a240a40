/**
 * Vertex keys (`vertexKey` in lib/vec-math.ts): each coordinate is rendered as `toFixed(7)` does
 * and the three texts are joined with ','. Two positions are the same vertex exactly when their
 * keys are equal, and keys are compared with JavaScript's string order to orient edges.
 */
module Keys {
  import opened Common
  import opened VecMath
  import opened StringOrder

  type Key = string

  /** Digits after the decimal point in every rendered coordinate. */
  const FractionDigits: nat := 7

  /** Units of 10^-7 in one unit of length. */
  const Unit: nat := 10000000

  predicate IsDigit(c: char) {
    '0' <= c <= '9'
  }

  predicate AllDigits(s: string) {
    forall i :: 0 <= i < |s| ==> IsDigit(s[i])
  }

  function DigitChar(d: nat): (c: char)
    requires d < 10
    ensures IsDigit(c) && c as int - '0' as int == d
  {
    ('0' as int + d) as char
  }

  /** The number a string of decimal digits denotes. */
  function DigitsValue(s: string): nat
    requires AllDigits(s)
    decreases |s|
  {
    if |s| == 0 then 0
    else DigitsValue(s[..|s| - 1]) * 10 + (s[|s| - 1] as int - '0' as int)
  }

  lemma DigitsValueSnoc(s: string, c: char)
    requires AllDigits(s) && IsDigit(c)
    ensures AllDigits(s + [c])
    ensures DigitsValue(s + [c]) == DigitsValue(s) * 10 + (c as int - '0' as int)
  {
    assert (s + [c])[..|s|] == s;
  }

  /** The decimal numeral of `n`, without leading zeros ("0" for zero). */
  function Decimal(n: nat): (s: string)
    ensures |s| > 0 && AllDigits(s)
    ensures DigitsValue(s) == n
    decreases n
  {
    if n < 10 then
      assert [DigitChar(n)][..0] == [];
      [DigitChar(n)]
    else
      DigitsValueSnoc(Decimal(n / 10), DigitChar(n % 10));
      Decimal(n / 10) + [DigitChar(n % 10)]
  }

  function Pow10(k: nat): (p: nat)
    ensures p >= 1
  {
    if k == 0 then 1 else 10 * Pow10(k - 1)
  }

  /** Exactly `width` decimal digits of `n`, zero-padded on the left. */
  function Padded(n: nat, width: nat): (s: string)
    requires n < Pow10(width)
    ensures |s| == width && AllDigits(s)
    ensures DigitsValue(s) == n
    decreases width
  {
    if width == 0 then []
    else
      DigitsValueSnoc(Padded(n / 10, width - 1), DigitChar(n % 10));
      Padded(n / 10, width - 1) + [DigitChar(n % 10)]
  }

  lemma Pow10Fraction()
    ensures Pow10(FractionDigits) == Unit
  {
    assert Pow10(0) == 1;
    assert Pow10(1) == 10;
    assert Pow10(2) == 100;
    assert Pow10(3) == 1000;
    assert Pow10(4) == 10000;
    assert Pow10(5) == 100000;
    assert Pow10(6) == 1000000;
  }

  function Abs(x: real): real {
    if x < 0.0 then -x else x
  }

  /**
   * The magnitude of `x` counted in units of 10^-7, rounded as `toFixed` rounds: to the
   * nearest integer, and to the larger one on a tie.
   */
  function Magnitude(x: real): (u: nat)
    ensures u as real - 0.5 <= Abs(x) * 10000000.0 < u as real + 0.5
  {
    (Abs(x) * 10000000.0 + 0.5).Floor
  }

  /** Text of a count of 10^-7 units: the integer digits, '.', seven fraction digits. */
  function Digits(units: nat): (s: string)
    ensures |s| > 0 && IsDigit(s[0])
    ensures '|' !in s && ',' !in s
  {
    Pow10Fraction();
    var d := Decimal(units / Unit);
    var p := Padded(units % Unit, FractionDigits);
    DigitsExclude(d);
    DigitsExclude(p);
    d + "." + p
  }

  /** Text of a sign and a count of 10^-7 units: an optional '-', then the digits. */
  function Render(negative: bool, units: nat): string {
    if negative then ['-'] + Digits(units) else Digits(units)
  }

  /** Reads back the signed unit count from a rendered coordinate; text of any other shape reads as 0. */
  function DecodeFixed(s: string): int {
    if |s| > 0 && s[0] == '-' then -(DecodeUnsigned(s[1..]) as int) else DecodeUnsigned(s)
  }

  /** Reads the unit count from integer digits, one separator and seven fraction digits. */
  function DecodeUnsigned(body: string): nat {
    if |body| < 8 || !AllDigits(body[..|body| - 8]) || !AllDigits(body[|body| - 7..]) then 0
    else DigitsValue(body[..|body| - 8]) * Unit + DigitsValue(body[|body| - 7..])
  }

  lemma DecodeUnsignedOf(d: string, p: string)
    requires AllDigits(d) && AllDigits(p) && |p| == FractionDigits
    ensures DecodeUnsigned(d + "." + p) == DigitsValue(d) * Unit + DigitsValue(p)
  {
    var body := d + "." + p;
    assert body[..|body| - 8] == d;
    assert body[|body| - 7..] == p;
  }

  lemma UnitDivMod(u: nat)
    ensures (u / Unit) * Unit + u % Unit == u
  {
  }

  /** The digits of a unit count read back as that count. */
  lemma DecodeDigits(units: nat)
    ensures DecodeUnsigned(Digits(units)) == units
  {
    Pow10Fraction();
    var d := Decimal(units / Unit);
    var p := Padded(units % Unit, FractionDigits);
    DecodeUnsignedOf(d, p);
    UnitDivMod(units);
  }

  /** Rendering loses nothing: the sign and the unit count can be read back. */
  lemma DecodeRender(negative: bool, units: nat)
    ensures DecodeFixed(Render(negative, units)) == if negative then -(units as int) else units
  {
    DecodeDigits(units);
    var body := Digits(units);
    var s := Render(negative, units);
    if negative {
      assert s == "-" + body;
      assert s[1..] == body;
    } else {
      assert s == body;
    }
  }

  /**
   * `x.toFixed(7)` as the runtime produces it: the text reads back as `x` rounded to seven
   * decimals, but its sign follows `x`, even when the digits round to zero.
   */
  function FixedAsWritten(x: real): (s: string)
    ensures |s| > 0 && (s[0] == '-' <==> x < 0.0)
    ensures DecodeFixed(s) == Quantize(x)
    ensures '|' !in s && ',' !in s
  {
    DecodeRender(x < 0.0, Magnitude(x));
    RenderSign(x < 0.0, Magnitude(x));
    RenderExcludes(x < 0.0, Magnitude(x));
    Render(x < 0.0, Magnitude(x))
  }

  /** `x` rounded to a signed whole number of 10^-7 units. */
  function Quantize(x: real): (q: int)
    ensures q as real - 0.5 <= x * 10000000.0 <= q as real + 0.5
  {
    if x < 0.0 then -(Magnitude(x) as int) else Magnitude(x)
  }

  /** The rendering of `x` rounded to seven decimals: a '-' only when the rounded value is negative. */
  function Fixed(x: real): string {
    RenderSigned(Quantize(x))
  }

  /** A position rounded to seven decimals, as a triple of whole 10^-7 units. */
  datatype Quantized = Quantized(qx: int, qy: int, qz: int)

  function QuantizeVec(p: Vec3): Quantized {
    Quantized(Quantize(p.x), Quantize(p.y), Quantize(p.z))
  }

  /** The absolute value of a whole number of units. */
  function Size(q: int): nat {
    if q < 0 then -q else q
  }

  function RenderSigned(q: int): string {
    Render(q < 0, Size(q))
  }

  /** The key text of a rounded position. */
  function KeyOf(q: Quantized): Key {
    RenderSigned(q.qx) + "," + RenderSigned(q.qy) + "," + RenderSigned(q.qz)
  }

  /**
   * `vertexKey` as the source computes it, with `toFixed`'s sign behaviour: the key reads back as
   * the position rounded to seven decimals, and it never contains '|', the separator of edge keys.
   */
  function VertexKeyAsWritten(p: Vec3): (k: Key)
    ensures DecodeKey(k) == QuantizeVec(p)
    ensures '|' !in k
  {
    var (a, b, c) := (FixedAsWritten(p.x), FixedAsWritten(p.y), FixedAsWritten(p.z));
    SplitJoin3(a, b, c);
    assert '|' !in ",";
    a + "," + b + "," + c
  }

  /**
   * The corrected vertex key: the rendering of the position rounded to seven decimals, with a '-'
   * only on a non-zero rounded value. It reads back as the rounded position and contains no '|',
   * the separator of edge keys; `KeyEqualIffSameRounding` says when two keys are equal.
   */
  function VertexKey(p: Vec3): (k: Key)
    ensures k == KeyOf(QuantizeVec(p))
    ensures DecodeKey(k) == QuantizeVec(p)
    ensures '|' !in k
  {
    KeyOfCharacters(QuantizeVec(p));
    DecodeKeyOf(QuantizeVec(p));
    KeyOf(QuantizeVec(p))
  }

  lemma DigitsExclude(s: string)
    requires AllDigits(s)
    ensures '|' !in s && ',' !in s
  {
  }

  lemma RenderExcludes(negative: bool, units: nat)
    ensures '|' !in Render(negative, units) && ',' !in Render(negative, units)
  {
    if negative {
      assert forall c :: c in ['-'] + Digits(units) ==> c == '-' || c in Digits(units);
    }
  }

  /** A rendered coordinate contains neither of the separators ',' and '|'. */
  lemma RenderCharacters(q: int)
    ensures '|' !in RenderSigned(q) && ',' !in RenderSigned(q)
  {
    RenderExcludes(q < 0, Size(q));
  }

  /** A key contains no '|'. */
  lemma KeyOfCharacters(q: Quantized)
    ensures '|' !in KeyOf(q)
  {
    RenderCharacters(q.qx);
    RenderCharacters(q.qy);
    RenderCharacters(q.qz);
    var a, b, c := RenderSigned(q.qx), RenderSigned(q.qy), RenderSigned(q.qz);
    assert '|' !in ",";
    assert KeyOf(q) == a + "," + b + "," + c;
  }

  /** Position of the first `c` in `s`, or |s| when there is none. */
  function FirstIndex(s: string, c: char): (i: nat)
    ensures i <= |s|
    decreases |s|
  {
    if |s| == 0 then 0
    else if s[0] == c then 0
    else 1 + FirstIndex(s[1..], c)
  }

  lemma {:induction false} FirstIndexOfJoin(a: string, c: char, r: string)
    requires c !in a
    ensures FirstIndex(a + [c] + r, c) == |a|
    decreases |a|
  {
    if |a| > 0 {
      assert (a + [c] + r)[1..] == a[1..] + [c] + r;
      FirstIndexOfJoin(a[1..], c, r);
    }
  }

  /** The text before the first `c` and the text after it. */
  function SplitFirst(s: string, c: char): (string, string) {
    var i := FirstIndex(s, c);
    if i < |s| then (s[..i], s[i + 1..]) else (s, "")
  }

  /** Joining two texts around a separator the first does not contain can be undone. */
  lemma SplitFirstOfJoin(a: string, c: char, r: string)
    requires c !in a
    ensures SplitFirst(a + [c] + r, c) == (a, r)
  {
    FirstIndexOfJoin(a, c, r);
    var s := a + [c] + r;
    assert s[..|a|] == a;
    assert s[|a| + 1..] == r;
  }

  /** Reads a rounded position back from its key text. */
  function DecodeKey(k: Key): Quantized {
    var (x, rest) := SplitFirst(k, ',');
    var (y, z) := SplitFirst(rest, ',');
    Quantized(DecodeFixed(x), DecodeFixed(y), DecodeFixed(z))
  }

  lemma {:induction false} DecodeRenderSigned(q: int)
    ensures DecodeFixed(RenderSigned(q)) == q
  {
    DecodeRender(q < 0, Size(q));
  }

  /** Three texts joined by ',' split back into the same three when the first two contain no ','. */
  lemma SplitJoin3(a: string, b: string, c: string)
    requires ',' !in a && ',' !in b
    ensures SplitFirst(a + "," + b + "," + c, ',') == (a, b + "," + c)
    ensures SplitFirst(b + "," + c, ',') == (b, c)
  {
    assert a + "," + b + "," + c == a + [','] + (b + "," + c);
    SplitFirstOfJoin(a, ',', b + "," + c);
    SplitFirstOfJoin(b, ',', c);
  }

  /** A key can be read back to the rounded position it was made from. */
  lemma DecodeKeyOf(q: Quantized)
    ensures DecodeKey(KeyOf(q)) == q
  {
    RenderCharacters(q.qx);
    RenderCharacters(q.qy);
    SplitJoin3(RenderSigned(q.qx), RenderSigned(q.qy), RenderSigned(q.qz));
    DecodeRenderSigned(q.qx);
    DecodeRenderSigned(q.qy);
    DecodeRenderSigned(q.qz);
  }

  /**
   * Welding: two positions share a vertex key exactly when they round to the same
   * seven-decimal fixed-point triple.
   */
  lemma KeyEqualIffSameRounding(p: Vec3, q: Vec3)
    ensures VertexKey(p) == VertexKey(q) <==> QuantizeVec(p) == QuantizeVec(q)
  {
    if VertexKey(p) == VertexKey(q) {
      DecodeKeyOf(QuantizeVec(p));
      DecodeKeyOf(QuantizeVec(q));
    }
  }

  /** Rounding keeps the magnitude, and the rounded value is negative only when something is left. */
  lemma QuantizeParts(x: real)
    ensures Size(Quantize(x)) == Magnitude(x)
    ensures Quantize(x) < 0 <==> x < 0.0 && Magnitude(x) > 0
  {
  }

  /** A rendering starts with '-' exactly when it is asked to. */
  lemma RenderSign(negative: bool, units: nat)
    ensures Render(negative, units)[0] == '-' <==> negative
  {
    if !negative {
      assert Render(negative, units)[0] == Digits(units)[0];
    }
  }

  /**
   * The source's rendering agrees with the corrected one everywhere except on negative values
   * that round to zero, which it renders as "-0.0000000".
   */
  lemma FixedAsWrittenAgrees(x: real)
    ensures FixedAsWritten(x) == Fixed(x) <==> !(x < 0.0 && Magnitude(x) == 0)
  {
    QuantizeParts(x);
    if x < 0.0 && Magnitude(x) == 0 {
      RenderSign(true, 0);
      RenderSign(false, 0);
    }
  }

  /**
   * The source's keys split a signed zero: -1e-8 and 1e-8 both round to 0 at seven decimals,
   * yet `toFixed(7)` renders them as "-0.0000000" and "0.0000000", so two positions 2e-8
   * apart get different keys and become two vertices.
   */
  lemma VertexKeyAsWrittenSplitsSignedZero()
    ensures QuantizeVec(Vec3(-0.00000001, 0.0, 0.0)) == QuantizeVec(Vec3(0.00000001, 0.0, 0.0))
    ensures VertexKeyAsWritten(Vec3(-0.00000001, 0.0, 0.0)) != VertexKeyAsWritten(Vec3(0.00000001, 0.0, 0.0))
    ensures VertexKey(Vec3(-0.00000001, 0.0, 0.0)) == VertexKey(Vec3(0.00000001, 0.0, 0.0))
  {
    assert Magnitude(-0.00000001) == 0;
    assert Magnitude(0.00000001) == 0;
    RenderSign(true, 0);
    RenderSign(false, 0);
    assert VertexKeyAsWritten(Vec3(-0.00000001, 0.0, 0.0))[0] == '-';
    assert VertexKeyAsWritten(Vec3(0.00000001, 0.0, 0.0))[0] != '-';
  }

  /** `x` and `y` give the same `toFixed(7)` text: the same sign and the same rounded magnitude. */
  predicate SameFixedText(x: real, y: real) {
    (x < 0.0 <==> y < 0.0) && Magnitude(x) == Magnitude(y)
  }

  /** The runtime rendering identifies exactly the values with the same sign and rounded magnitude. */
  lemma FixedAsWrittenEqualIff(x: real, y: real)
    ensures FixedAsWritten(x) == FixedAsWritten(y) <==> SameFixedText(x, y)
  {
    QuantizeParts(x);
    QuantizeParts(y);
  }

  /**
   * The source's keys weld exactly the positions whose coordinates agree in sign and in rounded
   * magnitude; so equal keys always mean the same seven-decimal rounding, but not conversely.
   */
  lemma VertexKeyAsWrittenEqualIff(p: Vec3, q: Vec3)
    ensures VertexKeyAsWritten(p) == VertexKeyAsWritten(q) <==>
            SameFixedText(p.x, q.x) && SameFixedText(p.y, q.y) && SameFixedText(p.z, q.z)
    ensures VertexKeyAsWritten(p) == VertexKeyAsWritten(q) ==> QuantizeVec(p) == QuantizeVec(q)
  {
    FixedAsWrittenEqualIff(p.x, q.x);
    FixedAsWrittenEqualIff(p.y, q.y);
    FixedAsWrittenEqualIff(p.z, q.z);
    if VertexKeyAsWritten(p) == VertexKeyAsWritten(q) {
      SplitJoin3(FixedAsWritten(p.x), FixedAsWritten(p.y), FixedAsWritten(p.z));
      SplitJoin3(FixedAsWritten(q.x), FixedAsWritten(q.y), FixedAsWritten(q.z));
    }
  }

  /** `canonicalEdgeKey`: the two vertex keys in string order, joined by '|'. */
  function EdgeKey(a: Key, b: Key): (k: string)
    ensures (k == a + "|" + b && !LexLess(b, a)) || (k == b + "|" + a && !LexLess(a, b))
  {
    LexLessAsymmetric(a, b);
    if LexLess(a, b) then a + "|" + b else b + "|" + a
  }

  /** The edge key does not depend on which end is named first. */
  lemma EdgeKeySymmetric(a: Key, b: Key)
    ensures EdgeKey(a, b) == EdgeKey(b, a)
  {
    LexLessTrichotomy(a, b);
  }

  /** Distinct unordered pairs of vertex keys get distinct edge keys. */
  lemma EdgeKeyInjective(a: Key, b: Key, c: Key, d: Key)
    requires '|' !in a && '|' !in b && '|' !in c && '|' !in d
    requires EdgeKey(a, b) == EdgeKey(c, d)
    ensures (a == c && b == d) || (a == d && b == c)
  {
    var (lo1, hi1) := if LexLess(a, b) then (a, b) else (b, a);
    var (lo2, hi2) := if LexLess(c, d) then (c, d) else (d, c);
    assert EdgeKey(a, b) == lo1 + ['|'] + hi1;
    assert EdgeKey(c, d) == lo2 + ['|'] + hi2;
    SplitFirstOfJoin(lo1, '|', hi1);
    SplitFirstOfJoin(lo2, '|', hi2);
  }
}
