/** The textual form of an RGB colour: the tally key "r,g,b" that the
    kernel builds from three channel bytes, and the "rgb(r,g,b)" string it
    returns. The key is proved injective, which is what allows the tally
    to be keyed by the triple itself instead of by its string. */
module ColorKey {

  /** One channel value of a decoded image (a Uint8ClampedArray element). */
  type Byte = b: int | 0 <= b < 256

  /** The red, green and blue channels of one pixel; alpha is not part of it. */
  datatype Rgb = Rgb(r: Byte, g: Byte, b: Byte)

  predicate IsDigit(ch: char) {
    '0' <= ch <= '9'
  }

  predicate AllDigits(s: string) {
    forall k :: 0 <= k < |s| ==> IsDigit(s[k])
  }

  function DigitChar(d: nat): (ch: char)
    requires d < 10
    ensures IsDigit(ch) && ch as int - '0' as int == d
  {
    ('0' as int + d) as char
  }

  /** The decimal spelling a number gets inside a template literal:
      no sign, no leading zeros. */
  function Decimal(n: nat): (s: string)
    ensures |s| >= 1 && AllDigits(s)
    ensures s[0] == '0' ==> n == 0
    decreases n
  {
    if n < 10 then [DigitChar(n)] else Decimal(n / 10) + [DigitChar(n % 10)]
  }

  /** Reads a string of decimal digits back as a number. */
  function DecimalValue(s: string): nat
    requires AllDigits(s)
  {
    if s == [] then 0
    else DecimalValue(s[..|s| - 1]) * 10 + (s[|s| - 1] as int - '0' as int)
  }

  lemma {:induction false} DecimalRoundTrip(n: nat)
    ensures DecimalValue(Decimal(n)) == n
    decreases n
  {
    if n >= 10 {
      var s := Decimal(n);
      assert s[..|s| - 1] == Decimal(n / 10);
      DecimalRoundTrip(n / 10);
    }
  }

  lemma DecimalInjective(m: nat, n: nat)
    ensures Decimal(m) == Decimal(n) <==> m == n
  {
    DecimalRoundTrip(m);
    DecimalRoundTrip(n);
  }

  /** The tally key `${r},${g},${b}`. */
  function Key(c: Rgb): (k: string)
    ensures |k| >= 5
  {
    Decimal(c.r) + "," + Decimal(c.g) + "," + Decimal(c.b)
  }

  /** The string the kernel returns for a colour: `rgb(${key})`. */
  function ColorString(c: Rgb): (s: string)
    ensures |s| >= 10
  {
    "rgb(" + Key(c) + ")"
  }

  /** Two strings joined by a comma split back uniquely at the first comma
      when the left part holds only digits. */
  lemma {:induction false} SplitAtComma(x: string, y: string, x': string, y': string)
    requires AllDigits(x) && AllDigits(x')
    requires x + [','] + y == x' + [','] + y'
    ensures x == x' && y == y'
  {
    var s := x + [','] + y;
    assert s[|x|] == ',' && s[|x'|] == ',';
    assert forall k :: 0 <= k < |x| ==> s[k] == x[k] && s[k] != ',';
    assert forall k :: 0 <= k < |x'| ==> s[k] == x'[k] && s[k] != ',';
    assert x == s[..|x|] == x';
    assert y == s[|x| + 1..] == y';
  }

  /** Distinct colours have distinct keys (and equal ones equal keys). */
  lemma KeyInjective(a: Rgb, b: Rgb)
    ensures Key(a) == Key(b) <==> a == b
  {
    if Key(a) == Key(b) {
      var ar, ag, ab := Decimal(a.r), Decimal(a.g), Decimal(a.b);
      var br, bg, bb := Decimal(b.r), Decimal(b.g), Decimal(b.b);
      var atail, btail := ag + [','] + ab, bg + [','] + bb;
      assert Key(a) == ar + [','] + atail;
      assert Key(b) == br + [','] + btail;
      SplitAtComma(ar, atail, br, btail);
      SplitAtComma(ag, ab, bg, bb);
      DecimalInjective(a.r, b.r);
      DecimalInjective(a.g, b.g);
      DecimalInjective(a.b, b.b);
    }
  }

  /** The returned colour string determines the colour. */
  lemma ColorStringInjective(a: Rgb, b: Rgb)
    ensures ColorString(a) == ColorString(b) <==> a == b
  {
    if ColorString(a) == ColorString(b) {
      var s, t := ColorString(a), ColorString(b);
      assert s[4..|s| - 1] == Key(a) && t[4..|t| - 1] == Key(b);
      KeyInjective(a, b);
    }
  }
}
