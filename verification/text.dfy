/** The pieces of Python string handling the configuration resolver relies on:
    `str.strip()`, `str.lower()`, and reading a replica count as a decimal number. */
module PyText {
  import opened Wrappers

  /** Python's `str.isspace()`: exactly the characters `str.strip()` removes. */
  predicate IsSpace(c: char)
  {
    var n := c as int;
    || n == 0x20
    || 0x09 <= n <= 0x0D
    || 0x1C <= n <= 0x1F
    || n == 0x85
    || n == 0xA0
    || n == 0x1680
    || 0x2000 <= n <= 0x200A
    || n == 0x2028
    || n == 0x2029
    || n == 0x202F
    || n == 0x205F
    || n == 0x3000
  }

  predicate AllSpace(s: string)
  {
    forall i :: 0 <= i < |s| ==> IsSpace(s[i])
  }

  /** Neither end of `s` is white space. */
  predicate Trimmed(s: string)
  {
    |s| == 0 || (!IsSpace(s[0]) && !IsSpace(s[|s| - 1]))
  }

  /** `s.lstrip()`: the suffix left after dropping the leading white space. */
  function StripLeft(s: string): (r: string)
    ensures |r| <= |s| && r == s[|s| - |r|..]
    ensures |r| > 0 ==> !IsSpace(r[0])
    ensures AllSpace(s[..|s| - |r|])
    decreases |s|
  {
    if |s| > 0 && IsSpace(s[0]) then
      var r := StripLeft(s[1..]);
      var k := |s| - |r|;
      assert s[1..][k - 1..] == s[k..];
      assert s[..k] == [s[0]] + s[1..k];
      assert s[1..k] == s[1..][..k - 1];
      r
    else s
  }

  /** `s.rstrip()`: the prefix left after dropping the trailing white space. */
  function StripRight(s: string): (r: string)
    ensures |r| <= |s| && r == s[..|r|]
    ensures |r| > 0 ==> !IsSpace(r[|r| - 1])
    ensures AllSpace(s[|r|..])
    decreases |s|
  {
    if |s| > 0 && IsSpace(s[|s| - 1]) then
      var r := StripRight(s[..|s| - 1]);
      assert s[|r|..] == s[..|s| - 1][|r|..] + [s[|s| - 1]];
      r
    else s
  }

  /** `s.strip()`. */
  function Strip(s: string): (r: string)
    ensures |r| <= |s|
    ensures Trimmed(r)
  {
    StripRight(StripLeft(s))
  }

  lemma {:induction false} StripLeftPadded(p: string, t: string)
    requires AllSpace(p)
    requires |t| == 0 || !IsSpace(t[0])
    ensures StripLeft(p + t) == t
    decreases |p|
  {
    if |p| == 0 {
      assert p + t == t;
    } else {
      assert (p + t)[1..] == p[1..] + t;
      StripLeftPadded(p[1..], t);
    }
  }

  lemma {:induction false} StripRightPadded(t: string, q: string)
    requires AllSpace(q)
    requires |t| == 0 || !IsSpace(t[|t| - 1])
    ensures StripRight(t + q) == t
    decreases |q|
  {
    if |q| == 0 {
      assert t + q == t;
    } else {
      assert (t + q)[..|t + q| - 1] == t + q[..|q| - 1];
      StripRightPadded(t, q[..|q| - 1]);
    }
  }

  /** Stripping removes exactly the white space around a trimmed word, and
      nothing of the word itself. */
  lemma StripPadded(p: string, w: string, q: string)
    requires AllSpace(p) && AllSpace(q) && Trimmed(w)
    ensures Strip(p + w + q) == w
  {
    if |w| == 0 {
      assert p + w + q == p + q;
      assert AllSpace(p + q);
      assert StripLeft(p + q) == [];
    } else {
      assert p + w + q == p + (w + q);
      StripLeftPadded(p, w + q);
      StripRightPadded(w, q);
    }
  }

  /** Python's `str.lower()` on the ASCII letters; every other character is kept. */
  function LowerChar(c: char): char
  {
    if 'A' <= c <= 'Z' then (c as int - 'A' as int + 'a' as int) as char else c
  }

  /** `s.lower()`, one character at a time. */
  function Lower(s: string): (r: string)
    ensures |r| == |s|
    ensures forall i :: 0 <= i < |s| ==> r[i] == LowerChar(s[i])
    ensures forall i :: 0 <= i < |r| ==> !('A' <= r[i] <= 'Z')
    ensures forall i :: 0 <= i < |s| && !('A' <= s[i] <= 'Z') ==> r[i] == s[i]
    ensures forall i :: 0 <= i < |s| && 'A' <= s[i] <= 'Z' ==>
      r[i] as int - 'a' as int == s[i] as int - 'A' as int
  {
    seq(|s|, i requires 0 <= i < |s| => LowerChar(s[i]))
  }

  /** Lowering twice is lowering once. */
  lemma LowerIdempotent(s: string)
    ensures Lower(Lower(s)) == Lower(s)
  {
  }

  /** Lowering works character by character, so it distributes over concatenation
      and leaves white space alone. */
  lemma LowerConcat(a: string, b: string)
    ensures Lower(a + b) == Lower(a) + Lower(b)
  {
  }

  lemma LowerSpace(p: string)
    requires AllSpace(p)
    ensures Lower(p) == p
  {
  }

  predicate IsDigit(c: char)
  {
    '0' <= c <= '9'
  }

  predicate AllDigits(s: string)
  {
    forall i :: 0 <= i < |s| ==> IsDigit(s[i])
  }

  function DigitChar(d: nat): (c: char)
    requires d < 10
    ensures IsDigit(c) && c as int - '0' as int == d
  {
    ('0' as int + d) as char
  }

  /** The number a string of decimal digits denotes, most significant digit first. */
  function DecimalValue(s: string): nat
    requires AllDigits(s)
    decreases |s|
  {
    if |s| == 0 then 0
    else
      assert IsDigit(s[|s| - 1]);
      10 * DecimalValue(s[..|s| - 1]) + (s[|s| - 1] as int - '0' as int)
  }

  /** The canonical decimal spelling of `n`: Python's `str(n)`. */
  function Decimal(n: nat): (s: string)
    ensures |s| > 0 && AllDigits(s)
    ensures !IsSpace(s[0]) && !IsSpace(s[|s| - 1])
    decreases n
  {
    if n < 10 then [DigitChar(n)] else Decimal(n / 10) + [DigitChar(n % 10)]
  }

  lemma {:induction false} DecimalRoundTrip(n: nat)
    ensures DecimalValue(Decimal(n)) == n
    decreases n
  {
    if n >= 10 {
      var s := Decimal(n);
      assert s[..|s| - 1] == Decimal(n / 10);
      DecimalRoundTrip(n / 10);
    }
  }

  /** A replica count read from text: like Python's `int(text)`, white space
      around the number is ignored, but only a non-empty run of ASCII decimal
      digits is accepted (no sign, no underscores). */
  function ParseCount(text: string): Option<nat>
  {
    var t := Strip(text);
    if |t| > 0 && AllDigits(t) then Some(DecimalValue(t)) else None
  }

  /** Reading back the decimal spelling of a count, with any white space around it,
      gives the count. */
  lemma ParseCountRoundTrip(p: string, n: nat, q: string)
    requires AllSpace(p) && AllSpace(q)
    ensures ParseCount(p + Decimal(n) + q) == Some(n)
  {
    StripPadded(p, Decimal(n), q);
    DecimalRoundTrip(n);
  }
}
