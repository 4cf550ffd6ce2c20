/**
 * String helpers the controllers rely on: PHP's `trim`, the `\D+` digit filter,
 * integer casts of digit strings, `str_pad` and the fixed-width digits of date
 * formatting. Strings are sequences of characters; only ASCII digits count as
 * digits, as for `\d` in a PCRE pattern without the `u` flag.
 */
module Text {
  import opened Wrappers

  predicate IsDigit(c: char) {
    '0' <= c <= '9'
  }

  predicate AllDigits(s: string) {
    forall i :: 0 <= i < |s| ==> IsDigit(s[i])
  }

  function DigitValue(c: char): (v: nat)
    requires IsDigit(c)
    ensures v < 10
  {
    c as int - '0' as int
  }

  function DigitChar(v: nat): (c: char)
    requires v < 10
    ensures IsDigit(c) && DigitValue(c) == v
  {
    ('0' as int + v) as char
  }

  function Pow10(n: nat): (p: nat)
    ensures p >= 1
  {
    if n == 0 then 1 else 10 * Pow10(n - 1)
  }

  // ---------------------------------------------------------------------------
  // trim()

  /** The characters PHP's `trim` strips by default: space, tab, LF, CR, NUL, vertical tab. */
  predicate IsTrimmable(c: char) {
    c == ' ' || c == '\t' || c == '\n' || c == '\r' || c == '\0' || c as int == 11
  }

  predicate AllTrimmable(s: string) {
    forall i :: 0 <= i < |s| ==> IsTrimmable(s[i])
  }

  lemma TrimmablePrefix(s: string, cut: nat)
    requires 0 < cut <= |s| && IsTrimmable(s[0]) && AllTrimmable(s[1..][..cut - 1])
    ensures AllTrimmable(s[..cut])
  {
    forall i | 1 <= i < cut ensures IsTrimmable(s[i]) {
      assert s[i] == s[1..][..cut - 1][i - 1];
    }
  }

  lemma TrimmableSuffix(s: string, keep: nat)
    requires keep < |s| && IsTrimmable(s[|s| - 1]) && AllTrimmable(s[..|s| - 1][keep..])
    ensures AllTrimmable(s[keep..])
  {
    forall i | keep <= i < |s| - 1 ensures IsTrimmable(s[i]) {
      assert s[i] == s[..|s| - 1][keep..][i - keep];
    }
  }

  function TrimLeft(s: string): (r: string)
    ensures |r| <= |s| && r == s[|s| - |r|..]
    ensures AllTrimmable(s[..|s| - |r|])
    ensures r == [] || !IsTrimmable(r[0])
  {
    if s != [] && IsTrimmable(s[0]) then
      var r := TrimLeft(s[1..]);
      var cut := |s| - |r|;
      assert s[1..][cut - 1..] == s[cut..];
      TrimmablePrefix(s, cut);
      r
    else s
  }

  function TrimRight(s: string): (r: string)
    ensures |r| <= |s| && r == s[..|r|]
    ensures AllTrimmable(s[|r|..])
    ensures r == [] || !IsTrimmable(r[|r| - 1])
  {
    if s != [] && IsTrimmable(s[|s| - 1]) then
      var r := TrimRight(s[..|s| - 1]);
      assert s[..|s| - 1][..|r|] == s[..|r|];
      TrimmableSuffix(s, |r|);
      r
    else s
  }

  /** PHP's `trim($s)`: `s` with its leading and trailing whitespace removed. */
  function Trim(s: string): (r: string)
    ensures |r| <= |s|
    ensures r == [] || (!IsTrimmable(r[0]) && !IsTrimmable(r[|r| - 1]))
    ensures r == [] <==> AllTrimmable(s)
  {
    var left := TrimLeft(s);
    var r := TrimRight(left);
    assert r == [] ==> AllTrimmable(s) by {
      if r == [] {
        assert left[0..] == left;
        assert left == [];
        assert s[..|s|] == s;
      }
    }
    assert r != [] ==> !IsTrimmable(r[0]) by {
      if r != [] {
        assert r[0] == left[0];
      }
    }
    r
  }

  lemma SliceOfSuffix<T>(s: seq<T>, k: nat, n: nat)
    requires k + n <= |s|
    ensures s[k..][..n] == s[k..k + n] && s[k..][n..] == s[k + n..]
  {
  }

  /** `r` sits at offset `k` of `s`, with only whitespace before and after it. */
  predicate TrimmedAt(s: string, k: nat, r: string) {
    && k + |r| <= |s|
    && r == s[k..k + |r|]
    && AllTrimmable(s[..k])
    && AllTrimmable(s[k + |r|..])
  }

  lemma TrimmedAtOfParts(s: string, left: string, r: string)
    requires |left| <= |s| && left == s[|s| - |left|..] && AllTrimmable(s[..|s| - |left|])
    requires |r| <= |left| && r == left[..|r|] && AllTrimmable(left[|r|..])
    ensures TrimmedAt(s, |s| - |left|, r)
  {
    SliceOfSuffix(s, |s| - |left|, |r|);
  }

  /**
   * What `trim` keeps: a contiguous piece of `s` with only whitespace around it
   * (and, by Trim's contract, no whitespace at either of its ends).
   */
  lemma {:induction false} TrimContent(s: string)
    ensures exists k :: TrimmedAt(s, k, Trim(s))
  {
    var left := TrimLeft(s);
    TrimmedAtOfParts(s, left, TrimRight(left));
    assert TrimmedAt(s, |s| - |left|, Trim(s));
  }

  lemma TrimLeftExample()
    ensures TrimLeft(" ab\t") == "ab\t"
  {
    var s := " ab\t";
    var t := "ab\t";
    assert !IsTrimmable(t[0]);
    assert TrimLeft(t) == t;
    assert IsTrimmable(s[0]) && s[1..] == t;
  }

  lemma TrimRightExample()
    ensures TrimRight("ab\t") == "ab"
  {
    assert "ab\t"[..2] == "ab";
    assert TrimRight("ab") == "ab";
  }

  lemma TrimExample()
    ensures Trim(" ab\t") == "ab"
  {
    TrimLeftExample();
    TrimRightExample();
  }

  /** Laravel's `required` rule on a text input: present, and not empty once trimmed. */
  predicate IsFilled(v: Option<string>) {
    v.Some? && Trim(v.value) != []
  }

  /** `required` fails exactly on a missing input or one made only of whitespace. */
  lemma FilledIffNotBlank(v: Option<string>)
    ensures IsFilled(v) <==> v.Some? && !AllTrimmable(v.value)
  {
  }

  /** Trimming twice is trimming once. */
  lemma {:induction false} TrimIdempotent(s: string)
    ensures Trim(Trim(s)) == Trim(s)
  {
    var t := Trim(s);
    assert TrimLeft(t) == t;
    assert TrimRight(t) == t;
  }

  // ---------------------------------------------------------------------------
  // preg_replace('/\D+/', '', s)

  /** `s` with every non-digit removed; the digits that remain keep their order. */
  function StripNonDigits(s: string): (r: string)
    ensures AllDigits(r) && |r| <= |s|
    ensures forall c :: IsDigit(c) ==> multiset(r)[c] == multiset(s)[c]
    ensures AllDigits(s) ==> r == s
  {
    if s == [] then []
    else
      var rest := StripNonDigits(s[1..]);
      assert s == [s[0]] + s[1..];
      assert multiset(s) == multiset{s[0]} + multiset(s[1..]);
      if IsDigit(s[0]) then
        assert multiset([s[0]] + rest) == multiset{s[0]} + multiset(rest);
        [s[0]] + rest
      else
        rest
  }

  /** Filtering digits out of a digit-only string changes nothing, so the filter is idempotent. */
  /** Stripping works character by character, so the digits keep their order. */
  lemma {:induction false} StripNonDigitsAppend(a: string, b: string)
    ensures StripNonDigits(a + b) == StripNonDigits(a) + StripNonDigits(b)
  {
    if a == [] {
      assert a + b == b;
    } else {
      assert (a + b)[0] == a[0];
      assert (a + b)[1..] == a[1..] + b;
      StripNonDigitsAppend(a[1..], b);
    }
  }

  lemma StripNonDigitsExample()
    ensures StripNonDigits("2a1") == "21"
  {
    assert StripNonDigits("1") == "1";
    assert StripNonDigits("a1") == "1";
  }

  lemma {:induction false} StripNonDigitsIdempotent(s: string)
    ensures StripNonDigits(StripNonDigits(s)) == StripNonDigits(s)
  {
  }

  // ---------------------------------------------------------------------------
  // Digit strings and integers

  /** The integer a digit string denotes: PHP's `(int)` cast of a digit string. */
  function DigitsValue(s: string): (v: nat)
    requires AllDigits(s)
    ensures v < Pow10(|s|)
  {
    if s == [] then 0 else 10 * DigitsValue(s[..|s| - 1]) + DigitValue(s[|s| - 1])
  }

  /** The decimal representation of `n`, without leading zeros: PHP's `(string)$n`. */
  function NatToString(n: nat): (s: string)
    ensures AllDigits(s) && |s| >= 1
    ensures s[0] == '0' ==> n == 0 && |s| == 1
    ensures DigitsValue(s) == n
  {
    if n < 10 then [DigitChar(n)]
    else
      var s := NatToString(n / 10) + [DigitChar(n % 10)];
      assert s[..|s| - 1] == NatToString(n / 10);
      s
  }

  /** The longest prefix of `s` made of digits. */
  function DigitPrefix(s: string): (r: string)
    ensures AllDigits(r) && |r| <= |s| && r == s[..|r|]
    ensures |r| < |s| ==> !IsDigit(s[|r|])
  {
    if s != [] && IsDigit(s[0]) then [s[0]] + DigitPrefix(s[1..]) else []
  }

  /** MySQL's `CAST(s AS UNSIGNED)`: the value of the leading digits, 0 when there are none. */
  function CastUnsigned(s: string): nat {
    DigitsValue(DigitPrefix(s))
  }

  /** The cast reads the leading digits and stops at the first other character. */
  lemma CastUnsignedExamples()
    ensures CastUnsigned("12a3") == 12
    ensures CastUnsigned("abc") == 0
  {
    assert DigitPrefix("a3") == [];
    assert "12a3"[1..] == "2a3" && "2a3"[1..] == "a3";
    assert DigitPrefix("12a3") == "12";
    assert DigitsValue("12") == 12 by {
      assert "12"[..1] == "1";
    }
  }

  /** On a digit string the cast reads the whole string. */
  lemma {:induction false} CastUnsignedOfDigits(s: string)
    requires AllDigits(s)
    ensures CastUnsigned(s) == DigitsValue(s)
  {
    var p := DigitPrefix(s);
    assert |p| == |s|;
    assert p == s;
  }

  /** PHP's `str_pad($s, $width, $pad, STR_PAD_LEFT)`. */
  function PadLeft(s: string, width: nat, pad: char): (r: string)
    ensures |r| == if |s| >= width then |s| else width
    ensures r[|r| - |s|..] == s
    ensures forall i :: 0 <= i < |r| - |s| ==> r[i] == pad
  {
    if |s| >= width then s else seq(width - |s|, _ => pad) + s
  }

  /** Leading zeros do not change the value of a digit string. */
  lemma {:induction false} LeadingZerosValue(z: string, s: string)
    requires AllDigits(s)
    requires forall i :: 0 <= i < |z| ==> z[i] == '0'
    ensures AllDigits(z + s) && DigitsValue(z + s) == DigitsValue(s)
  {
    if s == [] {
      assert z + s == z;
      ZerosValue(z);
    } else {
      var t := z + s;
      assert t[..|t| - 1] == z + s[..|s| - 1];
      LeadingZerosValue(z, s[..|s| - 1]);
    }
  }

  lemma {:induction false} ZerosValue(z: string)
    requires forall i :: 0 <= i < |z| ==> z[i] == '0'
    ensures AllDigits(z) && DigitsValue(z) == 0
  {
    if z != [] {
      ZerosValue(z[..|z| - 1]);
    }
  }

  /** Zero-padding a number and casting it back gives the number again. */
  lemma PaddedNumberRoundTrip(n: nat, width: nat)
    ensures AllDigits(PadLeft(NatToString(n), width, '0'))
    ensures CastUnsigned(PadLeft(NatToString(n), width, '0')) == n
  {
    var s := NatToString(n);
    var p := PadLeft(s, width, '0');
    var z := p[..|p| - |s|];
    assert p == z + s;
    LeadingZerosValue(z, s);
    CastUnsignedOfDigits(p);
  }

  // ---------------------------------------------------------------------------
  // Fixed-width digits, as in the `Y`, `m` and `d` date format characters

  /** The last `w` decimal digits of `n`, zero-padded to exactly `w` characters. */
  function FixedDigits(n: nat, w: nat): (s: string)
    ensures |s| == w && AllDigits(s)
  {
    if w == 0 then [] else FixedDigits(n / 10, w - 1) + [DigitChar(n % 10)]
  }

  /** Reading fixed-width digits back gives the number when it fits in the width. */
  lemma {:induction false} FixedDigitsValue(n: nat, w: nat)
    requires n < Pow10(w)
    ensures DigitsValue(FixedDigits(n, w)) == n
  {
    if w > 0 {
      var s := FixedDigits(n, w);
      assert s[..w - 1] == FixedDigits(n / 10, w - 1);
      FixedDigitsValue(n / 10, w - 1);
    }
  }

  /** The last decimal digit of `10 * q + d` is `d`, and the rest is `q`. */
  lemma LastDigit(q: nat, d: nat)
    requires d < 10
    ensures (10 * q + d) / 10 == q && (10 * q + d) % 10 == d
  {
  }

  /** Writing the value of a digit string in its own width gives the string back. */
  lemma {:induction false} FixedDigitsOfValue(t: string)
    requires AllDigits(t)
    ensures FixedDigits(DigitsValue(t), |t|) == t
  {
    if t != [] {
      var u := t[..|t| - 1];
      var c := t[|t| - 1];
      var d := DigitValue(c);
      assert DigitsValue(t) == 10 * DigitsValue(u) + d;
      LastDigit(DigitsValue(u), d);
      FixedDigitsOfValue(u);
      assert DigitChar(d) == c;
      assert FixedDigits(DigitsValue(t), |t|) == FixedDigits(DigitsValue(u), |u|) + [DigitChar(d)];
      assert t == u + [c];
    }
  }

  // ---------------------------------------------------------------------------
  // String order, as in `ORDER BY` on a text column (by character code)

  /** `a` sorts before or equal to `b`, comparing character by character. */
  predicate StringLeq(a: string, b: string) {
    if a == [] then true
    else if b == [] then false
    else if a[0] != b[0] then a[0] < b[0]
    else StringLeq(a[1..], b[1..])
  }

  lemma {:induction false} StringLeqTotal(a: string, b: string)
    ensures StringLeq(a, b) || StringLeq(b, a)
  {
    if a != [] && b != [] && a[0] == b[0] {
      StringLeqTotal(a[1..], b[1..]);
    }
  }

  lemma {:induction false} StringLeqAntisymmetric(a: string, b: string)
    requires StringLeq(a, b) && StringLeq(b, a)
    ensures a == b
  {
    if a != [] && b != [] {
      StringLeqAntisymmetric(a[1..], b[1..]);
      assert a == [a[0]] + a[1..] && b == [b[0]] + b[1..];
    }
  }

  lemma {:induction false} StringLeqTransitive(a: string, b: string, c: string)
    requires StringLeq(a, b) && StringLeq(b, c)
    ensures StringLeq(a, c)
  {
    if a != [] && b != [] && c != [] && a[0] == b[0] && b[0] == c[0] {
      StringLeqTransitive(a[1..], b[1..], c[1..]);
    }
  }
}
