/** The 62-symbol alphabet of NUID tokens and the fixed-width, most-significant-digit-first
    base-62 encoding that `NATS::NUID#next` produces digit by digit. */
module Base62 {

  const BASE: nat := 62

  /** DIGITS: the symbol for digit value d is its d-th entry. */
  const Digits: string := seq(BASE, d requires 0 <= d < BASE => DigitChar(d))

  /** BASE^e. */
  function Pow62(e: nat): (r: nat)
    ensures r >= 1
  {
    if e == 0 then 1 else BASE * Pow62(e - 1)
  }

  /** The symbol for digit value d, by character arithmetic: '0'-'9', then 'A'-'Z', then 'a'-'z'. */
  function DigitChar(d: nat): char
    requires d < BASE
  {
    if d < 10 then ('0' as int + d) as char
    else if d < 36 then ('A' as int + d - 10) as char
    else ('a' as int + d - 36) as char
  }

  /** The table is the 62-symbol string of the source, written here as its three runs. */
  lemma DigitsTable()
    ensures |Digits| == BASE
    ensures forall d :: 0 <= d < BASE ==> Digits[d] == DigitChar(d)
    ensures Digits == "0123456789" + "ABCDEFGHIJKLMNOPQRSTUVWXYZ" + "abcdefghijklmnopqrstuvwxyz"
  {
    var numerals, upper, lower := "0123456789", "ABCDEFGHIJKLMNOPQRSTUVWXYZ", "abcdefghijklmnopqrstuvwxyz";
    assert forall d :: 0 <= d < 10 ==> numerals[d] == DigitChar(d);
    assert forall d :: 0 <= d < 26 ==> upper[d] == DigitChar(d + 10);
    assert forall d :: 0 <= d < 26 ==> lower[d] == DigitChar(d + 36);
    var all := numerals + upper + lower;
    assert forall d :: 0 <= d < BASE ==> all[d] == Digits[d];
  }

  /** DIGITS is listed in strictly ascending character order. */
  lemma DigitsAscending(d: nat, e: nat)
    requires d < e < BASE
    ensures |Digits| == BASE && Digits[d] < Digits[e]
  {
    DigitsTable();
  }

  /** c is one of the 62 symbols, by character ranges. */
  predicate IsDigit(c: char) {
    '0' <= c <= '9' || 'A' <= c <= 'Z' || 'a' <= c <= 'z'
  }

  /** The symbol ranges are exactly the members of DIGITS. */
  lemma IsDigitIffInDigits(c: char)
    ensures IsDigit(c) <==> c in Digits
  {
    if c in Digits {
      var d :| 0 <= d < |Digits| && Digits[d] == c;
      assert IsDigit(DigitChar(d));
    }
    if IsDigit(c) {
      var d := DigitValue(c);
      assert Digits[d] == c;
    }
  }

  /** A string of symbols in the ranges draws every character from DIGITS. */
  lemma AllDigitsInTable(s: string)
    requires AllDigits(s)
    ensures forall i :: 0 <= i < |s| ==> s[i] in Digits
  {
    forall i | 0 <= i < |s|
      ensures s[i] in Digits
    {
      IsDigitIffInDigits(s[i]);
    }
  }

  /** The value of a symbol: its position in DIGITS. */
  function DigitValue(c: char): (d: nat)
    requires IsDigit(c)
    ensures d < BASE && DigitChar(d) == c
  {
    if '0' <= c <= '9' then c as int - '0' as int
    else if 'A' <= c <= 'Z' then c as int - 'A' as int + 10
    else c as int - 'a' as int + 36
  }

  predicate AllDigits(s: string) {
    forall i :: 0 <= i < |s| ==> IsDigit(s[i])
  }

  /** The k low-order base-62 digits of n, most significant first, padded with '0'.
      Digits beyond the k-th are dropped, as `DIGITS[l % BASE]` on successive quotients does
      (DigitChar(d) is DIGITS[d], by DigitsTable). */
  function Enc(n: nat, k: nat): (r: string)
    ensures |r| == k
  {
    if k == 0 then [] else Enc(n / BASE, k - 1) + [DigitChar(n % BASE)]
  }

  /** Every symbol of an encoding is one of the 62. */
  lemma {:induction false} EncAllDigits(n: nat, k: nat)
    ensures AllDigits(Enc(n, k))
  {
    if k > 0 {
      EncAllDigits(n / BASE, k - 1);
      assert DigitValue(DigitChar(n % BASE)) == n % BASE;
    }
  }

  /** n with its k low-order digits shifted out, by k successive divisions `l /= BASE`. */
  function Shift(n: nat, k: nat): nat
  {
    if k == 0 then n else Shift(n / BASE, k - 1)
  }

  /** Horner decoding of a most-significant-first digit string. */
  function Dec(s: string): (n: nat)
    requires AllDigits(s)
    ensures n < Pow62(|s|)
  {
    if s == [] then 0
    else
      var d := DigitValue(s[|s| - 1]);
      var m := Dec(s[..|s| - 1]);
      assert m * BASE + d < Pow62(|s|) by {
        assert m + 1 <= Pow62(|s| - 1);
        assert (m + 1) * BASE <= Pow62(|s| - 1) * BASE;
      }
      m * BASE + d
  }

  /** Splitting an (a+b)-digit encoding: the high a digits encode n shifted by b,
      the low b digits are the b-digit encoding of n. */
  lemma {:induction false} EncSplit(n: nat, a: nat, b: nat)
    ensures Enc(n, a + b) == Enc(Shift(n, b), a) + Enc(n, b)
  {
    if b > 0 {
      var hi, lo, d := Enc(Shift(n, b), a), Enc(n / BASE, b - 1), [DigitChar(n % BASE)];
      EncSplit(n / BASE, a, b - 1);
      assert Enc(n / BASE, a + b - 1) == hi + lo;
      assert Enc(n, a + b) == (hi + lo) + d;
      assert Enc(n, b) == lo + d;
      assert (hi + lo) + d == hi + (lo + d);
    }
  }

  /** Round trip: decoding a k-digit encoding gives the number back. */
  lemma {:induction false} DecEnc(n: nat, k: nat)
    requires n < Pow62(k)
    ensures AllDigits(Enc(n, k)) && Dec(Enc(n, k)) == n
  {
    EncAllDigits(n, k);
    if k > 0 {
      var s := Enc(n, k);
      assert s[..k - 1] == Enc(n / BASE, k - 1);
      assert n / BASE < Pow62(k - 1);
      DecEnc(n / BASE, k - 1);
      assert DigitValue(s[k - 1]) == n % BASE;
    }
  }

  lemma DivModDigit(m: nat, d: nat)
    requires d < BASE
    ensures (m * BASE + d) / BASE == m && (m * BASE + d) % BASE == d
  {
  }

  /** Round trip the other way: every digit string is the encoding of its value. */
  lemma {:induction false} EncDec(s: string)
    requires AllDigits(s)
    ensures Enc(Dec(s), |s|) == s
  {
    if s != [] {
      var k := |s|;
      var init := s[..k - 1];
      assert AllDigits(init);
      var m, d := Dec(init), DigitValue(s[k - 1]);
      assert Dec(s) == m * BASE + d;
      EncDec(init);
      assert Enc(m * BASE + d, k) == Enc(m, k - 1) + [DigitChar(d)] by {
        DivModDigit(m, d);
      }
      assert s == init + [s[k - 1]];
    }
  }

  /** The encoding is injective on [0, 62^k). */
  lemma EncInjective(n: nat, m: nat, k: nat)
    requires n < Pow62(k) && m < Pow62(k)
    ensures Enc(n, k) == Enc(m, k) <==> n == m
  {
    DecEnc(n, k);
    DecEnc(m, k);
  }

  /** s is strictly below t in character-wise lexicographic order (Ruby's String#<=>),
      for strings of one length. */
  ghost predicate Below(s: string, t: string)
  {
    |s| == |t| && exists i :: 0 <= i < |s| && s[..i] == t[..i] && s[i] < t[i]
  }

  lemma BelowIrreflexiveAsymmetric(s: string, t: string)
    ensures !Below(s, s)
    ensures Below(s, t) ==> !Below(t, s)
  {
  }

  /** Appending equal-length tails keeps a strict order between the heads. */
  lemma BelowAppend(s: string, t: string, x: string, y: string)
    requires Below(s, t) && |x| == |y|
    ensures Below(s + x, t + y)
  {
    var i :| 0 <= i < |s| && s[..i] == t[..i] && s[i] < t[i];
    assert (s + x)[..i] == s[..i] && (t + y)[..i] == t[..i];
    assert (s + x)[i] == s[i] && (t + y)[i] == t[i];
  }

  /** Prepending a common prefix keeps a strict order. */
  lemma BelowPrepend(p: string, s: string, t: string)
    requires Below(s, t)
    ensures Below(p + s, p + t)
  {
    var i :| 0 <= i < |s| && s[..i] == t[..i] && s[i] < t[i];
    var j := |p| + i;
    assert (p + s)[..j] == p + s[..i] && (p + t)[..j] == p + t[..i];
    assert (p + s)[j] == s[i] && (p + t)[j] == t[i];
  }

  /** The encoding preserves order: larger numbers encode to lexicographically larger strings. */
  lemma {:induction false} EncMonotone(n: nat, m: nat, k: nat)
    requires n < m < Pow62(k)
    ensures Below(Enc(n, k), Enc(m, k))
  {
    var hn, hm := n / BASE, m / BASE;
    assert hm < Pow62(k - 1);
    if hn < hm {
      EncMonotone(hn, hm, k - 1);
      BelowAppend(Enc(hn, k - 1), Enc(hm, k - 1), [DigitChar(n % BASE)], [DigitChar(m % BASE)]);
    } else {
      assert hn == hm && n % BASE < m % BASE;
      var s, t := Enc(n, k), Enc(m, k);
      assert s[..k - 1] == Enc(hn, k - 1) == t[..k - 1];
      assert s[k - 1] < t[k - 1];
    }
  }

  /** Order of numbers and order of their encodings agree, in both directions. */
  lemma EncOrder(n: nat, m: nat, k: nat)
    requires n < Pow62(k) && m < Pow62(k)
    ensures Below(Enc(n, k), Enc(m, k)) <==> n < m
  {
    if n < m {
      EncMonotone(n, m, k);
    } else if m < n {
      EncMonotone(m, n, k);
      BelowIrreflexiveAsymmetric(Enc(m, k), Enc(n, k));
    } else {
      BelowIrreflexiveAsymmetric(Enc(n, k), Enc(n, k));
    }
  }
}
