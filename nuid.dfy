/** `NATS::NUID` as the object it is: the counter, increment, prefix and memo are fields that
    `next`, `randomize_prefix!` and `reset_sequential!` update in place. Each method is proved to
    leave the object in the state, and to return the token, that the functions of NuidSpec give. */
module Nats {
  import opened Base62
  import opened NuidSpec

  class Nuid {
    var sequence: nat
    var inc: nat
    var prefix: string
    // @s_09_seq and @s_08_seq: the memoised quotients of the counter by 62^2 and 62^3
    var s09Seq: Option<nat>
    var s08Seq: Option<nat>
    // @s_07 and @s_06: the prefix and the high 7 (resp. 6) counter digits they stand for
    var s07: string
    var s06: string

    /** The fields, as a value. */
    ghost function State(): Gen
      reads this
    {
      Gen(sequence, inc, prefix, s09Seq, s08Seq, s07, s06)
    }

    ghost predicate Valid()
      reads this
    {
      State().Valid()
    }

    /** `initialize`: draw the counter and the increment, start with an empty memo, then
        `randomize_prefix!`. */
    constructor (r: Reseed)
      requires r.Valid()
      ensures State() == Initial(r) && Valid()
    {
      sequence := r.sequence;
      inc := MIN_INC + r.incDraw;
      prefix := "";
      s09Seq := None;
      s08Seq := None;
      s07 := "";
      s06 := "";
      new;
      RandomizePrefix(r.bytes);
      InitialValid(r);
    }

    /** `randomize_prefix!`: one symbol `DIGITS[b % BASE]` per random byte, appended in order. */
    method RandomizePrefix(bytes: seq<byte>)
      modifies this`prefix
      ensures prefix == PrefixOf(bytes)
    {
      DigitsTable();
      var p := "";
      var i := 0;
      while i < |bytes|
        invariant 0 <= i <= |bytes|
        invariant p == PrefixOf(bytes[..i])
      {
        assert bytes[..i + 1][..i] == bytes[..i];
        p := p + [Digits[bytes[i] as nat % BASE]];
        i := i + 1;
      }
      assert bytes[..i] == bytes;
      prefix := p;
    }

    /** `reset_sequential!`: a fresh counter and a fresh increment from the draws. */
    method ResetSequential(r: Reseed)
      modifies this`sequence, this`inc
      ensures sequence == r.sequence && inc == MIN_INC + r.incDraw
    {
      sequence := r.sequence;
      inc := MIN_INC + r.incDraw;
    }

    /** `next`: advance the counter (rolling over to a fresh prefix, counter and increment at
        MAX_SEQ, with the memo left as it is), then encode it. */
    method Next(r: Reseed) returns (token: string)
      requires Valid() && r.Valid()
      modifies this
      ensures (State(), token) == Step(old(State()), r)
      ensures Valid()
    {
      ghost var g := State();
      sequence := sequence + inc;
      if sequence >= MAX_SEQ {
        RandomizePrefix(r.bytes);
        ResetSequential(r);
      }
      assert State() == Advance(g, r);
      AdvanceBounds(g, r);
      token := Encode();
      StepKeepsValid(g, r);
    }

    /** `next` with the memo forgotten on rollover, as the comment at the rollover evidently
        intends: every token then starts with the current prefix. */
    method NextFixed(r: Reseed) returns (token: string)
      requires Valid() && State().CacheFresh() && r.Valid()
      modifies this
      ensures (State(), token) == StepFixed(old(State()), r)
      ensures Valid() && State().CacheFresh()
      ensures token == prefix + Enc(sequence, SEQ_LENGTH)
    {
      ghost var g := State();
      sequence := sequence + inc;
      if sequence >= MAX_SEQ {
        RandomizePrefix(r.bytes);
        ResetSequential(r);
        s09Seq := None;
        s08Seq := None;
      }
      assert State() == AdvanceFixed(g, r);
      AdvanceBounds(g, r);
      token := Encode();
      StepFixedToken(g, r);
    }

    /** The encoding half of `next`: the counter's ten base-62 digits from the least significant
        up, by successive `l /= BASE`, returning early through the memo when the quotient by
        62^2, then by 62^3, is the memoised one, and otherwise memoising the high digits. */
    method Encode() returns (token: string)
      requires State().Ready()
      modifies this`s09Seq, this`s08Seq, this`s07, this`s06
      ensures (State(), token) == Emit(old(State()))
    {
      ghost var g := State();
      CounterDigits(sequence);
      var l := sequence;
      var d10 := DigitChar(l % BASE);
      l := l / BASE;
      var d09 := DigitChar(l % BASE);
      l := l / BASE;
      var d08 := DigitChar(l % BASE);
      if s09Seq.Some? && l == s09Seq.value {
        return s07 + [d08, d09, d10];
      }
      s09Seq := Some(l);

      l := l / BASE;
      var d07 := DigitChar(l % BASE);
      assert [d07, d08, d09, d10] == [d07] + [d08, d09, d10];
      if s08Seq.Some? && l == s08Seq.value {
        return s06 + [d07, d08, d09, d10];
      } else {
        s08Seq := Some(l);
      }

      l := l / BASE;
      var d06 := DigitChar(l % BASE);
      l := l / BASE;
      var d05 := DigitChar(l % BASE);
      l := l / BASE;
      var d04 := DigitChar(l % BASE);
      l := l / BASE;
      var d03 := DigitChar(l % BASE);
      l := l / BASE;
      var d02 := DigitChar(l % BASE);
      l := l / BASE;
      var d01 := DigitChar(l % BASE);
      assert [d01, d02, d03, d04, d05, d06, d07] == [d01, d02, d03, d04, d05, d06] + [d07];
      assert [d01, d02, d03, d04, d05, d06, d07, d08, d09, d10]
          == [d01, d02, d03, d04, d05, d06] + ([d07] + [d08, d09, d10]);
      s06 := prefix + [d01, d02, d03, d04, d05, d06];
      s07 := prefix + [d01, d02, d03, d04, d05, d06, d07];
      token := prefix + [d01, d02, d03, d04, d05, d06, d07, d08, d09, d10];
    }
  }

  /** The symbols `DIGITS[l % BASE]` that `next` takes from n by successive divisions, grouped
      as its memo paths and its full path use them: the low 3 and 4 digits of n, the 6 and 7
      digits above them, and all 10. */
  lemma CounterDigits(n: nat)
    ensures var n1 := n / BASE; var n2 := n1 / BASE; var n3 := n2 / BASE; var n4 := n3 / BASE;
      var n5 := n4 / BASE; var n6 := n5 / BASE; var n7 := n6 / BASE; var n8 := n7 / BASE;
      var n9 := n8 / BASE;
      var low3 := [DigitChar(n2 % BASE), DigitChar(n1 % BASE), DigitChar(n % BASE)];
      var high6 := [DigitChar(n9 % BASE), DigitChar(n8 % BASE), DigitChar(n7 % BASE),
                    DigitChar(n6 % BASE), DigitChar(n5 % BASE), DigitChar(n4 % BASE)];
      Enc(n, 3) == low3 &&
      Enc(n, 4) == [DigitChar(n3 % BASE)] + low3 &&
      Enc(n4, 6) == high6 &&
      Enc(n3, 7) == high6 + [DigitChar(n3 % BASE)] &&
      Enc(n, SEQ_LENGTH) == high6 + ([DigitChar(n3 % BASE)] + low3)
  {
    LowDigits(n);
    HighDigits(n / BASE / BASE / BASE / BASE);
    EncSplit(n, 6, 4);
  }

  /** The low three and four digits of n, taken by successive divisions, and n shifted by four
      digits. */
  lemma LowDigits(n: nat)
    ensures Enc(n, 3) == [DigitChar(n / BASE / BASE % BASE), DigitChar(n / BASE % BASE), DigitChar(n % BASE)]
    ensures Enc(n, 4) == [DigitChar(n / BASE / BASE / BASE % BASE)] + Enc(n, 3)
    ensures Shift(n, 4) == n / BASE / BASE / BASE / BASE
  {
    var n1 := n / BASE;
    var n2 := n1 / BASE;
    var n3 := n2 / BASE;
    assert Enc(n3, 1) == [DigitChar(n3 % BASE)];
    assert Enc(n2, 1) == [DigitChar(n2 % BASE)];
    assert Enc(n1, 2) == [DigitChar(n2 % BASE), DigitChar(n1 % BASE)];
    assert Enc(n2, 2) == [DigitChar(n3 % BASE), DigitChar(n2 % BASE)];
    assert Enc(n1, 3) == [DigitChar(n3 % BASE), DigitChar(n2 % BASE), DigitChar(n1 % BASE)];
    assert Shift(n3, 1) == n3 / BASE;
    assert Shift(n2, 2) == n3 / BASE;
    assert Shift(n, 4) == Shift(n1, 3);
  }

  /** The six digits of m, taken by five successive divisions. */
  lemma HighDigits(m: nat)
    ensures Enc(m, 6) == [DigitChar(m / BASE / BASE / BASE / BASE / BASE % BASE),
                          DigitChar(m / BASE / BASE / BASE / BASE % BASE),
                          DigitChar(m / BASE / BASE / BASE % BASE),
                          DigitChar(m / BASE / BASE % BASE),
                          DigitChar(m / BASE % BASE),
                          DigitChar(m % BASE)]
  {
    var m1 := m / BASE;
    var m2 := m1 / BASE;
    var m3 := m2 / BASE;
    var m4 := m3 / BASE;
    var m5 := m4 / BASE;
    var c := [DigitChar(m5 % BASE), DigitChar(m4 % BASE), DigitChar(m3 % BASE),
              DigitChar(m2 % BASE), DigitChar(m1 % BASE), DigitChar(m % BASE)];
    assert Enc(m5, 1) == c[..1];
    assert Enc(m4, 2) == c[..2];
    assert Enc(m3, 3) == c[..3];
    assert Enc(m2, 4) == c[..4];
    assert Enc(m1, 5) == c[..5];
  }
}
