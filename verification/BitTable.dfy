/**
 The word table of the bitmap: 64 bits to a word, bit `b` of the table being bit `b % 64` of word `b / 64`.
 Shift amounts are at most 64, so seven bits hold them.
 */
module BitTable {

  predicate Bit(w: bv64, s: bv7)
  {
    s < 64 && (w >> s) & 1 == 1
  }

  /** The word `set` stores: bit `s` replaced by `v`. */
  function WithBit(entry: bv64, s: bv7, v: bv64): bv64
    requires s < 64
  {
    (v << s) | (entry & !((1 as bv64) << s))
  }

  lemma BitStored(entry: bv64, s: bv7, v: bv64)
    requires s < 64 && v <= 1
    ensures Bit(WithBit(entry, s, v), s) == (v == 1)
  {
  }

  lemma BitKept(entry: bv64, s: bv7, t: bv7, v: bv64)
    requires s < 64 && t < 64 && s != t && v <= 1
    ensures Bit(WithBit(entry, s, v), t) == Bit(entry, t)
  {
    BitKeptInWord(entry, s, t, v);
  }

  lemma BitKeptInWord(entry: bv64, s: bv7, t: bv7, v: bv64)
    requires s < 64 && t < 64 && s != t && v <= 1
    ensures Bit((v << s) | (entry & !((1 as bv64) << s)), t) == Bit(entry, t)
  {
  }

  lemma BitOfZero(s: bv7)
    ensures !Bit(0, s)
  {
  }

  lemma BitOfXor(v: bv64, w: bv64, s: bv7)
    requires s < 64
    ensures Bit(v ^ w, s) == (Bit(v, s) != Bit(w, s))
  {
  }

  lemma ShiftedToZero(w: bv64, s: bv7)
    requires s < 64 && !Bit(w, s) && w >> (s + 1) == 0
    ensures w >> s == 0
  {
  }

  lemma {:induction false} NoBitsNoWord(w: bv64, s: bv7)
    requires s <= 64
    requires forall t: bv7 :: !Bit(w, t)
    ensures w >> s == 0
    decreases 64 - s
  {
    if s < 64 {
      NoBitsNoWord(w, s + 1);
      ShiftedToZero(w, s);
    }
  }

  lemma WordsWithSameBits(v: bv64, w: bv64)
    requires forall s: bv7 :: Bit(v, s) == Bit(w, s)
    ensures v == w
  {
    var x := v ^ w;
    forall s: bv7
      ensures !Bit(x, s)
    {
      if s < 64 {
        BitOfXor(v, w, s);
      }
    }
    NoBitsNoWord(x, 0);
    assert x >> 0 == x;
  }

  /** The shift that reaches bit `b` of the table inside its word. */
  function Shift(b: nat): (s: bv7)
    ensures s < 64
  {
    (b % 64) as bv7
  }

  lemma ShiftValue(b: nat)
    ensures Shift(b) as nat == b % 64
  {
    ConversionRoundTrip(b % 64);
  }

  /** The shift amount reached by counting up to `i`. */
  ghost function CountedTo(i: nat): (s: bv7)
    requires i < 64
    ensures s as nat == i
  {
    if i == 0 then 0
    else
      OneMore(CountedTo(i - 1));
      CountedTo(i - 1) + 1
  }

  lemma OneMore(s: bv7)
    requires s as nat < 63
    ensures (s + 1) as nat == s as nat + 1
  {
  }

  lemma ShiftRoundTrip(s: bv7)
    ensures s as nat as bv7 == s
  {
  }

  lemma ConversionRoundTrip(i: nat)
    requires i < 64
    ensures i as bv7 as nat == i
  {
    hide CountedTo;
    ShiftRoundTrip(CountedTo(i));
  }

  lemma ShiftInjective(b: nat, c: nat)
    requires b != c && b / 64 == c / 64
    ensures Shift(b) != Shift(c)
  {
    ShiftValue(b);
    ShiftValue(c);
  }

  lemma ShiftSurjective(i: nat, s: bv7)
    requires s < 64
    ensures s as nat < 64
    ensures (64 * i + s as nat) / 64 == i && Shift(64 * i + s as nat) == s
  {
  }

  predicate BitAt(table: seq<bv64>, b: nat)
  {
    b / 64 < |table| && Bit(table[b / 64], Shift(b))
  }

  /** Storing one bit changes that bit of the table and no other. */
  lemma BitAfterStore(table: seq<bv64>, b: nat, v: bv64, c: nat)
    requires b / 64 < |table| && v <= 1
    ensures BitAt(table[b / 64 := WithBit(table[b / 64], Shift(b), v)], c) ==
            if b == c then v == 1 else BitAt(table, c)
  {
    if b / 64 == c / 64 {
      if b == c {
        BitStored(table[b / 64], Shift(b), v);
      } else {
        ShiftInjective(b, c);
        BitKept(table[b / 64], Shift(b), Shift(c), v);
      }
    }
  }

  /** A table is determined by its bits. */
  lemma TablesWithSameBits(t: seq<bv64>, r: seq<bv64>)
    requires |t| == |r|
    requires forall b: nat :: BitAt(t, b) == BitAt(r, b)
    ensures t == r
  {
    forall i | 0 <= i < |t|
      ensures t[i] == r[i]
    {
      forall s: bv7
        ensures Bit(t[i], s) == Bit(r[i], s)
      {
        if s < 64 {
          ShiftSurjective(i, s);
          assert BitAt(t, 64 * i + s as nat) == BitAt(r, 64 * i + s as nat);
        }
      }
      WordsWithSameBits(t[i], r[i]);
    }
  }
}
