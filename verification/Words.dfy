/** One word of a .pag file: tagging, biasing and byte order, after innbbsd/dbz.c. */
module Words {

  /** What a probed word says to the searcher of one key. */
  datatype Look<V> = Empty | Mismatch | Candidate(value: V)

  // ------------------------------------------------------------------ tags

  const ONES: bv64 := 0xFFFF_FFFF_FFFF_FFFF

  /** `tagbits`, `taghere` and `conf.tagshift`. */
  datatype Masks = Masks(bits: bv64, here: bv64, shift: nat)

  // The macros of the same names.

  predicate HasTag(m: Masks, o: bv64) { o & m.here != 0 }

  function Tag(m: Masks, o: bv64): bv64 { o & m.bits }

  function NoTag(m: Masks, o: bv64): bv64 { o & !(m.bits | m.here) }

  predicate CanTag(m: Masks, o: bv64) { o & (m.bits | m.here) == 0 }

  function MkTag(m: Masks, v: bv64): (tag: bv64)
    ensures IsTag(m, tag)
  {
    Masked(Shl(v, m.shift), m.bits);
    And(Shl(v, m.shift), m.bits)
  }

  function And(v: bv64, w: bv64): bv64 { v & w }

  /** v << n */
  function Shl(v: bv64, n: nat): bv64 {
    if n == 0 then v else Double(Shl(v, n - 1))
  }

  function Double(v: bv64): bv64 { v << 1 }

  function Bias(o: bv64): bv64 { o + 1 }

  function Unbias(o: bv64): bv64 { o - 1 }

  predicate IsTag(m: Masks, tag: bv64) { tag & m.bits == tag }

  function WithTag(m: Masks, tag: bv64, v: bv64): bv64 { v | tag | m.here }

  /** okayvalue() */
  predicate OkayValue(m: Masks, value: bv64) { !HasTag(m, value) }

  /** The value set() writes: tagged if there is room and the result will not look vacant. */
  function Tagged(m: Masks, tag: bv64, value: bv64): bv64 {
    if CanTag(m, value) && WithTag(m, tag, value) != ONES then WithTag(m, tag, value) else value
  }

  /** The word set() writes, before the byte order is mapped. */
  function Pack(m: Masks, tag: bv64, value: bv64): bv64 { Bias(Tagged(m, tag, value)) }

  function CheckTag(m: Masks, tag: bv64, v: bv64): Look<bv64> {
    if !HasTag(m, v) then Candidate(v)
    else if Tag(m, v) == tag then Candidate(NoTag(m, v))
    else Mismatch
  }

  /** What search() makes of a word, after the byte order is mapped. */
  function Unpack(m: Masks, tag: bv64, word: bv64): Look<bv64> {
    if word == 0 then Empty else CheckTag(m, tag, Unbias(word))
  }

  /** Enable bits apart from the tag bits, and tag bits only with an enable bit (or nothing but enable bits). */
  predicate Sound(m: Masks) {
    m.here == ONES || (m.bits & m.here == 0 && (m.here != 0 || m.bits == 0))
  }

  /** Every storable value other than -1 is found again under its own tag. */
  ghost predicate Recovers(m: Masks) {
    forall tag, value :: IsTag(m, tag) && OkayValue(m, value) && value != ONES ==>
      Unpack(m, tag, Pack(m, tag, value)) == Candidate(value)
  }

  // Facts about single bits.

  lemma Masked(o: bv64, b: bv64)
    ensures (o & b) & b == o & b
  {
  }

  lemma Unbiased(v: bv64)
    ensures Unbias(Bias(v)) == v && (Bias(v) == 0 <==> v == ONES)
  {
  }

  lemma TagBits(v: bv64, t: bv64, b: bv64, h: bv64)
    requires v & (b | h) == 0 && t & b == t && b & h == 0
    ensures (v | t | h) & b == t
  {
  }

  lemma ValueBits(v: bv64, t: bv64, b: bv64, h: bv64)
    requires v & (b | h) == 0 && t & b == t
    ensures (v | t | h) & !(b | h) == v
  {
  }

  lemma EnableBits(v: bv64, t: bv64, h: bv64)
    ensures (v | t | h) & h == h
  {
  }

  lemma NoBits(v: bv64, t: bv64)
    requires t & 0 == t
    ensures v | t | 0 == v && v & 0 == 0
  {
  }

  lemma AllBits(v: bv64, t: bv64)
    ensures v | t | ONES == ONES
  {
  }

  // What the masks guarantee.

  /** Tagging a value and reading it back. */
  lemma WithTagSeen(m: Masks, tag: bv64, value: bv64)
    requires Sound(m) && IsTag(m, tag) && CanTag(m, value) && WithTag(m, tag, value) != ONES
    ensures HasTag(m, WithTag(m, tag, value)) <==> m.here != 0
    ensures m.here != 0 ==> Tag(m, WithTag(m, tag, value)) == tag
    ensures NoTag(m, WithTag(m, tag, value)) == value
    ensures m.here == 0 ==> WithTag(m, tag, value) == value
  {
    HereSeen(m, tag, value);
    ValueSeen(m, tag, value);
    Apart(m, tag, value);
    hide HasTag, NoTag, CanTag, WithTag, Sound;
    if m.here == 0 {
      Untaggable(m, tag, value);
    } else {
      TagSeen(m, tag, value);
    }
  }

  lemma Apart(m: Masks, tag: bv64, value: bv64)
    requires Sound(m) && WithTag(m, tag, value) != ONES
    ensures if m.here == 0 then m.bits == 0 else m.bits & m.here == 0
  {
    AllBits(value, tag);
  }

  lemma Untaggable(m: Masks, tag: bv64, value: bv64)
    requires m.bits == 0 && m.here == 0 && IsTag(m, tag)
    ensures WithTag(m, tag, value) == value
  {
    NoBits(value, tag);
  }

  lemma HereSeen(m: Masks, tag: bv64, value: bv64)
    ensures HasTag(m, WithTag(m, tag, value)) <==> m.here != 0
  {
    EnableBits(value, tag, m.here);
  }

  lemma ValueSeen(m: Masks, tag: bv64, value: bv64)
    requires IsTag(m, tag) && CanTag(m, value)
    ensures NoTag(m, WithTag(m, tag, value)) == value
  {
    ValueBits(value, tag, m.bits, m.here);
  }

  lemma TagSeen(m: Masks, tag: bv64, value: bv64)
    requires IsTag(m, tag) && CanTag(m, value) && m.bits & m.here == 0
    ensures Tag(m, WithTag(m, tag, value)) == tag
  {
    TagBits(value, tag, m.bits, m.here);
  }

  /** Which stored words look vacant: only an untagged -1. */
  lemma PackVacant(m: Masks, tag: bv64, value: bv64)
    requires OkayValue(m, value)
    ensures Pack(m, tag, value) == 0 <==> value == ONES
  {
  }

  /** A search for any tag sees the value that was stored, or with another tag may pass it over: never a wrong one. */
  lemma PackSeen(m: Masks, tag: bv64, value: bv64, other: bv64)
    requires Sound(m) && IsTag(m, tag) && OkayValue(m, value) && value != ONES
    ensures Unpack(m, tag, Pack(m, tag, value)) == Candidate(value)
    ensures Unpack(m, other, Pack(m, tag, value)) in {Mismatch, Candidate(value)}
  {
    hide Bias, Unbias, HasTag, Tag, NoTag, CanTag, IsTag, WithTag, Sound;
    Unbiased(Tagged(m, tag, value));
    if CanTag(m, value) && WithTag(m, tag, value) != ONES {
      WithTagSeen(m, tag, value);
    }
  }

  /** Unpacking undoes packing for every value and tag if and only if the masks are sound. */
  lemma RecoversExactly(m: Masks)
    ensures Recovers(m) <==> Sound(m)
  {
    hide Bias, Unbias, HasTag, Tag, NoTag, CanTag, IsTag, WithTag, Sound, Pack, Unpack;
    if Sound(m) {
      forall tag, value | IsTag(m, tag) && OkayValue(m, value) && value != ONES
        ensures Unpack(m, tag, Pack(m, tag, value)) == Candidate(value)
      {
        PackSeen(m, tag, value, tag);
      }
    } else {
      var tag := NotRecovered(m);
    }
  }

  /** With unsound masks the value 0 is lost or changed under some tag. */
  lemma NotRecovered(m: Masks) returns (tag: bv64)
    requires !Sound(m)
    ensures IsTag(m, tag) && OkayValue(m, 0)
    ensures m.bits & m.here != 0 ==> tag == 0
    ensures Unpack(m, tag, Pack(m, tag, 0)) != Candidate(0)
  {
    if m.bits & m.here != 0 {
      tag := 0;
      LostTag(m);
    } else {
      tag := if m.bits == ONES then 1 else m.bits;
      StuckTag(m, tag);
    }
    Unbiased(WithTag(m, tag, 0));
    hide Bias, Unbias, HasTag, Tag, NoTag, CanTag, IsTag, WithTag, Sound;
  }

  /** Without enable bits the tag 0 does no harm. */
  lemma NoTagSeen(m: Masks, value: bv64)
    requires m.here == 0 && value != ONES
    ensures Pack(m, 0, value) != 0 && Unpack(m, 0, Pack(m, 0, value)) == Candidate(value)
  {
    Unbiased(value);
    ZeroTagged(value);
    hide Bias, Unbias;
  }

  lemma LostTag(m: Masks)
    requires m.bits & m.here != 0 && m.here != ONES
    ensures IsTag(m, 0) && OkayValue(m, 0) && CanTag(m, 0)
    ensures WithTag(m, 0, 0) != ONES && HasTag(m, WithTag(m, 0, 0)) && Tag(m, WithTag(m, 0, 0)) != 0
  {
    assert WithTag(m, 0, 0) == m.here;
  }

  lemma StuckTag(m: Masks, tag: bv64)
    requires m.here == 0 && m.bits != 0 && tag == if m.bits == ONES then 1 else m.bits
    ensures IsTag(m, tag) && OkayValue(m, 0) && CanTag(m, 0)
    ensures WithTag(m, tag, 0) == tag && tag != ONES && tag != 0 && !HasTag(m, WithTag(m, tag, 0))
  {
    Within(tag, m.bits);
    BareTag(m, tag);
  }

  lemma BareTag(m: Masks, tag: bv64)
    requires m.here == 0
    ensures WithTag(m, tag, 0) == tag && !HasTag(m, tag) && OkayValue(m, 0) && CanTag(m, 0)
  {
    ZeroTagged(tag);
  }

  lemma ZeroTagged(t: bv64)
    ensures 0 | t | 0 == t && t | 0 | 0 == t && t & 0 == 0
  {
  }

  lemma Within(t: bv64, b: bv64)
    requires t == b || b == ONES
    ensures t & b == t
  {
  }

  // dbzfresh(): the masks of a new database.

  function Pow2(n: nat): (p: int)
    ensures p > 0
  {
    if n == 0 then 1 else 2 * Pow2(n - 1)
  }

  function Abs(m: int): nat { if m < 0 then -m else m }

  /** The loop of dbzfresh() that counts the low zeros of a mask into tagshift. */
  method StripZeros(mask: int) returns (m: int, shift: nat)
    requires -TWO63 <= mask < TWO63 && mask != 0
    ensures m % 2 == 1 && m * Pow2(shift) == mask && shift + Abs(m) <= Abs(mask)
    ensures Shl(ToBits(m), shift) == ToBits(mask)
    ensures NextBits(ToBits(m)) == 0 <==> NextBits(ToBits(mask)) == 0
  {
    hide Shl, ToBits, NextBits;
    m, shift := mask, 0;
    ShlNone(ToBits(m));
    while m % 2 == 0
      invariant m != 0 && m * Pow2(shift) == mask && shift + Abs(m) <= Abs(mask)
      invariant Shl(ToBits(m), shift) == ToBits(mask)
      invariant NextBits(ToBits(m)) == 0 <==> NextBits(ToBits(mask)) == 0
      decreases Abs(m)
    {
      HalfMask(m, shift);
      m := m / 2;
      shift := shift + 1;
    }
  }

  lemma HalfMask(m: int, shift: nat)
    requires -TWO63 <= m < TWO63 && m % 2 == 0 && m != 0
    ensures (m / 2) * Pow2(shift + 1) == m * Pow2(shift) && Abs(m / 2) < Abs(m) && m / 2 != 0
    ensures Shl(ToBits(m / 2), shift + 1) == Shl(ToBits(m), shift)
    ensures NextBits(ToBits(m / 2)) == 0 <==> NextBits(ToBits(m)) == 0
  {
    hide ToBits, NextBits;
    HalfBits(m);
    NextBitsHalf(ToBits(m));
    hide Asr;
    ShlAgain(ToBits(m / 2), shift);
    assert m == 2 * (m / 2);
    assert (m / 2) * (2 * Pow2(shift)) == (2 * (m / 2)) * Pow2(shift);
  }

  /** The zero bits just above ones: `(m << 1) & ~m`. */
  function NextBits(t: bv64): bv64 { (t << 1) & !t }

  /** w >> 1 of a signed long. */
  function Asr(w: bv64): bv64 { (w >> 1) | (w & 0x8000_0000_0000_0000) }

  lemma NextBitsHalf(w: bv64)
    requires w & 1 == 0
    ensures Double(Asr(w)) == w && (NextBits(Asr(w)) == 0 <==> NextBits(w) == 0)
  {
  }

  /** Halving an even number is shifting its bits. */
  lemma HalfBits(m: int)
    requires -TWO63 <= m < TWO63 && m % 2 == 0
    ensures ToBits(m / 2) == Asr(ToBits(m)) && ToBits(m) & 1 == 0
  {
    hide FromNat, Unsigned, Asr, Double;
    var x := m % TWO64;
    var h := FromNat(x / 2);
    EvenNat(x);
    TopBit(h);
    TopBit(Double(h));
    AsrDoubled(h);
    HalfRem(m);
    if m < 0 {
      TopAdded(h);
      SameUnsigned(FromNat((m / 2) % TWO64), h | 0x8000_0000_0000_0000);
    }
  }

  lemma HalfRem(m: int)
    requires -TWO63 <= m < TWO63 && m % 2 == 0
    ensures (m % TWO64) % 2 == 0 && (m % TWO64) / 2 < TWO63
    ensures m >= 0 ==> m % TWO64 < TWO63 && (m / 2) % TWO64 == (m % TWO64) / 2
    ensures m < 0 ==> m % TWO64 >= TWO63 && (m / 2) % TWO64 == (m % TWO64) / 2 + TWO63
  {
  }

  lemma EvenNat(x: nat)
    requires x < TWO64 && x % 2 == 0
    ensures FromNat(x) == Double(FromNat(x / 2)) && Double(FromNat(x / 2)) & 1 == 0
  {
    if x == 0 { assert FromNat(0) == 0; }
    DoubleEven(FromNat(x / 2));
  }

  lemma DoubleEven(h: bv64)
    ensures Double(h) & 1 == 0 && (h == 0 ==> Double(h) == 0)
  {
  }

  lemma AsrDoubled(h: bv64)
    requires h & 0x8000_0000_0000_0000 == 0
    ensures Double(h) & 0x8000_0000_0000_0000 == 0 ==> Asr(Double(h)) == h
    ensures Double(h) & 0x8000_0000_0000_0000 != 0 ==> Asr(Double(h)) == h | 0x8000_0000_0000_0000
  {
  }

  lemma TopAdded(h: bv64)
    requires h & 0x8000_0000_0000_0000 == 0
    ensures Unsigned(h | 0x8000_0000_0000_0000) == Unsigned(h) + TWO63
  {
  }

  /** An odd number has no zero above ones exactly when it is -1. */
  lemma OddMask(m: int)
    requires -TWO63 <= m < TWO63 && m % 2 == 1
    ensures NextBits(ToBits(m)) == 0 <==> m == -1
  {
    hide ToBits, ToLong, NextBits;
    OddNat(m);
    OddBits(ToBits(m));
    LongRoundTrip(m);
    LongRoundTrip(-1);
    MinusOne();
  }

  lemma MinusOne()
    ensures ToBits(-1) == ONES
  {
    hide FromNat, Unsigned;
    assert ToLong(ONES) == -1 by { AllOnes(); }
    BitsRoundTrip(ONES);
  }

  lemma AllOnes()
    ensures Unsigned(ONES) == TWO64 - 1
  {
  }

  lemma OddNat(m: int)
    requires m % 2 == 1
    ensures ToBits(m) & 1 == 1
  {
    var x := m % TWO64;
    assert x % 2 == 1;
    LowBit(FromNat(x / 2));
    hide Double;
  }

  lemma LowBit(h: bv64)
    ensures (Double(h) | 1) & 1 == 1
  {
  }

  lemma OddBits(w: bv64)
    requires w & 1 == 1
    ensures NextBits(w) == 0 <==> w == ONES
  {
  }

  lemma ShlAgain(v: bv64, n: nat)
    ensures Shl(v, n + 1) == Shl(Double(v), n)
  {
    hide Double;
    if n > 0 { ShlAgain(v, n - 1); }
  }

  lemma {:induction false} ShlNextBits(t: bv64, n: nat)
    ensures Shl(NextBits(t), n) == NextBits(Shl(t, n))
  {
    hide NextBits, Double;
    if n > 0 {
      ShlNextBits(t, n - 1);
      NextBitsDoubled(Shl(t, n - 1));
    }
  }

  lemma NextBitsDoubled(t: bv64)
    ensures NextBits(Double(t)) == Double(NextBits(t))
  {
  }

  /** A tag mask, with the zeros just above its ones as enable bits, is sound exactly when there are such zeros. */
  lemma FreshSound(tagmask: bv64, shift: nat)
    requires tagmask != 0
    ensures Sound(Masks(tagmask, NextBits(tagmask), shift)) <==> NextBits(tagmask) != 0
    ensures tagmask & 0x8000_0000_0000_0000 == 0 ==> NextBits(tagmask) != 0
  {
  }

  lemma {:induction false} ShlZero(n: nat)
    ensures Shl(0, n) == 0
  {
    if n > 0 { ShlZero(n - 1); }
  }

  lemma ShlOnes(v: bv64, n: nat)
    requires Shl(v, n) == ONES
    ensures n == 0
  {
  }

  lemma ShlNone(v: bv64)
    ensures Shl(v, 0) == v
  {
  }

  const NO_TAGS := Masks(0, 0, 0)

  // ------------------------------------------------------------------ of_t as a number

  const TWO64: int := 0x1_0000_0000_0000_0000
  const TWO63: int := 0x8000_0000_0000_0000

  function Unsigned(w: bv64): (u: int)
    ensures 0 <= u < TWO64
  {
    w as int
  }

  /** The word with a given unsigned value. */
  function FromNat(x: nat): (w: bv64)
    requires x < TWO64
    ensures Unsigned(w) == x
  {
    if x == 0 then 0
    else
      var half := FromNat(x / 2);
      TopBit(half);
      Doubled(half);
      if x % 2 == 0 then Double(half) else Double(half) | 1
  }

  lemma TopBit(w: bv64)
    ensures w & 0x8000_0000_0000_0000 != 0 <==> Unsigned(w) >= TWO63
  {
  }

  lemma Doubled(w: bv64)
    requires w & 0x8000_0000_0000_0000 == 0
    ensures Unsigned(Double(w)) == Unsigned(w) * 2
    ensures Unsigned(Double(w) | 1) == Unsigned(w) * 2 + 1
  {
    ShiftedInt(w);
  }

  lemma ShiftedInt(w: bv64)
    requires w & 0x8000_0000_0000_0000 == 0
    ensures (w << 1) as int == w as int * 2
    ensures ((w << 1) | 1) as int == w as int * 2 + 1
  {
  }

  /** A long as its bit pattern, and back. */
  function ToBits(v: int): bv64 { FromNat(v % TWO64) }

  function ToLong(w: bv64): (v: int)
    ensures -TWO63 <= v < TWO63
  {
    var u := Unsigned(w);
    if u < TWO63 then u else u - TWO64
  }

  lemma SameUnsigned(v: bv64, w: bv64)
    requires Unsigned(v) == Unsigned(w)
    ensures v == w
  {
    assert (v as int) as bv64 == v && (w as int) as bv64 == w;
  }

  lemma BitsRoundTrip(w: bv64)
    ensures ToBits(ToLong(w)) == w
  {
    hide FromNat, Unsigned;
    SameUnsigned(FromNat(Unsigned(w)), w);
  }

  lemma LongRoundTrip(v: int)
    requires -TWO63 <= v < TWO63
    ensures ToLong(ToBits(v)) == v
  {
    hide FromNat, Unsigned;
  }

  const DEFAULT_MASKS: Masks := Masks(0x7f00_0000, 0x8000_0000, 24)

  /** The word written under the default tag masks: seven bits of the number x stand in bits 24 to 30, below an enable
      bit, and one is added to it all. */
  lemma DefaultWord(x: bv64, v: bv64)
    requires v & 0xff00_0000 == 0 && v < 0x8000_0000_0000_0000
    ensures Pack(DEFAULT_MASKS, MkTag(DEFAULT_MASKS, x), v) == (v | ((x << 24) & 0x7f00_0000) | 0x8000_0000) + 1
  {
    DefaultTag(x);
    DefaultTagged(MkTag(DEFAULT_MASKS, x), v);
    BiasAdds(Tagged(DEFAULT_MASKS, MkTag(DEFAULT_MASKS, x), v));
    hide MkTag, Tagged, Bias;
  }

  /** An offset without room for the tag is written as it is, and one with the enable bit is not stored. */
  lemma DefaultUntagged(x: bv64, v: bv64)
    ensures OkayValue(DEFAULT_MASKS, v) <==> v & 0x8000_0000 == 0
    ensures v & 0xff00_0000 != 0 ==> Pack(DEFAULT_MASKS, MkTag(DEFAULT_MASKS, x), v) == v + 1
  {
    DefaultOkay(v);
    DefaultRoom(v);
    BiasAdds(v);
    hide MkTag, CanTag, OkayValue, Bias;
  }

  lemma BiasAdds(o: bv64)
    ensures Bias(o) == o + 1
  {
  }

  lemma DefaultOkay(v: bv64)
    ensures OkayValue(DEFAULT_MASKS, v) <==> v & 0x8000_0000 == 0
  {
  }

  lemma DefaultTag(x: bv64)
    ensures MkTag(DEFAULT_MASKS, x) == (x << 24) & 0x7f00_0000
    ensures MkTag(DEFAULT_MASKS, x) & 0x7f00_0000 == MkTag(DEFAULT_MASKS, x)
  {
    ShlBy24(x);
    hide Shl;
    Masked(x << 24, 0x7f00_0000);
  }

  lemma DefaultTagged(tag: bv64, v: bv64)
    requires tag & 0x7f00_0000 == tag && v & 0xff00_0000 == 0 && v < 0x8000_0000_0000_0000
    ensures Tagged(DEFAULT_MASKS, tag, v) == v | tag | 0x8000_0000
  {
    DefaultRoom(v);
    DefaultWith(tag, v);
    hide CanTag, WithTag;
    RoomAndSign(tag, v);
  }

  lemma DefaultRoom(v: bv64)
    ensures CanTag(DEFAULT_MASKS, v) <==> v & 0xff00_0000 == 0
  {
    assert DEFAULT_MASKS.bits | DEFAULT_MASKS.here == 0xff00_0000;
  }

  lemma DefaultWith(tag: bv64, v: bv64)
    ensures WithTag(DEFAULT_MASKS, tag, v) == v | tag | 0x8000_0000
  {
  }

  lemma RoomAndSign(tag: bv64, v: bv64)
    ensures (0x7f00_0000 as bv64) | 0x8000_0000 == 0xff00_0000
    ensures tag & 0x7f00_0000 == tag && v < 0x8000_0000_0000_0000 ==> v | tag | 0x8000_0000 != ONES
  {
  }

  lemma ShlBy24(x: bv64)
    ensures Shl(x, 24) == x << 24
  {
    ShlBy8(x);
    ShlBy8(Shl(x, 8));
    ShlBy8(Shl(x, 16));
    ShlSum(x, 8, 8);
    ShlSum(x, 16, 8);
    hide Shl;
  }

  lemma ShlBy8(x: bv64)
    ensures Shl(x, 8) == x << 8
  {
    assert Shl(x, 1) == Double(Shl(x, 0));
    assert Shl(x, 2) == Double(Double(x));
    assert Shl(x, 4) == Double(Double(Shl(x, 2)));
    assert Shl(x, 6) == Double(Double(Shl(x, 4)));
  }

  lemma {:induction false} ShlSum(x: bv64, a: nat, b: nat)
    ensures Shl(x, a + b) == Shl(Shl(x, a), b)
    decreases b
  {
    hide Double;
    if b > 0 { ShlSum(x, a, b - 1); }
  }

  // ------------------------------------------------------------------ byte order

  /** A byte map: order[i] is the place in memory of the i-th byte, counted from the high-order end. */
  predicate IsOrder(order: seq<int>) {
    |order| == 8
    && (forall i :: 0 <= i < 8 ==> 0 <= order[i] < 8)
    && (forall i, j :: 0 <= i < j < 8 ==> order[i] != order[j])
    && (forall a :: 0 <= a < 8 ==> a in order)
  }

  /** Where a byte of memory stands in the byte map. */
  function Rank(order: seq<int>, a: int): (i: int)
    requires IsOrder(order) && 0 <= a < 8
    ensures 0 <= i < 8 && order[i] == a
  {
    assert a in order;
    RankFrom(order, a, 0)
  }

  function RankFrom(order: seq<int>, a: int, i: nat): (r: int)
    requires i <= |order| && exists j :: i <= j < |order| && order[j] == a
    ensures i <= r < |order| && order[r] == a
    decreases |order| - i
  {
    if order[i] == a then i else RankFrom(order, a, i + 1)
  }

  function Bytes(w: bv64): (b: seq<bv8>)
    ensures |b| == 8
  {
    [((w >> 56) & 0xFF) as bv8, ((w >> 48) & 0xFF) as bv8, ((w >> 40) & 0xFF) as bv8, ((w >> 32) & 0xFF) as bv8,
     ((w >> 24) & 0xFF) as bv8, ((w >> 16) & 0xFF) as bv8, ((w >> 8) & 0xFF) as bv8, (w & 0xFF) as bv8]
  }

  function Join(b: seq<bv8>): bv64
    requires |b| == 8
  {
    (b[0] as bv64 << 56) | (b[1] as bv64 << 48) | (b[2] as bv64 << 40) | (b[3] as bv64 << 32)
    | (b[4] as bv64 << 24) | (b[5] as bv64 << 16) | (b[6] as bv64 << 8) | b[7] as bv64
  }

  lemma JoinBytes(w: bv64)
    ensures Join(Bytes(w)) == w
  {
  }

  lemma BytesJoin(b: seq<bv8>)
    requires |b| == 8
    ensures Bytes(Join(b)) == b
  {
  }

  /** The bytes of a word as they lie in the memory of a machine with the given byte map, and the word they make. */
  function Memory(w: bv64, order: seq<int>): (mem: seq<bv8>)
    requires IsOrder(order)
    ensures |mem| == 8
  {
    seq(8, a requires 0 <= a < 8 => Bytes(w)[Rank(order, a)])
  }

  function Word(mem: seq<bv8>, order: seq<int>): bv64
    requires |mem| == 8 && |order| == 8 && forall i :: 0 <= i < 8 ==> 0 <= order[i] < 8
  {
    Join(seq(8, i requires 0 <= i < 8 => mem[order[i]]))
  }

  lemma MemoryRoundTrip(w: bv64, order: seq<int>)
    requires IsOrder(order)
    ensures Word(Memory(w, order), order) == w
  {
    hide Bytes, Join;
    JoinBytes(w);
    MemoryBytes(w, order);
    assert seq(8, i requires 0 <= i < 8 => Memory(w, order)[order[i]]) == Bytes(w);
  }

  lemma WordRoundTrip(mem: seq<bv8>, order: seq<int>)
    requires IsOrder(order) && |mem| == 8
    ensures Memory(Word(mem, order), order) == mem
  {
    hide Bytes, Join;
    var high := seq(8, i requires 0 <= i < 8 => mem[order[i]]);
    BytesJoin(high);
    assert Bytes(Word(mem, order)) == high;
  }

  /** Byte a of the result is the byte of `mem` that plays the same part in the other map. */
  function Moved(mem: seq<bv8>, map1: seq<int>, map2: seq<int>): (r: seq<bv8>)
    requires IsOrder(map1) && IsOrder(map2) && |mem| == 8
    ensures |r| == 8 && forall i :: 0 <= i < 8 ==> r[map2[i]] == mem[map1[i]]
  {
    seq(8, a requires 0 <= a < 8 => mem[map1[Rank(map2, a)]])
  }

  /** bytemap(), on a machine whose own byte map is `mine`. */
  function ByteMap(w: bv64, map1: seq<int>, map2: seq<int>, mine: seq<int>): bv64
    requires IsOrder(map1) && IsOrder(map2) && IsOrder(mine)
  {
    Word(Moved(Memory(w, mine), map1, map2), mine)
  }

  /** The loop of bytemap(), over the bytes of the word in memory. */
  method MoveBytes(mem: seq<bv8>, map1: seq<int>, map2: seq<int>) returns (out: seq<bv8>)
    requires IsOrder(map1) && IsOrder(map2) && |mem| == 8
    ensures out == Moved(mem, map1, map2)
  {
    out := [0, 0, 0, 0, 0, 0, 0, 0];
    var i := 0;
    while i < 8
      invariant 0 <= i <= 8 && |out| == 8
      invariant forall j :: 0 <= j < i ==> out[map2[j]] == mem[map1[j]]
    {
      out := out[map2[i] := mem[map1[i]]];
      i := i + 1;
    }
    forall a | 0 <= a < 8 ensures out[a] == Moved(mem, map1, map2)[a] {
      var j := Rank(map2, a);
    }
  }

  /** bytemap() in memory: byte map1[i] of the word becomes byte map2[i] of the result. */
  lemma MappedBytes(w: bv64, map1: seq<int>, map2: seq<int>, mine: seq<int>)
    requires IsOrder(map1) && IsOrder(map2) && IsOrder(mine)
    ensures forall i :: 0 <= i < 8 ==> Memory(ByteMap(w, map1, map2, mine), mine)[map2[i]] == Memory(w, mine)[map1[i]]
  {
    hide Word, Memory, IsOrder;
    WordRoundTrip(Moved(Memory(w, mine), map1, map2), mine);
  }

  /** The i-th byte of a word, counted from the high-order end, lies at order[i]. */
  lemma MemoryBytes(w: bv64, order: seq<int>)
    requires IsOrder(order)
    ensures forall i :: 0 <= i < 8 ==> Memory(w, order)[order[i]] == Bytes(w)[i]
  {
    hide Bytes;
    forall i | 0 <= i < 8 ensures Memory(w, order)[order[i]] == Bytes(w)[i] {
      assert Rank(order, order[i]) == i;
    }
  }

  /** What MAPOUT leaves in memory, and so in the file, are the bytes of the word as a machine with the byte map of the
      file would write them; and MAPIN takes such bytes for that word. */
  lemma ForeignBytes(w: bv64, order: seq<int>, mine: seq<int>)
    requires IsOrder(order) && IsOrder(mine)
    ensures Memory(ByteMap(w, mine, order, mine), mine) == Memory(w, order)
    ensures ByteMap(Word(Memory(w, order), mine), order, mine, mine) == w
  {
    hide Bytes, Word, Memory;
    var out := Memory(ByteMap(w, mine, order, mine), mine);
    MappedBytes(w, mine, order, mine);
    MemoryBytes(w, mine);
    MemoryBytes(w, order);
    forall a | 0 <= a < 8 ensures out[a] == Memory(w, order)[a] {
      assert order[Rank(order, a)] == a;
    }
    assert out == Memory(w, order);
    MemoryRoundTrip(ByteMap(w, mine, order, mine), mine);
    ByteMapInverse(w, mine, order, mine);
  }

  /** bytemap(): the word taken apart, its bytes moved, and put together again. */
  method MapBytes(w: bv64, map1: seq<int>, map2: seq<int>, mine: seq<int>) returns (r: bv64)
    requires IsOrder(map1) && IsOrder(map2) && IsOrder(mine)
    ensures r == ByteMap(w, map1, map2, mine)
    ensures forall i :: 0 <= i < 8 ==> Memory(r, mine)[map2[i]] == Memory(w, mine)[map1[i]]
  {
    hide Word, Memory;
    var out := MoveBytes(Memory(w, mine), map1, map2);
    r := Word(out, mine);
    MappedBytes(w, map1, map2, mine);
  }

  /** The byte orders of a little-endian machine and of a file from a big-endian one. */
  lemma LittleAndBig()
    ensures ByteMap(0x0102_0304_0506_0708, [7, 6, 5, 4, 3, 2, 1, 0], [0, 1, 2, 3, 4, 5, 6, 7],
      [7, 6, 5, 4, 3, 2, 1, 0]) == 0x0807_0605_0403_0201
  {
    var little, big := [7, 6, 5, 4, 3, 2, 1, 0], [0, 1, 2, 3, 4, 5, 6, 7];
    assert forall i :: 0 <= i < 8 ==> little[7 - i] == i && big[i] == i;
    assert IsOrder(little) && IsOrder(big);
    var w: bv64 := 0x0102_0304_0506_0708;
    var v: bv64 := 0x0807_0605_0403_0201;
    assert Bytes(w) == [1, 2, 3, 4, 5, 6, 7, 8];
    assert Bytes(v) == [8, 7, 6, 5, 4, 3, 2, 1];
    hide Bytes, Word, Memory, IsOrder;
    MappedBytes(w, little, big, little);
    MemoryBytes(w, little);
    MemoryBytes(v, little);
    var x := ByteMap(w, little, big, little);
    assert Memory(x, little) == Memory(v, little);
    MemoryRoundTrip(x, little);
    MemoryRoundTrip(v, little);
  }

  /** Byte permutations invert each other and keep VACANT what it is. */
  lemma ByteMapInverse(w: bv64, map1: seq<int>, map2: seq<int>, mine: seq<int>)
    requires IsOrder(map1) && IsOrder(map2) && IsOrder(mine)
    ensures ByteMap(ByteMap(w, map1, map2, mine), map2, map1, mine) == w
    ensures ByteMap(w, map1, map2, mine) == 0 <==> w == 0
  {
    hide Word, Memory;
    MovedBack(Memory(w, mine), map1, map2);
    WordRoundTrip(Moved(Memory(w, mine), map1, map2), mine);
    MemoryRoundTrip(w, mine);
    ZeroMoved(map1, map2, mine);
    ZeroMoved(map2, map1, mine);
  }

  lemma MovedBack(mem: seq<bv8>, map1: seq<int>, map2: seq<int>)
    requires IsOrder(map1) && IsOrder(map2) && |mem| == 8
    ensures Moved(Moved(mem, map1, map2), map2, map1) == mem
  {
    var r := Moved(mem, map1, map2);
    forall a | 0 <= a < 8 ensures Moved(r, map2, map1)[a] == mem[a] {
      assert map1[Rank(map1, a)] == a;
    }
  }

  lemma ZeroMoved(map1: seq<int>, map2: seq<int>, mine: seq<int>)
    requires IsOrder(map1) && IsOrder(map2) && IsOrder(mine)
    ensures ByteMap(0, map1, map2, mine) == 0
  {
    hide Join;
    var zeros: seq<bv8> := [0, 0, 0, 0, 0, 0, 0, 0];
    assert Bytes(0) == zeros;
    hide Bytes;
    var mem := Memory(0, mine);
    assert forall a :: 0 <= a < 8 ==> mem[a] == 0;
    var moved := Moved(mem, map1, map2);
    assert forall a :: 0 <= a < 8 ==> moved[a] == 0;
    assert seq(8, i requires 0 <= i < 8 => moved[mine[i]]) == zeros;
    JoinBytes(0);
  }
}
