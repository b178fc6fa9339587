/** From a configuration to the parameters of the index: the tail of `dbminit` in innbbsd/dbz.c. */
module Opening {
  import opened Words
  import opened Index
  import Crc
  import DirFile

  /** A configuration dbminit can work with: it will divide by tsize, shift by tagshift and permute eight bytes. */
  predicate Usable(c: DirFile.Conf) {
    c.tsize > 0 && c.tagshift >= 0 && IsOrder(c.bytemap)
  }

  /** tagbits and taghere */
  function MasksOf(c: DirFile.Conf): Masks
    requires c.tagshift >= 0
  {
    Masks(Shl(ToBits(c.tagmask), c.tagshift), Shl(ToBits(c.tagenb), c.tagshift), c.tagshift)
  }

  /** MAPIN and MAPOUT, on a machine with the byte map `mine`. */
  function MapIn(w: bv64, bytemap: seq<int>, mine: seq<int>): bv64
    requires IsOrder(bytemap) && IsOrder(mine)
  {
    if bytemap == mine then w else ByteMap(w, bytemap, mine, mine)
  }

  function MapOut(w: bv64, bytemap: seq<int>, mine: seq<int>): bv64
    requires IsOrder(bytemap) && IsOrder(mine)
  {
    if bytemap == mine then w else ByteMap(w, mine, bytemap, mine)
  }

  lemma MapInOut(w: bv64, bytemap: seq<int>, mine: seq<int>)
    requires IsOrder(bytemap) && IsOrder(mine)
    ensures MapIn(MapOut(w, bytemap, mine), bytemap, mine) == w
    ensures MapIn(w, bytemap, mine) == 0 <==> w == 0
    ensures MapOut(w, bytemap, mine) == 0 <==> w == 0
  {
    hide ByteMap, IsOrder;
    ByteMapInverse(w, mine, bytemap, mine);
    ByteMapInverse(w, bytemap, mine, mine);
  }

  function AsLong(l: Look<bv64>): Look<int> {
    match l
    case Empty => Empty
    case Mismatch => Mismatch
    case Candidate(v) => Candidate(ToLong(v))
  }

  predicate IsLong(v: int) { -TWO63 <= v < TWO63 }

  function MkTagOf(c: DirFile.Conf, x: int): bv64
    requires Usable(c)
  {
    MkTag(MasksOf(c), ToBits(x))
  }

  predicate OkayOf(c: DirFile.Conf, v: int)
    requires Usable(c)
  {
    IsLong(v) && OkayValue(MasksOf(c), ToBits(v))
  }

  function PackOf(c: DirFile.Conf, mine: seq<int>, tag: bv64, v: int): bv64
    requires Usable(c) && IsOrder(mine)
  {
    MapOut(Pack(MasksOf(c), tag, ToBits(v)), c.bytemap, mine)
  }

  function LookOf(c: DirFile.Conf, mine: seq<int>, tag: bv64, w: bv64): Look<int>
    requires Usable(c) && IsOrder(mine)
  {
    AsLong(Unpack(MasksOf(c), tag, MapIn(w, c.bytemap, mine)))
  }

  function FieldSep(c: DirFile.Conf): char { (c.fieldsep % 256) as char }

  /** The parameters of the index that a configuration stands for; the usage counts play no part. */
  function SchemeOf(conf: DirFile.Conf, mine: seq<int>): (s: Scheme)
    requires Usable(conf) && IsOrder(mine)
    ensures s.tsize == conf.tsize && s.casemap == conf.casemap && s.fieldsep == FieldSep(conf) && s.hash == Crc.Hash
  {
    var c := conf.(used := []);
    Scheme(c.tsize, c.casemap, FieldSep(c), Crc.Hash,
      x => MkTagOf(c, x), v => OkayOf(c, v),
      (tag, v) => PackOf(c, mine, tag, v), (tag, w) => LookOf(c, mine, tag, w))
  }

  lemma LookEmpty(c: DirFile.Conf, mine: seq<int>, tag: bv64, w: bv64)
    requires Usable(c) && IsOrder(mine)
    ensures LookOf(c, mine, tag, w).Empty? <==> w == 0
  {
    hide MapIn, IsOrder, MasksOf, HasTag, Tag, NoTag, Unbias;
    MapInOut(w, c.bytemap, mine);
  }

  lemma LookPacked(c: DirFile.Conf, mine: seq<int>, x: int, y: int, v: int)
    requires Usable(c) && IsOrder(mine) && Sound(MasksOf(c)) && OkayOf(c, v) && v >= 0
    ensures PackOf(c, mine, MkTagOf(c, x), v) != 0
    ensures LookOf(c, mine, MkTagOf(c, x), PackOf(c, mine, MkTagOf(c, x), v)) == Candidate(v)
    ensures LookOf(c, mine, MkTagOf(c, y), PackOf(c, mine, MkTagOf(c, x), v)) in {Mismatch, Candidate(v)}
  {
    hide MapIn, MapOut, IsOrder, MasksOf, Pack, Unpack, ToBits, ToLong, MkTag, OkayValue, Sound;
    var m, tag := MasksOf(c), MkTagOf(c, x);
    NotAllOnes(v);
    PackSeen(m, tag, ToBits(v), MkTagOf(c, y));
    PackVacant(m, tag, ToBits(v));
    MapInOut(Pack(m, tag, ToBits(v)), c.bytemap, mine);
    LongRoundTrip(v);
  }

  lemma NotAllOnes(v: int)
    requires 0 <= v < TWO63
    ensures ToBits(v) != ONES
  {
    LongRoundTrip(v);
    assert ToLong(ONES) < 0;
    hide ToBits;
  }

  /** No enable bits, and a table so large that every key has the tag 0. */
  ghost predicate TagFree(c: DirFile.Conf)
    requires Usable(c)
  {
    MasksOf(c).here == 0 && forall key :: MkTagOf(c, Crc.Hash(key) / c.tsize) == 0
  }

  /** What dbminit builds is a lawful index, and a faithful one exactly when the masks are sound or no key has a tag. */
  lemma SchemeLawful(c: DirFile.Conf, mine: seq<int>)
    requires Usable(c) && IsOrder(mine)
    ensures SchemeOf(c, mine).Valid() && SchemeOf(c, mine).okay(0)
    ensures SchemeOf(c, mine).Faithful() <==> Sound(MasksOf(c)) || TagFree(c)
  {
    var s, d := SchemeOf(c, mine), c.(used := []);
    SameTags(c, d);
    OkayZero(d);
    hide SchemeOf, MasksOf, Sound, TagFree, Scheme.Valid, Scheme.Faithful;
    SchemeValid(d, mine);
    if Sound(MasksOf(d)) {
      SoundFaithful(d, mine);
    } else if TagFree(d) {
      TagFreeFaithful(d, mine);
    } else {
      Unfaithful(d, mine);
    }
  }

  lemma SameTags(c: DirFile.Conf, d: DirFile.Conf)
    requires Usable(c) && d == c.(used := [])
    ensures MasksOf(d) == MasksOf(c) && (TagFree(d) <==> TagFree(c))
    ensures forall mine :: IsOrder(mine) ==> SchemeOf(d, mine) == SchemeOf(c, mine)
    ensures forall mine :: IsOrder(mine) && OkayOf(d, 0) ==> SchemeOf(c, mine).okay(0)
  {
    hide IsOrder, ToBits;
  }

  lemma SchemeValid(c: DirFile.Conf, mine: seq<int>)
    requires Usable(c) && IsOrder(mine) && c.used == []
    ensures SchemeOf(c, mine).Valid()
  {
    hide PackOf, LookOf, MkTagOf, OkayOf, IsOrder, MasksOf, Crc.Hash;
    var s := SchemeOf(c, mine);
    forall tag, w ensures s.look(tag, w).Empty? <==> w == 0 {
      LookEmpty(c, mine, tag, w);
    }
  }

  lemma SoundFaithful(c: DirFile.Conf, mine: seq<int>)
    requires Usable(c) && IsOrder(mine) && c.used == [] && Sound(MasksOf(c))
    ensures SchemeOf(c, mine).Faithful()
  {
    hide PackOf, LookOf, MkTagOf, OkayOf, IsOrder, MasksOf, Sound, Crc.Hash;
    var s := SchemeOf(c, mine);
    forall key, other, v | s.okay(v) && v >= 0
      ensures s.pack(s.TagOf(s.hash(key)), v) != 0
      ensures s.look(s.TagOf(s.hash(key)), s.pack(s.TagOf(s.hash(key)), v)) == Candidate(v)
      ensures s.look(s.TagOf(s.hash(other)), s.pack(s.TagOf(s.hash(key)), v)) in {Mismatch, Candidate(v)}
    {
      LookPacked(c, mine, s.hash(key) / s.tsize, s.hash(other) / s.tsize, v);
    }
  }

  lemma TagFreeFaithful(c: DirFile.Conf, mine: seq<int>)
    requires Usable(c) && IsOrder(mine) && c.used == [] && TagFree(c)
    ensures SchemeOf(c, mine).Faithful()
  {
    hide PackOf, LookOf, MkTagOf, OkayOf, IsOrder, MasksOf, Crc.Hash;
    var s := SchemeOf(c, mine);
    forall key, other, v | s.okay(v) && v >= 0
      ensures s.pack(s.TagOf(s.hash(key)), v) != 0
      ensures s.look(s.TagOf(s.hash(key)), s.pack(s.TagOf(s.hash(key)), v)) == Candidate(v)
      ensures s.look(s.TagOf(s.hash(other)), s.pack(s.TagOf(s.hash(key)), v)) in {Mismatch, Candidate(v)}
    {
      assert MkTagOf(c, Crc.Hash(key) / c.tsize) == 0 && MkTagOf(c, Crc.Hash(other) / c.tsize) == 0;
      LookUntagged(c, mine, v);
    }
  }

  lemma LookUntagged(c: DirFile.Conf, mine: seq<int>, v: int)
    requires Usable(c) && IsOrder(mine) && MasksOf(c).here == 0 && OkayOf(c, v) && v >= 0
    ensures PackOf(c, mine, 0, v) != 0 && LookOf(c, mine, 0, PackOf(c, mine, 0, v)) == Candidate(v)
  {
    hide MapIn, MapOut, IsOrder, MasksOf, Pack, Unpack, ToBits, ToLong, OkayValue;
    NotAllOnes(v);
    NoTagSeen(MasksOf(c), ToBits(v));
    MapInOut(Pack(MasksOf(c), 0, ToBits(v)), c.bytemap, mine);
    LongRoundTrip(v);
  }

  /** Otherwise the offset 0 is not found again under the tag of some key. */
  lemma Unfaithful(c: DirFile.Conf, mine: seq<int>)
    requires Usable(c) && IsOrder(mine) && c.used == [] && !Sound(MasksOf(c)) && !TagFree(c)
    ensures !SchemeOf(c, mine).Faithful()
  {
    var s := SchemeOf(c, mine);
    OkayZero(c);
    hide PackOf, LookOf, MkTagOf, OkayOf, IsOrder, MasksOf, Crc.Hash;
    var key := "";
    if MasksOf(c).here == 0 {
      key :| MkTagOf(c, Crc.Hash(key) / c.tsize) != 0;
      TagNotOnes(c, Crc.Hash(key) / c.tsize) by { HashBelow(key); DivBelow(Crc.Hash(key), c.tsize); }
      TagReadAsOffset(c, mine, MkTagOf(c, Crc.Hash(key) / c.tsize));
    } else {
      ZeroTag(c);
      ZeroLost(c, mine);
    }
    assert s.look(s.TagOf(s.hash(key)), s.pack(s.TagOf(s.hash(key)), 0)) != Candidate(0);
  }

  lemma HashBelow(key: string)
    ensures Crc.Hash(key) < 0x1_0000_0000
  {
    hide Crc.Sum;
  }

  lemma DivBelow(x: int, t: int)
    requires x >= 0 && t > 0
    ensures 0 <= x / t <= x
  {
    assert x == t * (x / t) + x % t;
    AtLeast(x / t, t);
  }

  lemma AtLeast(q: int, t: int)
    requires q >= 0 && t >= 1
    ensures t * q >= q
  {
  }

  /** The key "" has the tag 0. */
  lemma ZeroTag(c: DirFile.Conf)
    requires Usable(c)
    ensures Crc.Hash("") == 0 && 0 / c.tsize == 0 && MkTagOf(c, Crc.Hash("") / c.tsize) == 0
  {
    ZeroBits();
    ShlZero(c.tagshift);
    hide ToBits;
    assert Crc.Sum(0, "") == 0;
  }

  /** A tag is never all ones: that would take a number of 64 ones. */
  lemma TagNotOnes(c: DirFile.Conf, x: int)
    requires Usable(c) && 0 <= x < 0x1_0000_0000
    ensures MkTagOf(c, x) != ONES
  {
    hide ToBits;
    if MkTagOf(c, x) == ONES {
      OnesMasked(Shl(ToBits(x), c.tagshift), MasksOf(c).bits);
      ShlOnes(ToBits(x), c.tagshift);
      assert Shl(ToBits(x), 0) == ToBits(x);
      LongRoundTrip(x);
      MinusOne();
      LongRoundTrip(-1);
      assert false;
    }
  }

  lemma OnesMasked(v: bv64, b: bv64)
    requires v & b == ONES
    ensures v == ONES
  {
  }

  /** Where tag and enable bits meet, the offset 0 is lost under the tag 0. */
  lemma ZeroLost(c: DirFile.Conf, mine: seq<int>)
    requires Usable(c) && IsOrder(mine) && !Sound(MasksOf(c)) && MasksOf(c).here != 0
    ensures LookOf(c, mine, 0, PackOf(c, mine, 0, 0)) != Candidate(0)
  {
    var m := MasksOf(c);
    assert m.bits & m.here != 0;
    var tag := NotRecovered(m);
    ZeroBits();
    hide MapIn, MapOut, IsOrder, MasksOf, Pack, Unpack, ToBits, ToLong, Sound;
    MapInOut(Pack(m, 0, 0), c.bytemap, mine);
    match Unpack(m, 0, Pack(m, 0, 0)) {
      case Candidate(v) =>
        BitsRoundTrip(v);
        BitsRoundTrip(0);
        assert ToLong(0) == 0 by { LongRoundTrip(0); }
      case _ =>
    }
  }

  /** Without enable bits a tag is read as part of the offset. */
  lemma TagReadAsOffset(c: DirFile.Conf, mine: seq<int>, tag: bv64)
    requires Usable(c) && IsOrder(mine) && MasksOf(c).here == 0 && tag !in {0, ONES}
    ensures LookOf(c, mine, tag, PackOf(c, mine, tag, 0)) != Candidate(0)
  {
    ZeroBits();
    hide MapIn, MapOut, IsOrder, MasksOf, ToBits, ToLong;
    var m := MasksOf(c);
    assert Pack(m, tag, 0) == Bias(tag) by { BareTag(m, tag); }
    MapInOut(Pack(m, tag, 0), c.bytemap, mine);
    Unbiased(tag);
    BareTag(m, tag);
    BitsRoundTrip(tag);
  }

  lemma OkayZero(c: DirFile.Conf)
    requires Usable(c)
    ensures OkayOf(c, 0)
  {
    ZeroBits();
    hide ToBits;
  }

  lemma ZeroBits()
    ensures ToBits(0) == 0 && ToBits(1) == 1
  {
    assert FromNat(0) == 0;
    assert FromNat(1) == Double(FromNat(0)) | 1;
  }

  /** Without tags every offset can be stored. */
  lemma NoTagsOkay(c: DirFile.Conf, mine: seq<int>, v: int)
    requires Usable(c) && IsOrder(mine) && MasksOf(c) == NO_TAGS && 0 <= v < TWO63
    ensures SchemeOf(c, mine).okay(v)
  {
    hide ToBits;
    assert OkayOf(c.(used := []), v) by { NoBits(ToBits(v), 0); }
  }

  /** The masks a new database is asked to have: the default ones, none, or tag bits where the mask has ones and enable
      bits just above them. */
  function FreshMasks(tagmask: int, shift: nat): Masks {
    var low := tagmask % 0x1_0000_0000;
    if low == 1 then NO_TAGS
    else
      var bits: bv64 := if low == 0 then 0x7f00_0000 else ToBits(tagmask);
      Masks(bits, NextBits(bits), shift)
  }

  /** The masks in numbers: bits 24 to 30 below the enable bit 31; none at all; or those of the mask itself below the
      bits that follow its runs of ones. */
  lemma FreshMasksAre(tagmask: int, shift: nat)
    ensures tagmask % 0x1_0000_0000 == 0 ==> FreshMasks(tagmask, 24) == DEFAULT_MASKS
    ensures tagmask % 0x1_0000_0000 == 1 ==> FreshMasks(tagmask, shift) == Masks(0, 0, 0)
    ensures tagmask % 0x1_0000_0000 > 1 ==>
      FreshMasks(tagmask, shift) == Masks(ToBits(tagmask), (ToBits(tagmask) << 1) & !ToBits(tagmask), shift)
  {
    hide ToBits;
    assert NextBits(0x7f00_0000) == 0x8000_0000;
  }

  /** The masks whose ones reach up to the sign bit without a gap: -1, -2, -4, and so on down to -2^31. */
  predicate Gapless(tagmask: int) {
    exists k: nat :: k < 32 && tagmask == -Pow2(k)
  }

  /** dbzfresh(): the tag fields of a new configuration; the switch looks at the low 32 bits of tagmask only. */
  method FreshTags(c: DirFile.Conf, tagmask: int) returns (r: DirFile.Conf)
    requires c.tagenb == 0x80 && c.tagmask == 0x7f && c.tagshift == 24 && IsLong(tagmask)
    ensures r == c.(tagenb := r.tagenb, tagmask := r.tagmask, tagshift := r.tagshift)
    ensures IsLong(r.tagenb) && IsLong(r.tagmask) && IsLong(r.tagshift) && 0 <= r.tagshift
    ensures MasksOf(r) == FreshMasks(tagmask, r.tagshift)
    ensures tagmask % 0x1_0000_0000 == 0 ==> r == c
    ensures tagmask % 0x1_0000_0000 == 1 ==> r.tagenb == r.tagmask == r.tagshift == 0
    ensures tagmask % 0x1_0000_0000 > 1 ==> r.tagmask % 2 == 1 && r.tagmask * Pow2(r.tagshift) == tagmask
    ensures Sound(MasksOf(r)) <==> !Gapless(tagmask)
    ensures Gapless(tagmask) ==> r.tagmask == -1 && r.tagenb == 0 && r.tagshift < 32
  {
    hide ToBits, ToLong, NextBits, Sound, MasksOf, Shl, Gapless;
    var low := tagmask % 0x1_0000_0000;
    if low <= 1 {
      GaplessLow(tagmask);
    }
    if low == 0 {
      DefaultSound(c);
      return c;
    }
    if low == 1 {
      r := c.(tagenb := 0, tagmask := 0, tagshift := 0);
      NoTagsSound(r);
      return;
    }
    var m, shift := StripZeros(tagmask);
    r := c.(tagenb := ToLong(NextBits(ToBits(m))), tagmask := m, tagshift := shift);
    FreshTagsMasks(r, tagmask, m, shift);
    GaplessMask(tagmask, m, shift);
    if m == -1 { NoEnable(); }
  }

  lemma FreshTagsMasks(c: DirFile.Conf, mask: int, m: int, shift: nat)
    requires IsLong(mask) && mask != 0 && IsLong(m) && m % 2 == 1 && Shl(ToBits(m), shift) == ToBits(mask)
    requires NextBits(ToBits(m)) == 0 <==> NextBits(ToBits(mask)) == 0
    requires c.tagenb == ToLong(NextBits(ToBits(m))) && c.tagmask == m && c.tagshift == shift
    ensures MasksOf(c) == Masks(ToBits(mask), NextBits(ToBits(mask)), shift)
    ensures Sound(MasksOf(c)) <==> m != -1
  {
    hide Sound, NextBits, ToBits, ToLong, Shl;
    LongRoundTrip(mask);
    LongRoundTrip(0);
    FreshSound(ToBits(mask), shift) by { assert ToBits(mask) != 0 by { ZeroBits(); } }
    OddMask(m);
    BitsRoundTrip(NextBits(ToBits(m)));
    ShlNextBits(ToBits(m), shift);
  }

  /** The masks without a gap are those with odd part -1. */
  lemma GaplessMask(tagmask: int, m: int, shift: nat)
    requires m % 2 == 1 && m * Pow2(shift) == tagmask && tagmask % 0x1_0000_0000 != 0
    ensures m == -1 <==> Gapless(tagmask)
    ensures m == -1 ==> shift < 32
  {
    if m == -1 && shift >= 32 {
      Pow2Big(shift);
    }
    if Gapless(tagmask) {
      var k: nat :| k < 32 && tagmask == -Pow2(k);
      OddPart(m, shift, k);
    }
  }

  lemma NoEnable()
    ensures ToLong(NextBits(ToBits(-1))) == 0
  {
    hide ToBits, ToLong;
    OddMask(-1);
    ZeroBits();
    LongRoundTrip(0);
  }

  // ------------------------------------------------------------------ tags of the masks without a gap

  lemma {:induction false} ShlBits(x: int, k: nat)
    requires x >= 0 && x * Pow2(k) < TWO63
    ensures Shl(ToBits(x), k) == ToBits(x * Pow2(k))
    decreases k
  {
    hide ToBits, Double;
    if k == 0 {
      assert x * Pow2(0) == x;
    } else {
      var y := x * Pow2(k - 1);
      assert x * Pow2(k) == 2 * y && y >= 0;
      ShlBits(x, k - 1);
      HalfBits(2 * y);
      NextBitsHalf(ToBits(2 * y));
    }
  }

  lemma {:induction false} ShlMasked(v: bv64, w: bv64, k: nat)
    ensures And(Shl(v, k), Shl(w, k)) == Shl(And(v, w), k)
    decreases k
  {
    hide Double, And;
    if k > 0 {
      ShlMasked(v, w, k - 1);
      DoubleMasked(Shl(v, k - 1), Shl(w, k - 1));
    }
  }

  lemma DoubleMasked(v: bv64, w: bv64)
    ensures And(Double(v), Double(w)) == Double(And(v, w))
  {
  }

  lemma AllMasked(v: bv64)
    ensures And(v, ONES) == v
  {
  }

  /** Under a mask without a gap a number is its own tag, shifted. */
  lemma GaplessShifted(c: DirFile.Conf, x: int)
    requires Usable(c) && c.tagmask == -1
    ensures MkTagOf(c, x) == Shl(ToBits(x), c.tagshift)
  {
    hide ToBits, Shl, And;
    MinusOne();
    TagIsAnd(c, x);
    ShlMasked(ToBits(x), ONES, c.tagshift);
    AllMasked(ToBits(x));
  }

  lemma TagIsAnd(c: DirFile.Conf, x: int)
    requires Usable(c)
    ensures MkTagOf(c, x) == And(Shl(ToBits(x), c.tagshift), Shl(ToBits(c.tagmask), c.tagshift))
  {
    hide ToBits, Shl, And;
  }

  /** ... and so is not 0, if it is small. */
  lemma GaplessTag(c: DirFile.Conf, x: int)
    requires Usable(c) && c.tagmask == -1 && c.tagshift < 32 && 0 <= x < 0x8000_0000
    ensures MkTagOf(c, x) == 0 <==> x == 0
  {
    var k := c.tagshift;
    hide ToBits, ToLong, Shl, MkTagOf, Pow2;
    Pow2Small(k, 31);
    Pow2Word();
    Below(x, Pow2(k));
    GaplessShifted(c, x);
    ShlBits(x, k);
    LongRoundTrip(x * Pow2(k));
    LongRoundTrip(0);
    ZeroBits();
  }

  lemma Below(x: int, p: int)
    requires 0 <= x < 0x8000_0000 && 0 < p <= 0x8000_0000
    ensures 0 <= x * p < TWO63 && (x * p == 0 <==> x == 0)
  {
    assert x * p <= x * 0x8000_0000;
  }

  /** A hash takes 31 bits, and no fewer. */
  lemma HashSmall(key: string)
    ensures Crc.Hash(key) <= Crc.LARGEST
  {
    hide Crc.Sum;
    Crc.Sum31(0, key);
    Crc.Small31(Crc.Sum(0, key));
  }

  /** With such a mask no key has a tag exactly when the table is at least as large as the range of the hash. */
  lemma GaplessTagFree(c: DirFile.Conf)
    requires Usable(c) && c.tagmask == -1 && c.tagenb == 0 && c.tagshift < 32
    ensures MasksOf(c).here == 0
    ensures TagFree(c) <==> c.tsize > Crc.LARGEST
  {
    hide MasksOf, Crc.Hash, MkTagOf;
    NoHere(c);
    if c.tsize > Crc.LARGEST {
      AllUntagged(c);
    } else {
      SomeTagged(c);
    }
  }

  lemma AllUntagged(c: DirFile.Conf)
    requires Usable(c) && c.tagmask == -1 && c.tagshift < 32 && c.tsize > Crc.LARGEST
    ensures forall key :: MkTagOf(c, Crc.Hash(key) / c.tsize) == 0
  {
    hide Crc.Hash, MkTagOf;
    forall key ensures MkTagOf(c, Crc.Hash(key) / c.tsize) == 0 {
      HashSmall(key);
      GaplessTag(c, 0);
    }
  }

  lemma SomeTagged(c: DirFile.Conf)
    requires Usable(c) && c.tagmask == -1 && c.tagshift < 32 && c.tsize <= Crc.LARGEST
    ensures MkTagOf(c, Crc.Hash(Crc.DIGITS + ['\0']) / c.tsize) != 0
  {
    hide Crc.Hash, MkTagOf;
    Crc.DigitsHash();
    TagOfLargest(c);
  }

  lemma NoHere(c: DirFile.Conf)
    requires Usable(c) && c.tagenb == 0
    ensures MasksOf(c).here == 0
  {
    ZeroBits();
    ShlZero(c.tagshift);
    hide ToBits, Shl;
  }

  lemma TagOfLargest(c: DirFile.Conf)
    requires Usable(c) && c.tagmask == -1 && c.tagshift < 32 && c.tsize <= Crc.LARGEST
    ensures MkTagOf(c, Crc.LARGEST / c.tsize) != 0
  {
    DivBelow(Crc.LARGEST, c.tsize);
    assert Crc.LARGEST / c.tsize >= 1;
    hide MkTagOf;
    GaplessTag(c, Crc.LARGEST / c.tsize);
  }

  lemma GaplessLow(tagmask: int)
    ensures Gapless(tagmask) ==> tagmask % 0x1_0000_0000 > 1
  {
    if Gapless(tagmask) {
      var k: nat :| k < 32 && tagmask == -Pow2(k);
      Pow2Small(k, 31);
      Pow2Word();
    }
  }

  lemma Pow2Word()
    ensures Pow2(31) == 0x8000_0000 && Pow2(32) == 0x1_0000_0000
  {
    assert Pow2(8) == 0x100;
    assert Pow2(16) == 0x1_0000;
    assert Pow2(24) == 0x100_0000;
  }

  lemma {:induction false} Pow2Small(k: nat, n: nat)
    requires k <= n
    ensures Pow2(k) <= Pow2(n)
  {
    if k < n { Pow2Small(k, n - 1); }
  }

  lemma {:induction false} Pow2Big(n: nat)
    requires n >= 32
    ensures Pow2(n) % 0x1_0000_0000 == 0
  {
    if n > 32 {
      Pow2Big(n - 1);
    } else {
      Pow2Word();
    }
  }

  lemma {:induction false} OddPart(m: int, a: nat, k: nat)
    requires m % 2 == 1 && m * Pow2(a) == -Pow2(k)
    ensures m == -1
  {
    if a > 0 {
      assert m * Pow2(a) == 2 * (m * Pow2(a - 1));
      if k > 0 { OddPart(m, a - 1, k - 1); }
    }
  }

  lemma NoTagsSound(c: DirFile.Conf)
    requires c.tagenb == 0 && c.tagmask == 0 && c.tagshift == 0
    ensures MasksOf(c) == NO_TAGS && Sound(MasksOf(c))
  {
  }

  lemma DefaultSound(c: DirFile.Conf)
    requires c.tagenb == 0x80 && c.tagmask == 0x7f && c.tagshift == 24
    ensures MasksOf(c) == Masks(0x7f00_0000, NextBits(0x7f00_0000), 24) && Sound(MasksOf(c))
  {
    assert ToBits(0x7f) == 0x7f;
    assert ToBits(0x80) == 0x80;
    hide ToBits;
    DefaultShift();
    assert NextBits(0x7f) == 0x80;
    hide Shl;
    ShlNextBits(0x7f, 24);
    FreshSound(0x7f00_0000, 24);
  }

  lemma DefaultShift()
    ensures Shl(0x7f, 24) == 0x7f00_0000
  {
    assert Shl(0x7f, 6) == 0x1fc0;
    assert Shl(0x7f, 12) == 0x7f000;
    assert Shl(0x7f, 18) == 0x1fc_0000;
  }
}
