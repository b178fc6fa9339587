/** The hash of a key: `crcinit` and `hash` of innbbsd/dbz.c. */
module Crc {

  const POLY: bv32 := 0x4800_0000

  /** 1 << j and POLY >> j */
  const BITS: seq<bv32> := [1, 2, 4, 8, 16, 32, 64]
  const POLYS: seq<bv32> := [POLY, POLY >> 1, POLY >> 2, POLY >> 3, POLY >> 4, POLY >> 5, POLY >> 6]

  function Xor(a: bv32, b: bv32): bv32 { a ^ b }

  /** What bit j of i contributes to its table entry. */
  function Term(i: bv32, j: nat): bv32
    requires j < 7
  {
    if i & BITS[j] != 0 then POLYS[j] else 0
  }

  function EntryFrom(i: bv32, j: nat): bv32
    requires j <= 7
    decreases 7 - j
  {
    if j == 7 then 0 else Xor(EntryFrom(i, j + 1), Term(i, j))
  }

  /** CrcTable[i] */
  function Entry(i: bv32): bv32 { EntryFrom(i, 0) }

  /** The inner loop of crcinit(). */
  method TableEntry(i: bv32) returns (sum: bv32)
    ensures sum == Entry(i)
  {
    hide Term, Xor;
    sum := 0;
    var j := 6;
    while j >= 0
      invariant -1 <= j <= 6 && sum == EntryFrom(i, j + 1)
    {
      if i & BITS[j] != 0 {
        TermSet(i, j);
        sum := Xor(sum, POLYS[j]);
      } else {
        TermClear(i, j, sum);
      }
      j := j - 1;
    }
  }

  lemma TermSet(i: bv32, j: nat)
    requires j < 7 && i & BITS[j] != 0
    ensures Term(i, j) == POLYS[j]
  {
  }

  lemma TermClear(i: bv32, j: nat, sum: bv32)
    requires j < 7 && i & BITS[j] == 0
    ensures Xor(sum, Term(i, j)) == sum
  {
  }

  /** An entry written out bit by bit. */
  function Written(i: bv32): bv32 {
    (if i & 64 != 0 then 0x0120_0000 else 0) ^ (if i & 32 != 0 then 0x0240_0000 else 0)
    ^ (if i & 16 != 0 then 0x0480_0000 else 0) ^ (if i & 8 != 0 then 0x0900_0000 else 0)
    ^ (if i & 4 != 0 then 0x1200_0000 else 0) ^ (if i & 2 != 0 then 0x2400_0000 else 0)
    ^ (if i & 1 != 0 then 0x4800_0000 else 0)
  }

  lemma EntryWritten(i: bv32)
    ensures Entry(i) == Written(i)
  {
    hide Term;
    assert EntryFrom(i, 7) == 0;
    hide Xor;
    assert EntryFrom(i, 5) == Xor(EntryFrom(i, 6), Term(i, 5));
    assert EntryFrom(i, 4) == Xor(EntryFrom(i, 5), Term(i, 4));
    assert EntryFrom(i, 3) == Xor(EntryFrom(i, 4), Term(i, 3));
    assert EntryFrom(i, 2) == Xor(EntryFrom(i, 3), Term(i, 2));
    assert EntryFrom(i, 1) == Xor(EntryFrom(i, 2), Term(i, 1));
    WrittenTerms(i);
  }

  lemma WrittenTerms(i: bv32)
    ensures Written(i)
         == Xor(Xor(Xor(Xor(Xor(Xor(Xor(0, Term(i, 6)), Term(i, 5)), Term(i, 4)), Term(i, 3)), Term(i, 2)), Term(i, 1)),
                Term(i, 0))
  {
  }

  function Mix(sum: bv32, entry: bv32): bv32 { (sum >> 7) ^ entry }

  /** One character of the loop in hash(). */
  function Step(sum: bv32, c: bv32): bv32 { Mix(sum, Written((sum ^ c) & 0x7f)) }

  lemma StepKeeps31(sum: bv32, c: bv32)
    requires sum & 0x8000_0000 == 0
    ensures Step(sum, c) & 0x8000_0000 == 0
  {
  }

  /** The table index of a step, read off the seven high bits of its result. */
  function Index(y: bv32): bv32 {
    var low := ((y >> 30) & 1) | ((y >> 28) & 2) | ((y >> 26) & 4) | ((y >> 24) & 8) | ((y >> 22) & 16)
      | ((y >> 20) & 32) | ((y >> 18) & 64);
    low ^ ((low << 3) & 0x78) ^ ((low << 6) & 0x40)
  }

  lemma IndexOfWritten(i: bv32, x: bv32)
    requires i & 0x7f == i && x & 0xFF00_0000 == 0
    ensures Index(x ^ Written(i)) == i
  {
  }

  /** The sum before a step: nothing is forgotten. */
  function Unstep(y: bv32, c: bv32): bv32 {
    ((y ^ Written(Index(y))) << 7) | ((Index(y) ^ c) & 0x7f)
  }

  lemma SmallParts(sum: bv32, c: bv32)
    requires sum & 0x8000_0000 == 0
    ensures ((sum ^ c) & 0x7f) & 0x7f == (sum ^ c) & 0x7f && (sum >> 7) & 0xFF00_0000 == 0
  {
  }

  lemma IndexOfStep(sum: bv32, c: bv32)
    requires sum & 0x8000_0000 == 0
    ensures Index(Step(sum, c)) == (sum ^ c) & 0x7f
  {
    hide Index, Written;
    SmallParts(sum, c);
    IndexOfWritten((sum ^ c) & 0x7f, sum >> 7);
  }

  lemma StepUndone(sum: bv32, c: bv32)
    requires sum & 0x8000_0000 == 0 && c & 0x7f == c
    ensures Unstep(Step(sum, c), c) == sum
  {
    hide Index, Written;
    IndexOfStep(sum, c);
    var i := (sum ^ c) & 0x7f;
    Split(sum, c, Written(i));
  }

  lemma Split(sum: bv32, c: bv32, w: bv32)
    requires sum & 0x8000_0000 == 0 && c & 0x7f == c
    ensures ((((sum >> 7) ^ w) ^ w) << 7) | ((((sum ^ c) & 0x7f) ^ c) & 0x7f) == sum
  {
  }

  // ------------------------------------------------------------------ whole keys

  /** The word with a given unsigned value. */
  function FromNat(x: nat): (w: bv32)
    requires x < 0x1_0000_0000
    ensures w as int == x
  {
    if x == 0 then 0
    else
      var half := FromNat(x / 2);
      Doubled(half);
      if x % 2 == 0 then half << 1 else (half << 1) | 1
  }

  lemma Doubled(w: bv32)
    ensures w & 0x8000_0000 != 0 ==> w as int >= 0x8000_0000
    ensures w & 0x8000_0000 == 0 ==> (w << 1) as int == w as int * 2 && ((w << 1) | 1) as int == w as int * 2 + 1
  {
  }

  lemma Small31(w: bv32)
    requires w & 0x8000_0000 == 0
    ensures (w as int) < 0x8000_0000
  {
    TopAdded(w);
  }

  lemma TopAdded(w: bv32)
    requires w & 0x8000_0000 == 0
    ensures (w | 0x8000_0000) as int == w as int + 0x8000_0000
  {
  }

  lemma SevenBits(w: bv32)
    ensures w & 0x7f != w ==> w as int >= 128
  {
  }

  /** A character as the hash sees it: its low seven bits. */
  function Code(c: char): bv32 { FromNat(c as int % 128) }

  /** The loop of hash(), from a given sum on. */
  function Sum(sum: bv32, s: string): bv32
    decreases |s|
  {
    if s == [] then sum else Sum(Step(sum, Code(s[0])), s[1..])
  }

  function Hash(key: string): (h: int)
    ensures 0 <= h
  {
    Sum(0, key) as int
  }

  /** hash(), with the table as crcinit() leaves it. */
  method HashLoop(key: string) returns (h: int)
    ensures h == Hash(key)
  {
    hide Step, Code;
    var sum: bv32 := 0;
    var n := 0;
    while n < |key|
      invariant 0 <= n <= |key| && Sum(sum, key[n..]) == Sum(0, key)
    {
      var entry := TableEntry((sum ^ Code(key[n])) & 0x7f);
      StepByTable(sum, Code(key[n]), entry);
      assert key[n..][1..] == key[n + 1..];
      sum := Mix(sum, entry);
      n := n + 1;
    }
    h := sum as int;
  }

  lemma StepByTable(sum: bv32, c: bv32, entry: bv32)
    requires entry == Entry((sum ^ c) & 0x7f)
    ensures Mix(sum, entry) == Step(sum, c)
  {
    hide Entry, Written, Mix;
    EntryWritten((sum ^ c) & 0x7f);
  }

  lemma {:induction false} Sum31(sum: bv32, s: string)
    requires sum & 0x8000_0000 == 0
    ensures Sum(sum, s) & 0x8000_0000 == 0
    decreases |s|
  {
    hide Step, Code;
    if s != [] {
      StepKeeps31(sum, Code(s[0]));
      Sum31(Step(sum, Code(s[0])), s[1..]);
    }
  }

  /** From different sums the same text leads to different sums. */
  lemma {:induction false} SumInjective(s: bv32, t: bv32, text: string)
    requires s & 0x8000_0000 == 0 && t & 0x8000_0000 == 0 && s != t
    ensures Sum(s, text) != Sum(t, text)
    decreases |text|
  {
    hide Step, Code, Unstep;
    if text != [] {
      var c := Code(text[0]);
      CodeSeven(text[0]);
      StepUndone(s, c);
      StepUndone(t, c);
      StepKeeps31(s, c);
      StepKeeps31(t, c);
      SumInjective(Step(s, c), Step(t, c), text[1..]);
    }
  }

  lemma CodeSeven(c: char)
    ensures Code(c) & 0x7f == Code(c)
  {
    hide FromNat;
    SevenBits(Code(c));
  }

  lemma {:induction false} SumConcat(sum: bv32, a: string, b: string)
    ensures Sum(sum, a + b) == Sum(Sum(sum, a), b)
    decreases |a|
  {
    if a == [] {
      assert a + b == b;
    } else {
      assert (a + b)[1..] == a[1..] + b;
      SumConcat(Step(sum, Code(a[0])), a[1..], b);
    }
  }

  /** Two keys that differ in a single character (in its low seven bits) never collide. */
  lemma OneCharacterSeen(a: string, c: char, d: char, b: string)
    requires c as int % 128 != d as int % 128
    ensures Hash(a + [c] + b) != Hash(a + [d] + b)
  {
    hide Step, Code;
    var s := Sum(0, a);
    Sum31(0, a);
    assert Code(c) != Code(d) by { CodesDiffer(c, d); }
    StepSees(s, c, d);
    StepKeeps31(s, Code(c));
    StepKeeps31(s, Code(d));
    HashParts(a, c, b);
    HashParts(a, d, b);
    SumInjective(Step(s, Code(c)), Step(s, Code(d)), b);
    SameInt(Sum(0, a + [c] + b), Sum(0, a + [d] + b));
  }

  lemma HashParts(a: string, c: char, b: string)
    ensures Sum(0, a + [c] + b) == Sum(Step(Sum(0, a), Code(c)), b)
  {
    hide Step, Code;
    SumConcat(0, a + [c], b);
    SumConcat(0, a, [c]);
    assert Sum(Sum(0, a), [c]) == Step(Sum(0, a), Code(c)) by { assert [c][1..] == []; }
  }

  lemma CodesDiffer(c: char, d: char)
    requires c as int % 128 != d as int % 128
    ensures Code(c) != Code(d)
  {
    hide FromNat;
  }

  lemma StepSees(sum: bv32, c: char, d: char)
    requires sum & 0x8000_0000 == 0 && Code(c) != Code(d)
    ensures Step(sum, Code(c)) != Step(sum, Code(d))
  {
    hide Step, Code, Index;
    CodeSeven(c);
    CodeSeven(d);
    IndexOfStep(sum, Code(c));
    IndexOfStep(sum, Code(d));
    XorSeen(sum, Code(c), Code(d));
  }

  lemma XorSeen(sum: bv32, c: bv32, d: bv32)
    requires c & 0x7f == c && d & 0x7f == d && c != d
    ensures (sum ^ c) & 0x7f != (sum ^ d) & 0x7f
  {
  }

  lemma SameInt(s: bv32, t: bv32)
    requires s != t
    ensures s as int != t as int
  {
    assert (s as int) as bv32 == s && (t as int) as bv32 == t;
  }

  // ------------------------------------------------------------------ keys that collide

  /** A character above the ASCII ones whose low seven bits are those of the sum. */
  function PadChar(sum: bv32): (c: char)
    ensures 128 <= c as int < 256 && Code(c) == sum & 0x7f
  {
    var low := (sum & 0x7f) as int;
    LowSeven(sum);
    assert Code((128 + low) as char) == FromNat(low) by { PadRem(low); }
    SameValue(FromNat(low), sum & 0x7f);
    (128 + low) as char
  }

  lemma LowSeven(sum: bv32)
    ensures (sum & 0x7f) as int < 128
  {
  }

  lemma PadRem(low: int)
    requires 0 <= low < 128
    ensures (128 + low) % 128 == low
  {
  }

  lemma SameValue(s: bv32, t: bv32)
    requires s as int == t as int
    ensures s == t
  {
    if s != t { SameInt(s, t); }
  }

  /** Characters that shift n times seven bits of the sum out. */
  function Pad(sum: bv32, n: nat): (t: string)
    ensures |t| == n && forall i :: 0 <= i < n ==> 128 <= t[i] as int < 256
  {
    if n == 0 then "" else [PadChar(sum)] + Pad(sum >> 7, n - 1)
  }

  lemma ShiftStep(sum: bv32)
    ensures Step(sum, sum & 0x7f) == sum >> 7
  {
  }

  lemma PadStep(sum: bv32, n: nat)
    requires n > 0
    ensures Sum(sum, Pad(sum, n)) == Sum(sum >> 7, Pad(sum >> 7, n - 1))
  {
    hide Step, Code, PadChar;
    ShiftStep(sum);
    assert Pad(sum, n)[1..] == Pad(sum >> 7, n - 1);
  }

  function Shifted(sum: bv32, n: nat): bv32
    decreases n
  {
    if n == 0 then sum else Shifted(sum >> 7, n - 1)
  }

  lemma FiveShifts(sum: bv32)
    ensures Shifted(sum, 5) == 0
  {
    assert Shifted(sum, 5) == Shifted(sum >> 7, 4);
    assert Shifted(sum >> 7, 4) == Shifted((sum >> 7) >> 7, 3);
  }

  lemma {:induction false} PadShifts(sum: bv32, n: nat)
    ensures Sum(sum, Pad(sum, n)) == Shifted(sum, n)
    decreases n
  {
    hide Pad, Step;
    if n == 0 {
      PadNone(sum);
    } else {
      PadStep(sum, n);
      PadShifts(sum >> 7, n - 1);
    }
  }

  /** From every sum five characters lead to the sum 0. */
  lemma PadCancels(sum: bv32)
    ensures Sum(sum, Pad(sum, 5)) == 0
  {
    PadShifts(sum, 5);
    FiveShifts(sum);
  }

  lemma PadNone(sum: bv32)
    ensures Pad(sum, 0) == ""
  {
  }

  /** A text with five more characters that bring its sum to 0. */
  function Cancelled(t: string): (r: string)
    ensures |r| == |t| + 5 && t <= r && forall i :: |t| <= i < |r| ==> 128 <= r[i] as int < 256
  {
    t + Pad(Sum(0, t), 5)
  }

  /** So any two texts can be continued to collide: whatever follows, they hash alike. */
  lemma Collide(t: string, u: string, rest: string)
    ensures Hash(Cancelled(t) + rest) == Hash(Cancelled(u) + rest)
  {
    CancelledSum(t, rest);
    CancelledSum(u, rest);
  }

  lemma CancelledSum(t: string, rest: string)
    ensures Sum(0, Cancelled(t) + rest) == Sum(0, rest)
  {
    hide Step, Pad;
    PadCancels(Sum(0, t));
    SumConcat(0, t, Pad(Sum(0, t), 5));
    SumConcat(0, Cancelled(t), rest);
  }

  // ------------------------------------------------------------------ keys with the largest hash

  lemma CodeIs(c: char, w: bv32)
    requires w as int == c as int % 128
    ensures Code(c) == w
  {
    SameValue(FromNat(c as int % 128), w);
  }

  /** One character of a key, in numbers. */
  lemma SumNext(key: string, i: nat, sum: bv32, c: bv32, next: bv32)
    requires i < |key| && c as int == key[i] as int % 128 && Step(sum, c) == next
    ensures Sum(sum, key[i..]) == Sum(next, key[i + 1..])
  {
    hide Step, Code;
    CodeIs(key[i], c);
    assert key[i..][1..] == key[i + 1..];
  }

  lemma SumWhole(key: string, sum: bv32)
    ensures key[0..] == key && Sum(sum, key[|key|..]) == sum
  {
  }

  const LARGEST: int := 0x7FFF_FFFF
  const DIGITS: string := "7236808852"
  const MARKS: string := "/,):+!#+!"

  lemma DigitsHalf()
    ensures var key := DIGITS + ['\0']; Sum(0, key[0..]) == Sum(0x38802A11, key[5..])
  {
    hide Sum, Code;
    var key := DIGITS + ['\0'];
    SumNext(key, 0, 0x00000000, 0x37, 0x78C00000);
    SumNext(key, 1, 0x78C00000, 0x32, 0x22318000);
    SumNext(key, 2, 0x22318000, 0x33, 0x6A846300);
    SumNext(key, 3, 0x6A846300, 0x36, 0x301508C6);
    SumNext(key, 4, 0x301508C6, 0x38, 0x38802A11);
  }

  lemma DigitsHash()
    ensures Hash(DIGITS + ['\0']) == LARGEST
  {
    hide Sum, Code;
    var key := DIGITS + ['\0'];
    DigitsHalf();
    SumNext(key, 5, 0x38802A11, 0x30, 0x4A310054);
    SumNext(key, 6, 0x4A310054, 0x38, 0x18F46200);
    SumNext(key, 7, 0x18F46200, 0x38, 0x0FF1E8C4);
    SumNext(key, 8, 0x0FF1E8C4, 0x35, 0x4FFFE3D1);
    SumNext(key, 9, 0x4FFFE3D1, 0x32, 0x6FFFFFC7);
    SumNext(key, 10, 0x6FFFFFC7, 0x00, 0x7FFFFFFF);
    SumWhole(key, 0);
    SumWhole(key, 0x7FFF_FFFF);
  }

  lemma MarksHalf()
    ensures var key := MARKS + ['\0']; Sum(0, key[0..]) == Sum(0x48568DCD, key[5..])
  {
    hide Sum, Code;
    var key := MARKS + ['\0'];
    SumNext(key, 0, 0x00000000, 0x2F, 0x75400000);
    SumNext(key, 1, 0x75400000, 0x2C, 0x19AA8000);
    SumNext(key, 2, 0x19AA8000, 0x29, 0x43735500);
    SumNext(key, 3, 0x43735500, 0x3A, 0x2B46E6AA);
    SumNext(key, 4, 0x2B46E6AA, 0x2B, 0x48568DCD);
  }

  lemma MarksHash()
    ensures Hash(MARKS + ['\0']) == LARGEST
  {
    hide Sum, Code;
    var key := MARKS + ['\0'];
    MarksHalf();
    SumNext(key, 5, 0x48568DCD, 0x21, 0x18F0AD1B);
    SumNext(key, 6, 0x18F0AD1B, 0x23, 0x0FF1E15A);
    SumNext(key, 7, 0x0FF1E15A, 0x2B, 0x4FFFE3C2);
    SumNext(key, 8, 0x4FFFE3C2, 0x21, 0x6FFFFFC7);
    SumNext(key, 9, 0x6FFFFFC7, 0x00, 0x7FFFFFFF);
    SumWhole(key, 0);
    SumWhole(key, 0x7FFF_FFFF);
  }
}
