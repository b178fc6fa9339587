/** How mbbsd/random.c fills a state array from a seed. */
module Seeding {
  import opened Feedback

  const M: int := 2147483647

  /** C's / and %, which truncate toward zero. */
  function CDiv(a: int, b: int): int
    requires b > 0
  {
    if a >= 0 then a / b else -((-a) / b)
  }

  function CMod(a: int, b: int): int
    requires b > 0
  {
    a - CDiv(a, b) * b
  }

  lemma CDivMod(a: int, b: int)
    requires b > 0
    ensures a == CDiv(a, b) * b + CMod(a, b) && -b < CMod(a, b) < b
    ensures a >= 0 ==> CMod(a, b) >= 0 && CDiv(a, b) >= 0
    ensures a <= 0 ==> CMod(a, b) <= 0 && CDiv(a, b) <= 0
  {
  }

  /** One step of __srandom_r(): the word that follows. */
  function SchrageStep(word: int): int {
    var hi, lo := CDiv(word, 127773), CMod(word, 127773);
    var w := 16807 * lo - 2836 * hi;
    if w < 0 then w + M else w
  }

  /** The step multiplies by 16807 modulo 2147483647, with no value on the way outside 32 bits: for every unsigned seed,
      and also where long has 32 bits and the seed reads as negative. */
  lemma SchrageExact(word: int)
    requires -TWO31 <= word < TWO32
    ensures SchrageStep(word) == (16807 * word) % M
    ensures IsInt32(16807 * CMod(word, 127773)) && IsInt32(2836 * CDiv(word, 127773))
    ensures IsInt32(16807 * CMod(word, 127773) - 2836 * CDiv(word, 127773)) && IsInt32(SchrageStep(word))
  {
    CDivMod(word, 127773);
    var hi, lo, w := CDiv(word, 127773), CMod(word, 127773), SchrageStep(word);
    assert 0 <= w < M;
    var q := if 16807 * lo - 2836 * hi < 0 then hi - 1 else hi;
    assert 16807 * word == M * q + w;
    Unique(16807 * word, M, q, w);
  }

  /** The i-th word written from a seed. */
  function Lehmer(seed: int, i: nat): int {
    if i == 0 then seed else (16807 * Lehmer(seed, i - 1)) % M
  }

  lemma StepKeepsNonzero(x: int)
    ensures (16807 * x) % M == 0 <==> x % M == 0
  {
    var q := (16807 * x) / M;
    if (16807 * x) % M == 0 {
      // 16807 * 1407677000 == 1 + 11017 * M
      assert x == M * (1407677000 * q - 11017 * x);
      Unique(x, M, 1407677000 * q - 11017 * x, 0);
    } else if x % M == 0 {
      Unique(16807 * x, M, 16807 * (x / M), 0);
      assert false;
    }
  }

  /** A word after the first is 0 exactly when the seed is a multiple of 2147483647: of the three such 32-bit seeds the
      code replaces only 0. */
  lemma {:induction false} ZeroWords(seed: int, i: nat)
    requires i >= 1
    ensures 0 <= Lehmer(seed, i) < M && (Lehmer(seed, i) == 0 <==> seed % M == 0)
    decreases i
  {
    StepKeepsNonzero(Lehmer(seed, i - 1));
    if i > 1 {
      ZeroWords(seed, i - 1);
      SmallMod(Lehmer(seed, i - 1));
    }
  }

  lemma SmallMod(x: int)
    requires 0 <= x < M
    ensures x % M == x
  {
  }

  /** The first n words written from a seed. */
  function SeedWords(seed: int, n: nat): (s: seq<int>)
    ensures |s| == n && forall i :: 0 <= i < n ==> s[i] == Wrap32(Lehmer(seed, i))
  {
    if n == 0 then [] else SeedWords(seed, n - 1) + [Wrap32(Lehmer(seed, n - 1))]
  }

  /** A zero seed is replaced by 1. */
  function FirstWord(seed: int): int {
    if seed == 0 then 1 else seed
  }

  function WarmUp(kind: int): (n: nat)
    requires 0 <= kind < MAX_TYPES
  {
    10 * DEGREES[kind]
  }

  function Unwarmed(kind: int, seed: int): (g: Gen)
    requires 0 <= kind < MAX_TYPES
    ensures g.Valid()
  {
    var first := FirstWord(seed);
    if kind == 0 then Lcg(Wrap32(first)) else Ring(kind, SeedWords(first, DEGREES[kind]), 0)
  }

  /** The generator a seed stands for. */
  function Seeded(kind: int, seed: int): (g: Gen)
    requires 0 <= kind < MAX_TYPES
    ensures g.Valid()
  {
    Unwarmed(kind, seed).After(WarmUp(kind))
  }

  /** The warm-up ends with the rear cursor where it started. */
  lemma WarmUpReturns(kind: int, seed: int)
    requires 1 <= kind < MAX_TYPES
    ensures Seeded(kind, seed).Ring? && Seeded(kind, seed).kind == kind && Seeded(kind, seed).rear == 0
  {
    RearAfter(Unwarmed(kind, seed), WarmUp(kind));
    TenTimes(kind);
  }

  lemma TenTimes(kind: int)
    requires 1 <= kind < MAX_TYPES
    ensures WarmUp(kind) % DEGREES[kind] == 0
  {
    Unique(WarmUp(kind), DEGREES[kind], 10, 0);
  }

  /** What a seed turns into, in numbers: a zero seed counts as 1, each word is 16807 times the one before, modulo
      2147483647, and a ring is then drawn from ten times its degree. */
  lemma SeededIs(kind: int, seed: int)
    requires 0 <= kind < MAX_TYPES
    ensures var first := if seed == 0 then 1 else seed;
      if kind == 0 then Seeded(kind, seed) == Lcg(Wrap32(first))
      else
        && Ring(kind, SeedWords(first, DEGREES[kind]), 0).Valid()
        && Seeded(kind, seed) == Ring(kind, SeedWords(first, DEGREES[kind]), 0).After(10 * DEGREES[kind])
  {
    hide Wrap32, SeedWords;
    if kind == 0 { assert WarmUp(0) == 0; }
  }

  lemma SeedWordsAre(seed: int, n: nat)
    requires 1 <= n && 0 <= seed < TWO32
    ensures SeedWords(seed, n)[0] == Wrap32(seed)
    ensures n >= 2 ==> SeedWords(seed, n)[1] == (16807 * seed) % 2147483647
    ensures forall i :: 1 <= i < n - 1 ==> SeedWords(seed, n)[i + 1] == (16807 * SeedWords(seed, n)[i]) % 2147483647
  {
    hide Wrap32;
    forall i | 1 <= i < n ensures SeedWords(seed, n)[i] == Lehmer(seed, i) {
      ZeroWords(seed, i);
      NotWrapped(Lehmer(seed, i));
    }
  }

  lemma NotWrapped(x: int)
    requires 0 <= x < M
    ensures Wrap32(x) == x
  {
  }

  /** Drawing alike, two rings that end alike began alike. */
  lemma {:induction false} AfterInjective(g: Gen, h: Gen, n: nat)
    requires g.Ring? && h.Ring? && g.Valid() && h.Valid() && g.After(n) == h.After(n)
    ensures g == h
    decreases n
  {
    hide Gen.Valid, Gen.Next;
    if n > 0 {
      RingAfter(g, n - 1);
      RingAfter(h, n - 1);
      NextInjective(g.After(n - 1), h.After(n - 1));
      AfterInjective(g, h, n - 1);
    }
  }

  lemma RingAfter(g: Gen, n: nat)
    requires g.Ring? && g.Valid()
    ensures g.After(n).Ring? && g.After(n).Valid()
  {
    hide Gen.Valid;
    RearAfter(g, n);
  }

  /** Different seeds, but for 0 and 1, never give the same state of any type. */
  lemma SeedsDiffer(kind: int, seed: int, other: int)
    requires 0 <= kind < MAX_TYPES && 0 < seed < TWO32 && 0 < other < TWO32 && seed != other
    ensures Seeded(kind, seed) != Seeded(kind, other)
  {
    hide Gen.Valid, Gen.After, Seeded, SeedWords, Wrap32;
    SeededIs(kind, seed);
    SeededIs(kind, other);
    WrapDiffers(seed, other);
    if kind != 0 {
      var n := DEGREES[kind];
      var g, h := Ring(kind, SeedWords(seed, n), 0), Ring(kind, SeedWords(other, n), 0);
      SeedWordsAre(seed, n);
      SeedWordsAre(other, n);
      if g.After(10 * n) == h.After(10 * n) { AfterInjective(g, h, 10 * n); }
    }
  }

  lemma WrapDiffers(a: int, b: int)
    requires 0 <= a < TWO32 && 0 <= b < TWO32 && a != b
    ensures Wrap32(a) != Wrap32(b)
  {
  }
}
