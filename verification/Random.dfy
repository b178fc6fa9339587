/** The generator as mbbsd/random.c runs it: cursors into a state array whose first word remembers its type and its rear
    cursor while another array is in use. */
module Random {
  import opened Feedback
  import opened Seeding

  const TYPE_0: int := 0

  /** The header word of an array of a given type with its rear cursor at a given place. */
  function Header(kind: int, rear: int): int {
    if kind == TYPE_0 then TYPE_0 else MAX_TYPES * rear + kind
  }

  /** Unpacking a header undoes packing it. */
  lemma HeaderUnpacked(kind: int, rear: int)
    requires 0 <= kind < MAX_TYPES && (kind != TYPE_0 ==> rear >= 0)
    ensures CMod(Header(kind, rear), MAX_TYPES) == kind
    ensures kind != TYPE_0 ==> CDiv(Header(kind, rear), MAX_TYPES) == rear
  {
  }

  lemma FreshHeader(kind: int, rear: int)
    requires kind != TYPE_0 ==> rear == 0
    ensures Header(kind, rear) == kind
  {
  }

  /** The generator in the words after the header. */
  function GenOf(a: seq<int>, kind: int, rear: int): Gen
    requires 0 <= kind < MAX_TYPES && |a| >= 2 && |a| > DEGREES[kind]
  {
    if kind == TYPE_0 then Lcg(a[1]) else Ring(kind, a[1..DEGREES[kind] + 1], rear)
  }

  /** The largest type that n bytes hold. */
  function TypeFor(n: nat): (kind: int)
    requires n >= 8
    ensures 0 <= kind < MAX_TYPES && 4 * (DEGREES[kind] + 1) <= n
    ensures kind < MAX_TYPES - 1 ==> n < 4 * (DEGREES[kind + 1] + 1)
  {
    if n >= 256 then 4 else if n >= 128 then 3 else if n >= 64 then 2 else if n >= 32 then 1 else 0
  }

  /** An array as initstate or setstate left it when it was last current. */
  predicate Saved(a: seq<int>) {
    |a| >= 2 && a[0] >= 0 &&
    var kind, rear := a[0] % MAX_TYPES, a[0] / MAX_TYPES;
    |a| > DEGREES[kind] && GenOf(a, kind, rear).Valid()
  }

  /** What such an array stands for. */
  function SavedGen(a: seq<int>): (g: Gen)
    requires Saved(a)
    ensures g.Valid()
  {
    GenOf(a, a[0] % MAX_TYPES, a[0] / MAX_TYPES)
  }

  lemma SavedHeader(a: seq<int>, kind: int, rear: int)
    requires 0 <= kind < MAX_TYPES && |a| >= 2 && |a| > DEGREES[kind] && GenOf(a, kind, rear).Valid()
    ensures var b := a[0 := Header(kind, rear)]; Saved(b) && SavedGen(b) == GenOf(a, kind, rear)
  {
    var b := a[0 := Header(kind, rear)];
    assert b[1..DEGREES[kind] + 1] == a[1..DEGREES[kind] + 1];
    hide Gen.Valid;
  }

  /** The header word tells the type and the rear cursor. */
  predicate HeaderCurrent(a: seq<int>, kind: int, rear: int)
    requires |a| > 0
  {
    a[0] >= 0 && a[0] % MAX_TYPES == kind && (kind != TYPE_0 ==> a[0] / MAX_TYPES == rear)
  }

  /** An array left without saving its cursor stands for its generator exactly when the header tells it anyway. */
  lemma LeftBehind(a: seq<int>, kind: int, rear: int)
    requires 0 <= kind < MAX_TYPES && |a| >= 2 && |a| > DEGREES[kind] && GenOf(a, kind, rear).Valid()
    ensures Saved(a) && SavedGen(a) == GenOf(a, kind, rear) <==> HeaderCurrent(a, kind, rear)
  {
    hide Gen.Valid;
  }

  /** A seeded array that gives n numbers and is then left by initstate, its header untouched since it was seeded, still
      stands for its generator exactly when the rear cursor has gone whole rounds: always for type 0, and otherwise when
      n is a multiple of the degree. One number is enough to lose it. */
  lemma LeftAfter(a: seq<int>, kind: int, rear: int, seed: int, n: nat)
    requires 0 <= kind < MAX_TYPES && |a| >= 2 && |a| > DEGREES[kind] && a[0] == kind
    requires GenOf(a, kind, rear) == Seeded(kind, seed).After(n)
    ensures kind == TYPE_0 ==> Saved(a) && SavedGen(a) == GenOf(a, kind, rear)
    ensures kind != TYPE_0 ==> (Saved(a) && SavedGen(a) == GenOf(a, kind, rear) <==> n % DEGREES[kind] == 0)
    ensures kind != TYPE_0 && n == 1 ==> !(Saved(a) && SavedGen(a) == GenOf(a, kind, rear))
  {
    hide Saved, SavedGen, Gen.Valid, Gen.After, Seeded;
    LeftBehind(a, kind, rear);
    if kind != TYPE_0 {
      WarmUpReturns(kind, seed);
      RearAfter(Seeded(kind, seed), n);
      assert rear == n % DEGREES[kind];
    }
  }

  /** The type and the cursors that a saved header gives. */
  lemma SavedCursors(a: seq<int>)
    requires Saved(a)
    ensures var kind, rear := CMod(a[0], MAX_TYPES), CDiv(a[0], MAX_TYPES);
      && 0 <= kind < MAX_TYPES && |a| > DEGREES[kind] && SavedGen(a) == GenOf(a, kind, rear)
      && (kind != TYPE_0 ==>
            DEGREES[kind] > 0 && CMod(rear + SEPS[kind], DEGREES[kind]) == (rear + SEPS[kind]) % DEGREES[kind])
  {
    hide Gen.Valid, GenOf;
    CDivMod(a[0], MAX_TYPES);
    Positive(a[0], MAX_TYPES);
    var kind, rear := a[0] % MAX_TYPES, a[0] / MAX_TYPES;
    if kind != TYPE_0 { Positive(rear + SEPS[kind], DEGREES[kind]); }
  }

  lemma Positive(a: int, b: int)
    requires a >= 0 && b > 0
    ensures CDiv(a, b) == a / b && CMod(a, b) == a % b
  {
  }

  /** A freshly filled array. */
  lemma Unstarted(a: seq<int>, kind: int, seed: int)
    requires 1 <= kind < MAX_TYPES && |a| > DEGREES[kind]
    requires a[1..DEGREES[kind] + 1] == SeedWords(FirstWord(seed), DEGREES[kind])
    ensures |a| >= 2 && GenOf(a, kind, 0) == Unwarmed(kind, seed) && GenOf(a, kind, 0).Valid()
    ensures SEPS[kind] == (0 + SEPS[kind]) % DEGREES[kind]
  {
  }

  /** ... and after the warm-up draws. */
  lemma WarmedUp(a: seq<int>, kind: int, rear: int, seed: int)
    requires 1 <= kind < MAX_TYPES && |a| >= 2 && |a| > DEGREES[kind]
    requires GenOf(a, kind, rear) == Unwarmed(kind, seed).After(10 * DEGREES[kind])
    ensures GenOf(a, kind, rear) == Seeded(kind, seed) && rear == 0
  {
    WarmUpReturns(kind, seed);
  }

  lemma UnstartedLcg(a: seq<int>, rear: int, seed: int)
    requires |a| >= 2 && a[1] == Wrap32(FirstWord(seed))
    ensures GenOf(a, TYPE_0, rear) == Seeded(TYPE_0, seed)
  {
  }

  /** Moving both cursors on, testing the rear one only if the front one did not wrap. */
  lemma CursorsOn(deg: int, sep: int, rear: int)
    requires 1 <= sep < deg && 0 <= rear < deg
    ensures var front := (rear + sep) % deg;
      var f := if front + 1 >= deg then 0 else front + 1;
      var r := if front + 1 < deg && rear + 1 >= deg then 0 else rear + 1;
      0 <= front < deg && r == (rear + 1) % deg && f == (r + sep) % deg
  {
    Mod2(rear + sep, deg);
    Mod2(rear + 1, deg);
    Mod2((rear + 1) % deg + sep, deg);
  }

  /** Storing the sum at the front cursor is the step of the ring. */
  lemma RingStep(a: seq<int>, kind: int, rear: int)
    requires 1 <= kind < MAX_TYPES && |a| >= 2 && |a| > DEGREES[kind] && GenOf(a, kind, rear).Valid()
    ensures 0 <= rear < DEGREES[kind] && 1 <= SEPS[kind] < DEGREES[kind]
    ensures var g := GenOf(a, kind, rear);
      && g.Front() == (rear + SEPS[kind]) % DEGREES[kind] && g.Sum() == Wrap32(a[g.Front() + 1] + a[rear + 1])
      && GenOf(a[g.Front() + 1 := g.Sum()], kind, (rear + 1) % DEGREES[kind]) == g.Next()
      && g.Draw() == (g.Sum() / 2) % TWO31
  {
    hide Wrap32;
    var g := GenOf(a, kind, rear);
    var f, deg := g.Front(), DEGREES[kind];
    assert a[f + 1 := g.Sum()][1..deg + 1] == a[1..deg + 1][f := g.Sum()];
  }

  /** The word the ring stores, and where its cursors go. */
  function RingWord(a: seq<int>, fptr: int, rptr: int): int
    requires 0 <= fptr && fptr + 1 < |a| && 0 <= rptr && rptr + 1 < |a|
  {
    Wrap32(a[fptr + 1] + a[rptr + 1])
  }

  function FrontOn(fptr: int, deg: int): int { if fptr + 1 >= deg then 0 else fptr + 1 }

  function RearOn(fptr: int, rptr: int, deg: int): int { if fptr + 1 < deg && rptr + 1 >= deg then 0 else rptr + 1 }

  /** A draw by cursors is a draw of the generator. */
  lemma RingDraw(a: seq<int>, kind: int, fptr: int, rptr: int)
    requires 1 <= kind < MAX_TYPES && |a| >= 2 && |a| > DEGREES[kind] && GenOf(a, kind, rptr).Valid()
    requires fptr == (rptr + SEPS[kind]) % DEGREES[kind]
    ensures 0 <= fptr && 0 <= rptr && fptr + 1 < |a| && rptr + 1 < |a|
    ensures var g, deg := GenOf(a, kind, rptr), DEGREES[kind];
      && g.Draw() == (RingWord(a, fptr, rptr) / 2) % TWO31
      && g.Next() == GenOf(a[fptr + 1 := RingWord(a, fptr, rptr)], kind, RearOn(fptr, rptr, deg))
      && FrontOn(fptr, deg) == (RearOn(fptr, rptr, deg) + SEPS[kind]) % deg
  {
    hide Gen.Valid, Gen.Next, Gen.Draw, GenOf, Wrap32;
    RingStep(a, kind, rptr);
    CursorsOn(DEGREES[kind], SEPS[kind], rptr);
  }

  lemma LcgStep(a: seq<int>, rear: int)
    requires |a| >= 2 && GenOf(a, TYPE_0, rear).Valid()
    ensures var g := GenOf(a, TYPE_0, rear);
      GenOf(a[1 := g.Draw()], TYPE_0, rear) == g.Next() && g.Draw() == (a[1] * 1103515245 + 12345) % TWO31
  {
  }

  class RandomData {
    var state: array<int>       // arg_state: the header word, and the words that `buf->state` points at
    var fptr: int               // cursors, as indices of words after the header
    var rptr: int
    var randType: int
    var randDeg: int
    var randSep: int
    var endPtr: int

    /** A caller's buffer, to be set up by InitState. */
    constructor (arg: array<int>)
      ensures state == arg
    {
      state := arg;
      fptr, rptr, randType, randDeg, randSep, endPtr := 0, 0, 0, 0, 0, 0;
    }

    /** The fields agree with the type, and the array has its words. */
    predicate Shaped()
      reads this
    {
      && 0 <= randType < MAX_TYPES && randDeg == DEGREES[randType] && randSep == SEPS[randType] && endPtr == randDeg
      && state.Length >= 2 && state.Length > randDeg
    }

    /** The current generator is in order: both cursors in bounds and randSep places apart. */
    ghost predicate Valid()
      reads this, state
    {
      && Shaped() && Current().Valid()
      && (randType != TYPE_0 ==> fptr == (rptr + randSep) % randDeg)
    }

    /** The generator that is current. */
    ghost function Current(): Gen
      requires 0 <= randType < MAX_TYPES && state.Length >= 2 && state.Length > DEGREES[randType]
      reads this, state
    {
      GenOf(state[..], randType, rptr)
    }

    /** What an array stands for at the moment: the current one does not yet have its cursor in its header. */
    ghost predicate Holds(a: array<int>, g: Gen)
      reads this, state, a
    {
      if a == state then Valid() && Current() == g else Saved(a[..]) && SavedGen(a[..]) == g
    }

    /** __random_r() */
    method Draw() returns (result: int)
      requires Valid()
      modifies `fptr, `rptr, state
      ensures Valid() && result == old(Current()).Draw() && Current() == old(Current()).Next()
      ensures state[0] == old(state[0])
    {
      hide Gen.Valid, Gen.Next, Gen.Draw, GenOf, RingWord, FrontOn, RearOn;
      ghost var a := state[..];
      if randType == TYPE_0 {
        LcgStep(a, rptr);
        result := DrawLcg();
      } else {
        RingDraw(a, randType, fptr, rptr);
        result := DrawRing();
      }
    }

    /** The linear congruential branch of __random_r(). */
    method DrawLcg() returns (result: int)
      requires state.Length >= 2
      modifies state
      ensures result == (old(state[1]) * 1103515245 + 12345) % TWO31 && state[..] == old(state[..])[1 := result]
    {
      result := (state[1] * 1103515245 + 12345) % TWO31;
      state[1] := result;
    }

    /** The trinomial branch of __random_r(). */
    method DrawRing() returns (result: int)
      requires randType != TYPE_0 && 0 <= fptr && 0 <= rptr && fptr + 1 < state.Length && rptr + 1 < state.Length
      modifies `fptr, `rptr, state
      ensures var val := RingWord(old(state[..]), old(fptr), old(rptr));
        state[..] == old(state[..])[old(fptr) + 1 := val] && result == (val / 2) % TWO31
      ensures fptr == FrontOn(old(fptr), endPtr) && rptr == RearOn(old(fptr), old(rptr), endPtr)
    {
      var val := Wrap32(state[fptr + 1] + state[rptr + 1]);
      state[fptr + 1] := val;
      result := (val / 2) % TWO31;
      var f, r := fptr + 1, rptr + 1;
      if f >= endPtr {
        f := 0;                         // the rear cursor cannot wrap as well
      } else if r >= endPtr {
        r := 0;
      }
      fptr, rptr := f, r;
    }

    /** The seeding loop of __srandom_r(): each word from the one before. */
    method FillWords(seed: int)
      requires Shaped() && randType != TYPE_0 && 0 < seed < TWO32
      modifies state
      ensures state[0] == old(state[0]) && state[1..randDeg + 1] == SeedWords(seed, randDeg)
    {
      state[1] := Wrap32(seed);
      var word := seed;
      var i := 1;
      while i < randDeg
        invariant 1 <= i <= randDeg && word == Lehmer(seed, i - 1) && 0 <= word < TWO32
        invariant state[0] == old(state[0])
        invariant forall j :: 0 <= j < i ==> state[j + 1] == Wrap32(Lehmer(seed, j))
      {
        SchrageExact(word);
        var hi, lo := CDiv(word, 127773), CMod(word, 127773);
        word := 16807 * lo - 2836 * hi;
        if word < 0 {
          word := word + 2147483647;
        }
        state[i + 1] := Wrap32(word);
        i := i + 1;
      }
    }

    /** __srandom_r() */
    method Srandom(seed: int)
      requires Shaped() && 0 <= seed < TWO32
      modifies `fptr, `rptr, state
      ensures Valid() && Current() == Seeded(randType, seed)
      ensures var first := if seed == 0 then 1 else seed;
        if randType == TYPE_0 then Current() == Lcg(Wrap32(first))
        else
          && Ring(randType, SeedWords(first, randDeg), 0).Valid()
          && Current() == Ring(randType, SeedWords(first, randDeg), 0).After(10 * randDeg)
      ensures state[0] == old(state[0]) && (randType != TYPE_0 ==> rptr == 0)
    {
      hide Gen.Valid, GenOf, SeedWords, Seeded, Wrap32, Gen.After;
      SeededIs(randType, seed);
      var first := if seed == 0 then 1 else seed;
      if randType == TYPE_0 {
        UnstartedLcg(state[..][1 := Wrap32(first)], rptr, seed);
        ghost var a := state[..];
        state[1] := Wrap32(first);
        assert state[..] == a[1 := Wrap32(first)];
        return;
      }
      FillWords(first);
      fptr, rptr := randSep, 0;
      ghost var g := Unwarmed(randType, seed);
      Unstarted(state[..], randType, seed);
      Discard(10 * randDeg, g);
      WarmedUp(state[..], randType, rptr, seed);
    }

    /** The warm-up loop of __srandom_r(). */
    method Discard(draws: nat, ghost g: Gen)
      requires Valid() && Current() == g
      modifies `fptr, `rptr, state
      ensures Valid() && Current() == g.After(draws) && state[0] == old(state[0])
    {
      hide Gen.Valid, Gen.Next, Gen.Draw, GenOf;
      var kc := draws;
      while kc > 0
        invariant 0 <= kc <= draws
        invariant Valid() && Current() == g.After(draws - kc)
        invariant state[0] == old(state[0])
      {
        var discard := Draw();
        kc := kc - 1;
      }
    }

    /** __initstate_r(), for an array of n bytes. */
    method InitState(seed: int, arg: array<int>, n: nat) returns (ok: bool)
      requires 0 <= seed < TWO32 && 4 * arg.Length >= n
      modifies this, arg
      ensures ok == (n >= 8)
      ensures !ok ==> unchanged(this) && unchanged(arg)
      ensures ok ==> Valid() && state == arg && randType == TypeFor(n) && Current() == Seeded(TypeFor(n), seed)
      ensures ok ==>
        randType == if n < 32 then 0 else if n < 64 then 1 else if n < 128 then 2 else if n < 256 then 3 else 4
      ensures ok ==> arg[0] == TypeFor(n) && Saved(arg[..]) && SavedGen(arg[..]) == Current()
      ensures ok && old(Valid()) && arg != old(state) ==>
        (Saved(old(state)[..]) && SavedGen(old(state)[..]) == old(Current())
        <==> HeaderCurrent(old(state)[..], old(randType), old(rptr)))
    {
      hide Gen.Valid, GenOf, Seeded, Saved, SavedGen, HeaderCurrent;
      if n < 8 {
        return false;
      }
      if Valid() { LeftBehind(state[..], randType, rptr); }
      assert arg != state ==> old(state)[..] == old(state[..]);
      var kind := if n >= 128 then if n < 256 then 3 else 4 else if n < 32 then TYPE_0 else if n < 64 then 1 else 2;
      randType, randDeg, randSep, endPtr := kind, DEGREES[kind], SEPS[kind], DEGREES[kind];
      state := arg;
      Srandom(seed);
      SaveHeader();
      FreshHeader(kind, rptr);
      return true;
    }

    /** Multiplexes type and rear cursor into the header word. */
    method SaveHeader()
      requires Valid()
      modifies state
      ensures Valid() && Current() == old(Current()) && state[0] == Header(randType, rptr)
      ensures Saved(state[..]) && SavedGen(state[..]) == Current()
    {
      SavedHeader(state[..], randType, rptr);
      ghost var a := state[..];
      state[0] := TYPE_0;
      if randType != TYPE_0 {
        state[0] := MAX_TYPES * rptr + randType;
      }
      assert state[..] == a[0 := Header(randType, rptr)];
    }

    /** __setstate_r() */
    method SetState(arg: array<int>) returns (ok: bool)
      requires Valid()
      requires arg != state ==> arg.Length >= 1 && (CMod(arg[0], MAX_TYPES) < 0 || Saved(arg[..]))
      modifies this, state
      ensures ok == (arg == old(state) || CMod(old(arg[0]), MAX_TYPES) >= 0)
      ensures Valid() && state == (if ok then arg else old(state))
      ensures Current() == if ok && arg != old(state) then old(SavedGen(arg[..])) else old(Current())
      ensures Saved(old(state)[..]) && SavedGen(old(state)[..]) == old(Current())
      ensures old(state)[0] == if old(randType) == TYPE_0 then 0 else 5 * old(rptr) + old(randType)
    {
      SaveHeader();
      var kind := CMod(arg[0], MAX_TYPES);
      if kind < TYPE_0 || kind >= MAX_TYPES {
        return false;
      }
      Load(arg, kind);
      return true;
    }

    /** Where __setstate_r() takes the type and the cursors from the header of the array. */
    method Load(arg: array<int>, kind: int)
      requires Saved(arg[..]) && kind == CMod(arg[0], MAX_TYPES)
      modifies this
      ensures Valid() && state == arg && Current() == SavedGen(arg[..])
    {
      SavedCursors(arg[..]);
      randDeg, randSep, randType := DEGREES[kind], SEPS[kind], kind;
      if kind != TYPE_0 {
        var rear := CDiv(arg[0], MAX_TYPES);
        rptr := rear;
        fptr := CMod(rear + randSep, randDeg);
      }
      state := arg;
      endPtr := randDeg;
    }
  }

  // ------------------------------------------------------------------ several arrays in turn

  /** The arrays stand for the generators of a machine, and its current one is loaded. */
  ghost predicate Represents(r: RandomData, arrays: seq<array<int>>, m: Machine)
    reads r, r.state, arrays
  {
    && |arrays| == |m.gens| && m.cur < |arrays| && r.state == arrays[m.cur]
    && (forall i, j :: 0 <= i < j < |arrays| ==> arrays[i] != arrays[j])
    && (forall i :: 0 <= i < |arrays| ==> r.Holds(arrays[i], m.gens[i]))
  }

  method DrawStep(r: RandomData, arrays: seq<array<int>>, ghost m: Machine) returns (result: int)
    requires m.Valid() && Represents(r, arrays, m)
    modifies r, arrays
    ensures result == m.gens[m.cur].Draw()
    ensures Represents(r, arrays, Machine(m.gens[m.cur := m.gens[m.cur].Next()], m.cur))
  {
    hide Saved, SavedGen, Gen.Valid, Gen.Next, Gen.Draw, RandomData.Valid, RandomData.Current;
    assert r.Holds(arrays[m.cur], m.gens[m.cur]);
    ghost var was := seq(|arrays|, i requires 0 <= i < |arrays| reads arrays => arrays[i][..]);
    result := r.Draw();
    forall i | 0 <= i < |arrays| && i != m.cur ensures r.Holds(arrays[i], m.gens[i]) {
      assert arrays[i][..] == was[i];
    }
  }

  method SwitchStep(r: RandomData, arrays: seq<array<int>>, target: nat, ghost m: Machine)
    requires m.Valid() && Represents(r, arrays, m) && target < |m.gens|
    modifies r, arrays
    ensures Represents(r, arrays, Machine(m.gens, target))
  {
    hide Saved, SavedGen, Gen.Valid, Gen.Next, Gen.Draw, RandomData.Valid, RandomData.Current;
    assert r.Holds(arrays[m.cur], m.gens[m.cur]) && r.Holds(arrays[target], m.gens[target]);
    ghost var was := seq(|arrays|, i requires 0 <= i < |arrays| reads arrays => arrays[i][..]);
    if target != m.cur {
      SavedCursors(arrays[target][..]);
    }
    var ok := r.SetState(arrays[target]);
    forall i | 0 <= i < |arrays| && i != m.cur ensures arrays[i][..] == was[i] {
    }
  }

  /** Which of the arrays is current. */
  method FindCurrent(r: RandomData, arrays: seq<array<int>>, ghost m: Machine) returns (i: nat)
    requires Represents(r, arrays, m)
    ensures i == m.cur
  {
    i := 0;
    while arrays[i] != r.state
      invariant 0 <= i <= m.cur
      decreases m.cur - i
    {
      i := i + 1;
    }
  }

  lemma RepresentsAll(r: RandomData, arrays: seq<array<int>>, m: Machine)
    requires Represents(r, arrays, m)
    ensures |arrays| == |m.gens|
  {
  }

  lemma PrefixSnoc(ops: seq<Op>, k: nat)
    requires k < |ops|
    ensures |ops[..k + 1]| == k + 1 && ops[..k + 1][..k] == ops[..k] && ops[..k + 1][k] == ops[k]
  {
  }

  lemma PrefixWhole(ops: seq<Op>)
    ensures ops[..0] == [] && ops[..|ops|] == ops
  {
  }

  /** Any run of draws and switches: every array gives the numbers it gives when used alone. */
  method Interleave(r: RandomData, arrays: seq<array<int>>, ops: seq<Op>,
                    ghost m: Machine) returns (outs: seq<seq<int>>)
    requires m.Valid() && LegalOps(|m.gens|, ops) && Represents(r, arrays, m)
    modifies r, arrays
    ensures Represents(r, arrays, Run(m, ops)) && |outs| == |arrays| == |m.gens|
    ensures forall i :: 0 <= i < |arrays| ==> outs[i] == Outputs(m, ops, i) == m.gens[i].Stream(|outs[i]|)
  {
    hide Gen.Valid, Gen.Next, Gen.Draw, Represents;
    PrefixWhole(ops);
    outs := seq(|arrays|, i => []);
    assert |arrays| == |m.gens| by {
      RepresentsAll(r, arrays, m);
    }
    var k := 0;
    while k < |ops|
      invariant 0 <= k <= |ops| && |outs| == |arrays| == |m.gens|
      invariant LegalOps(|m.gens|, ops[..k]) && Represents(r, arrays, Run(m, ops[..k]))
      invariant forall i :: 0 <= i < |arrays| ==> outs[i] == Outputs(m, ops[..k], i)
      decreases |ops| - k
    {
      ghost var b := Run(m, ops[..k]);
      PrefixSnoc(ops, k);
      match ops[k] {
        case DrawOp =>
          var i := FindCurrent(r, arrays, b);
          var x := DrawStep(r, arrays, b);
          outs := outs[i := outs[i] + [x]];
        case SwitchOp(target) =>
          SwitchStep(r, arrays, target, b);
      }
      k := k + 1;
    }
    forall i | 0 <= i < |arrays| ensures outs[i] == m.gens[i].Stream(|outs[i]|) {
      StreamsIndependent(m, ops, i);
    }
  }

  /** Two arrays initialised one after the other, then used in any order: each gives the numbers of its own seed. */
  method TwoStreams(a: array<int>, b: array<int>, n: nat, p: nat, seeds: (int, int), ops: seq<Op>)
      returns (outs: seq<seq<int>>)
    requires a != b && 8 <= n <= 4 * a.Length && 8 <= p <= 4 * b.Length && LegalOps(2, ops)
    requires 0 <= seeds.0 < TWO32 && 0 <= seeds.1 < TWO32
    modifies a, b
    ensures |outs| == 2
    ensures outs[0] == Seeded(TypeFor(n), seeds.0).Stream(|outs[0]|)
    ensures outs[1] == Seeded(TypeFor(p), seeds.1).Stream(|outs[1]|)
  {
    hide Gen.Valid, Seeded, Saved, SavedGen, RandomData.Valid, RandomData.Current, Run, Outputs, Gen.Stream;
    var r := new RandomData(a);
    var ok := r.InitState(seeds.0, a, n);
    ghost var was := a[..];
    ok := r.InitState(seeds.1, b, p);
    assert a[..] == was;
    outs := Interleave(r, [a, b], ops, Machine([Seeded(TypeFor(n), seeds.0), Seeded(TypeFor(p), seeds.1)], 1));
  }

  /** What initstate loses: an array is seeded and gives some numbers, and then another one is seeded. */
  method LeaveByInit(a: array<int>, b: array<int>, n: nat, p: nat, seeds: (int, int), draws: nat)
    requires a != b && 8 <= n <= 4 * a.Length && 8 <= p <= 4 * b.Length
    requires 0 <= seeds.0 < TWO32 && 0 <= seeds.1 < TWO32
    modifies a, b
    ensures Saved(a[..]) && SavedGen(a[..]) == Seeded(TypeFor(n), seeds.0).After(draws)
      <==> TypeFor(n) == TYPE_0 || draws % DEGREES[TypeFor(n)] == 0
  {
    hide Gen.Valid, Seeded, Saved, SavedGen, Gen.After, GenOf;
    var r := new RandomData(a);
    var ok := r.InitState(seeds.0, a, n);
    r.Discard(draws, Seeded(TypeFor(n), seeds.0));
    ghost var was := a[..];
    LeftAfter(was, TypeFor(n), r.rptr, seeds.0, draws);
    ok := r.InitState(seeds.1, b, p);
    assert a[..] == was;
  }
}
