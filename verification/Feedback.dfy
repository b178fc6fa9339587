/** The additive-feedback generator as a function of its state (mbbsd/random.c). */
module Feedback {

  const MAX_TYPES: int := 5
  const DEGREES: seq<int> := [0, 7, 15, 31, 63]
  const SEPS: seq<int> := [0, 3, 1, 3, 1]
  const TWO31: int := 0x8000_0000
  const TWO32: int := 0x1_0000_0000

  predicate IsInt32(w: int) { -TWO31 <= w < TWO31 }

  /** int32_t arithmetic wraps round. */
  function Wrap32(x: int): (w: int)
    ensures IsInt32(w) && (w - x) % TWO32 == 0
  {
    (x + TWO31) % TWO32 - TWO31
  }

  /** What one state array stands for: a generator of type 0, or a ring of words with the place of its rear cursor. */
  datatype Gen = Lcg(word: int) | Ring(kind: int, words: seq<int>, rear: int)
  {
    predicate Valid() {
      match this
      case Lcg(w) => IsInt32(w)
      case Ring(kind, words, rear) =>
        && 1 <= kind < MAX_TYPES && |words| == DEGREES[kind] && 0 <= rear < DEGREES[kind]
        && forall i :: 0 <= i < |words| ==> IsInt32(words[i])
    }

    function Front(): (f: int)
      requires Ring? && Valid()
      ensures 0 <= f < |words| && f != rear
    {
      (rear + SEPS[kind]) % DEGREES[kind]
    }

    /** The sum __random_r stores; its low bit is dropped from the result. */
    function Sum(): int
      requires Ring? && Valid()
    {
      Wrap32(words[Front()] + words[rear])
    }

    /** The number drawn. */
    function Draw(): (r: int)
      requires Valid()
      ensures 0 <= r < TWO31
    {
      match this
      case Lcg(w) => (w * 1103515245 + 12345) % TWO31
      case Ring(_, _, _) => (Sum() / 2) % TWO31
    }

    function Next(): (g: Gen)
      requires Valid()
      ensures g.Valid()
    {
      match this
      case Lcg(w) => Lcg((w * 1103515245 + 12345) % TWO31)
      case Ring(kind, words, rear) => Ring(kind, words[Front() := Sum()], (rear + 1) % DEGREES[kind])
    }

    function After(n: nat): (g: Gen)
      requires Valid()
      ensures g.Valid()
    {
      if n == 0 then this else After(n - 1).Next()
    }

    /** The first n numbers. */
    function Stream(n: nat): (s: seq<int>)
      requires Valid()
      ensures |s| == n
    {
      if n == 0 then [] else Stream(n - 1) + [After(n - 1).Draw()]
    }
  }

  // ------------------------------------------------------------------ the recurrence behind the ring

  /** x[m] = x[m - deg] + x[m - sep] in 32 bits, from the words of a ring read from its front cursor on. */
  function Recurrence(g: Gen, m: nat): int
    requires g.Ring? && g.Valid()
  {
    var deg, sep := DEGREES[g.kind], SEPS[g.kind];
    if m < deg then g.words[(g.Front() + m) % deg]
    else Wrap32(Recurrence(g, m - deg) + Recurrence(g, m - sep))
  }

  lemma Mod2(x: int, d: int)
    requires 0 <= x < 2 * d
    ensures x % d == if x < d then x else x - d
  {
  }

  /** Going round a ring: the places the cursors take. */
  lemma Around(deg: int, sep: int, rear: int, i: int)
    requires 1 <= sep < deg && 0 <= rear < deg && 0 <= i < deg
    ensures var front, next := (rear + sep) % deg, ((rear + 1) % deg + sep) % deg;
      && next == (front + 1) % deg
      && (i < deg - 1 ==> (next + i) % deg == (front + (i + 1)) % deg != front)
      && (i == deg - 1 ==> (next + i) % deg == front)
      && (front + 0) % deg == front && (front + (deg - sep)) % deg == rear
  {
    var front, next := (rear + sep) % deg, ((rear + 1) % deg + sep) % deg;
    Mod2(rear + sep, deg);
    Mod2(rear + 1, deg);
    Mod2((rear + 1) % deg + sep, deg);
    Mod2(front + 1, deg);
    Mod2(next + i, deg);
    Mod2(front + (i + 1), deg);
    Mod2(front + 0, deg);
    Mod2(front + (deg - sep), deg);
  }

  /** The word i places after the front cursor. */
  function At(g: Gen, i: int): int
    requires g.Ring? && g.Valid() && 0 <= i
  {
    g.words[(g.Front() + i) % DEGREES[g.kind]]
  }

  /** The ring holds the recurrence of g from number n on, starting at the front cursor. */
  ghost predicate Holds(g: Gen, h: Gen, n: nat)
    requires g.Ring? && g.Valid() && h.Ring? && h.Valid() && h.kind == g.kind
  {
    forall i :: 0 <= i < DEGREES[g.kind] ==> At(h, i) == Recurrence(g, n + i)
  }

  /** One draw shifts the window by one and puts the sum at its end. */
  lemma WindowNext(h: Gen, i: int)
    requires h.Ring? && h.Valid() && 0 <= i < DEGREES[h.kind]
    ensures At(h.Next(), i) == if i < DEGREES[h.kind] - 1 then At(h, i + 1) else h.Sum()
    ensures h.Sum() == Wrap32(At(h, 0) + At(h, DEGREES[h.kind] - SEPS[h.kind]))
  {
    hide Wrap32;
    Around(DEGREES[h.kind], SEPS[h.kind], h.rear, i);
  }

  lemma HoldsNext(g: Gen, h: Gen, n: nat)
    requires g.Ring? && g.Valid() && h.Ring? && h.Valid() && h.kind == g.kind && Holds(g, h, n)
    ensures Holds(g, h.Next(), n + 1) && h.Sum() == Recurrence(g, n + DEGREES[g.kind])
  {
    var deg, sep := DEGREES[g.kind], SEPS[g.kind];
    assert Recurrence(g, n + deg) == Wrap32(Recurrence(g, n) + Recurrence(g, n + deg - sep));
    hide Recurrence, At, Wrap32, Gen.Sum;
    WindowNext(h, 0);
    assert At(h, 0) == Recurrence(g, n + 0) && At(h, deg - sep) == Recurrence(g, n + (deg - sep));
    forall i | 0 <= i < deg ensures At(h.Next(), i) == Recurrence(g, n + 1 + i) {
      WindowNext(h, i);
      if i < deg - 1 { assert At(h, i + 1) == Recurrence(g, n + (i + 1)); }
    }
  }

  /** The ring buffer refines the unbounded recurrence: every draw adds its next number. */
  lemma {:induction false} RefinesRecurrence(g: Gen, n: nat)
    requires g.Ring? && g.Valid()
    ensures g.After(n).Ring? && g.After(n).kind == g.kind && Holds(g, g.After(n), n)
    ensures g.After(n).Draw() == (Recurrence(g, n + DEGREES[g.kind]) / 2) % TWO31
    decreases n
  {
    hide Recurrence, Gen.Sum;
    if n > 0 {
      RefinesRecurrence(g, n - 1);
      HoldsNext(g, g.After(n - 1), n - 1);
    } else {
      HoldsStart(g);
    }
    HoldsNext(g, g.After(n), n);
  }

  lemma HoldsStart(g: Gen)
    requires g.Ring? && g.Valid()
    ensures Holds(g, g, 0)
  {
  }

  /** The rear cursor advances by one, round and round. */
  lemma {:induction false} RearAfter(g: Gen, n: nat)
    requires g.Ring? && g.Valid()
    ensures g.After(n).Ring? && g.After(n).kind == g.kind && g.After(n).rear == (g.rear + n) % DEGREES[g.kind]
    decreases n
  {
    hide Gen.Sum;
    if n > 0 {
      RearAfter(g, n - 1);
      NextRear(g.kind, g.rear + n - 1);
    }
  }

  lemma NextRear(kind: int, a: int)
    requires 1 <= kind < MAX_TYPES && a >= 0
    ensures (a % DEGREES[kind] + 1) % DEGREES[kind] == (a + 1) % DEGREES[kind]
  {
    var deg := DEGREES[kind];
    Mod2(a % deg + 1, deg);
    assert a + 1 == deg * (a / deg) + (a % deg + 1);
    if a % deg + 1 < deg {
      Unique(a + 1, deg, a / deg, a % deg + 1);
    } else {
      Unique(a + 1, deg, a / deg + 1, 0);
    }
  }

  lemma Unique(x: int, d: int, q: int, r: int)
    requires d > 0 && x == d * q + r && 0 <= r < d
    ensures x / d == q && x % d == r
  {
    var e := x / d - q;
    assert d * e == r - x % d;
    MulBound(d, e);
  }

  lemma MulBound(d: int, e: int)
    requires d > 0
    ensures e >= 1 ==> d * e >= d
    ensures e <= -1 ==> d * e <= -d
  {
  }

  /** The recurrences of the four rings: x^7 + x^3 + 1, x^15 + x + 1, x^31 + x^3 + 1 and x^63 + x + 1. */
  lemma Trinomials(g: Gen, m: nat)
    requires g.Ring? && g.Valid()
    ensures g.kind == 1 && m >= 7 ==> Recurrence(g, m) == Wrap32(Recurrence(g, m - 7) + Recurrence(g, m - 3))
    ensures g.kind == 2 && m >= 15 ==> Recurrence(g, m) == Wrap32(Recurrence(g, m - 15) + Recurrence(g, m - 1))
    ensures g.kind == 3 && m >= 31 ==> Recurrence(g, m) == Wrap32(Recurrence(g, m - 31) + Recurrence(g, m - 3))
    ensures g.kind == 4 && m >= 63 ==> Recurrence(g, m) == Wrap32(Recurrence(g, m - 63) + Recurrence(g, m - 1))
  {
    hide Wrap32;
  }

  /** The numbers drawn: 31 bits of a linear congruence, or the upper 31 of the 32 bits of a sum. */
  lemma DrawNumbers(g: Gen)
    requires g.Valid()
    ensures g.Lcg? ==> g.Draw() == (1103515245 * g.word + 12345) % 0x8000_0000
    ensures g.Ring? ==> g.Draw() == (g.words[g.Front()] + g.words[g.rear]) % 0x1_0000_0000 / 2
  {
    if g.Ring? { UpperBits(g.words[g.Front()] + g.words[g.rear]); }
    hide Wrap32;
  }

  lemma UpperBits(x: int)
    ensures (Wrap32(x) / 2) % TWO31 == x % 0x1_0000_0000 / 2
  {
    var u := x % TWO32;
    WrapValue(x);
    if Wrap32(x) < 0 {
      assert Wrap32(x) / 2 == u / 2 - TWO31;
    }
  }

  lemma WrapValue(x: int)
    ensures Wrap32(x) == if x % TWO32 < TWO31 then x % TWO32 else x % TWO32 - TWO32
  {
  }

  // ------------------------------------------------------------------ no two states lead to the same one

  lemma WrapInjective(a: int, b: int, c: int)
    requires IsInt32(a) && IsInt32(b) && Wrap32(a + c) == Wrap32(b + c)
    ensures a == b
  {
    assert (a - b) % TWO32 == 0;
  }

  lemma RearInjective(kind: int, a: int, b: int)
    requires 1 <= kind < MAX_TYPES && 0 <= a < DEGREES[kind] && 0 <= b < DEGREES[kind]
    requires (a + 1) % DEGREES[kind] == (b + 1) % DEGREES[kind]
    ensures a == b
  {
    if kind == 1 {} else if kind == 2 {} else if kind == 3 {} else {}
  }

  /** The step is injective on ring states. */
  lemma NextInjective(g: Gen, h: Gen)
    requires g.Ring? && h.Ring? && g.Valid() && h.Valid() && g.Next() == h.Next()
    ensures g == h
  {
    RearInjective(g.kind, g.rear, h.rear);
    var f := g.Front();
    hide Wrap32;
    assert g.Next().words[g.rear] == g.words[g.rear] && h.Next().words[g.rear] == h.words[g.rear];
    assert g.Next().words[f] == g.Sum() && h.Next().words[f] == h.Sum();
    WrapInjective(g.words[f], h.words[f], g.words[g.rear]);
    forall i | 0 <= i < |g.words| ensures g.words[i] == h.words[i] {
      if i != f { assert g.Next().words[i] == g.words[i] && h.Next().words[i] == h.words[i]; }
    }
  }

  /** The type 0 step is injective on the 31-bit words it produces: the multiplier has an inverse. */
  lemma LcgInjective(a: int, b: int)
    requires 0 <= a < TWO31 && 0 <= b < TWO31 && Lcg(a).Next() == Lcg(b).Next()
    ensures a == b
  {
    var d := a - b;
    var q := (a * 1103515245 + 12345) / TWO31 - (b * 1103515245 + 12345) / TWO31;
    assert d * 1103515245 == q * TWO31;
    // 1103515245 * 1857678181 == 1 + 954594553 * 2^31
    assert d == (q * 1857678181 - d * 954594553) * TWO31;
  }

  // ------------------------------------------------------------------ several states in turn

  datatype Op = DrawOp | SwitchOp(target: nat)

  /** Several initialised states, one of them current. */
  datatype Machine = Machine(gens: seq<Gen>, cur: nat)
  {
    predicate Valid() {
      cur < |gens| && forall i :: 0 <= i < |gens| ==> gens[i].Valid()
    }
  }

  predicate LegalOps(gens: nat, ops: seq<Op>) {
    forall j :: 0 <= j < |ops| && ops[j].SwitchOp? ==> ops[j].target < gens
  }

  function Run(m: Machine, ops: seq<Op>): (r: Machine)
    requires m.Valid() && LegalOps(|m.gens|, ops)
    ensures r.Valid() && |r.gens| == |m.gens|
    decreases |ops|
  {
    if ops == [] then m
    else
      var b := Run(m, ops[..|ops| - 1]);
      match ops[|ops| - 1]
      case DrawOp => Machine(b.gens[b.cur := b.gens[b.cur].Next()], b.cur)
      case SwitchOp(i) => Machine(b.gens, i)
  }

  /** The numbers drawn from state i during a run. */
  function Outputs(m: Machine, ops: seq<Op>, i: nat): seq<int>
    requires m.Valid() && LegalOps(|m.gens|, ops) && i < |m.gens|
    decreases |ops|
  {
    if ops == [] then []
    else
      var b := Run(m, ops[..|ops| - 1]);
      Outputs(m, ops[..|ops| - 1], i)
      + if ops[|ops| - 1].DrawOp? && b.cur == i then [b.gens[i].Draw()] else []
  }

  /** However draws and switches are interleaved, each state gives the numbers it gives when used alone. */
  lemma {:induction false} StreamsIndependent(m: Machine, ops: seq<Op>, i: nat)
    requires m.Valid() && LegalOps(|m.gens|, ops) && i < |m.gens|
    ensures var n := |Outputs(m, ops, i)|;
      Outputs(m, ops, i) == m.gens[i].Stream(n) && Run(m, ops).gens[i] == m.gens[i].After(n)
    decreases |ops|
  {
    hide Gen.Valid, Gen.Next, Gen.Draw;
    if ops != [] {
      StreamsIndependent(m, ops[..|ops| - 1], i);
    }
  }
}
