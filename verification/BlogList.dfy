/** The list of dates that blog/builddb.pl keeps as flat keys of a key/value store. */
module BlogList {
  import Decimal

  /** The keys `head` and `last`, and those derived from a date: the date itself (set to 1 once it is linked), and the
      date with .next or .prev after it. A date is held as its number plus one, so that 0 can stand for the empty string
      and every date, "00000000" too, is true. */
  datatype Key = Head | Last | Linked(date: nat) | Next(date: nat) | Prev(date: nat)

  type Store = map<Key, nat>

  /** Perl reads a missing key as undef, which is neither true nor above 0. */
  function Get(dat: Store, key: Key): nat {
    if key in dat then dat[key] else 0
  }

  /** The number Perl compares: that of the date, or 0 for the empty string. */
  function Num(name: nat): nat { if name == 0 then 0 else name - 1 }

  lemma NumSame(a: nat, b: nat)
    requires a > 0 && b > 0
    ensures Num(a) == Num(b) <==> a == b
    ensures Num(a) < Num(b) <==> a < b
  {
  }

  predicate Increasing(xs: seq<nat>) {
    && (forall i, j :: 0 <= i < j < |xs| ==> xs[i] < xs[j])
    && (forall i :: 0 <= i < |xs| ==> 0 < xs[i])
  }

  function FirstOf(xs: seq<nat>): nat { if xs == [] then 0 else xs[0] }

  function LastOf(xs: seq<nat>): nat { if xs == [] then 0 else xs[|xs| - 1] }

  /** The neighbours of the i-th date. */
  function After(xs: seq<nat>, i: nat): nat { if i + 1 < |xs| then xs[i + 1] else 0 }

  function Before(xs: seq<nat>, i: nat): nat
    requires i <= |xs|
  {
    if i > 0 then xs[i - 1] else 0
  }

  function AtOr0(xs: seq<nat>, k: nat): nat { if k < |xs| then xs[k] else 0 }

  predicate EndsRight(dat: Store, xs: seq<nat>) {
    Get(dat, Head) == FirstOf(xs) && Get(dat, Last) == LastOf(xs)
  }

  ghost predicate MarksRight(dat: Store, xs: seq<nat>) {
    forall d: nat :: d > 0 ==> Get(dat, Linked(d)) == if d in xs then 1 else 0
  }

  ghost predicate NextsRight(dat: Store, xs: seq<nat>) {
    && (forall i :: 0 <= i < |xs| ==> Get(dat, Next(xs[i])) == After(xs, i))
    && (forall d: nat :: d > 0 && d !in xs ==> Get(dat, Next(d)) == 0)
  }

  ghost predicate PrevsRight(dat: Store, xs: seq<nat>) {
    && (forall i :: 0 <= i < |xs| ==> Get(dat, Prev(xs[i])) == Before(xs, i))
    && (forall d: nat :: d > 0 && d !in xs ==> Get(dat, Prev(d)) == 0)
  }

  /** The keys spell out the list xs: exactly its dates are linked, and every link names the neighbour. Nothing is
      said of Next(0) and Prev(0), where a deletion at an end of the list leaves a value behind: no date has the
      empty name. */
  ghost predicate Spells(dat: Store, xs: seq<nat>) {
    EndsRight(dat, xs) && MarksRight(dat, xs) && NextsRight(dat, xs) && PrevsRight(dat, xs)
  }

  // ------------------------------------------------------------------ the list itself

  function InsertAt(xs: seq<nat>, k: nat, id: nat): (ys: seq<nat>)
    requires k <= |xs|
    ensures |ys| == |xs| + 1 && ys[k] == id
    ensures forall i :: 0 <= i < k ==> ys[i] == xs[i]
    ensures forall i :: k < i < |ys| ==> ys[i] == xs[i - 1]
    ensures forall d :: d in ys <==> d in xs || d == id
  {
    assert xs == xs[..k] + xs[k..];
    xs[..k] + [id] + xs[k..]
  }

  function RemoveAt(xs: seq<nat>, k: nat): (ys: seq<nat>)
    requires k < |xs| && Increasing(xs)
    ensures |ys| == |xs| - 1 && Increasing(ys)
    ensures forall i :: 0 <= i < k ==> ys[i] == xs[i]
    ensures forall i :: k <= i < |ys| ==> ys[i] == xs[i + 1]
    ensures forall d :: d in ys <==> d in xs && d != xs[k]
  {
    assert xs == xs[..k] + [xs[k]] + xs[k + 1..];
    xs[..k] + xs[k + 1..]
  }

  /** Where a new date belongs. */
  predicate Fits(xs: seq<nat>, k: nat, id: nat) {
    && k <= |xs| && id > 0 && id !in xs
    && (k > 0 ==> xs[k - 1] < id) && (k < |xs| ==> id < xs[k])
  }

  lemma InsertIncreasing(xs: seq<nat>, k: nat, id: nat)
    requires Increasing(xs) && Fits(xs, k, id)
    ensures Increasing(InsertAt(xs, k, id))
  {
  }

  /** What the keys of one kind become when the date id is set to a value and the date other, if there is one, to
      another. */
  ghost predicate NextsSet(dat: Store, e: Store, id: nat, next: nat, other: nat, value: nat) {
    && Get(e, Next(id)) == next && (other > 0 ==> Get(e, Next(other)) == value)
    && forall d: nat :: d > 0 && d != id && d != other ==> Get(e, Next(d)) == Get(dat, Next(d))
  }

  ghost predicate PrevsSet(dat: Store, e: Store, id: nat, prev: nat, other: nat, value: nat) {
    && Get(e, Prev(id)) == prev && (other > 0 ==> Get(e, Prev(other)) == value)
    && forall d: nat :: d > 0 && d != id && d != other ==> Get(e, Prev(d)) == Get(dat, Prev(d))
  }

  ghost predicate MarkSet(dat: Store, e: Store, id: nat, mark: nat) {
    Get(e, Linked(id)) == mark && forall d: nat :: d > 0 && d != id ==> Get(e, Linked(d)) == Get(dat, Linked(d))
  }

  /** What linking a date must do to the keys: its own, those of its neighbours, and the ends. */
  ghost predicate LinkedIn(dat: Store, e: Store, xs: seq<nat>, k: nat, id: nat)
    requires k <= |xs|
  {
    var prev, next := Before(xs, k), AtOr0(xs, k);
    && MarkSet(dat, e, id, 1) && NextsSet(dat, e, id, next, prev, id) && PrevsSet(dat, e, id, prev, next, id)
    && Get(e, Head) == (if k == 0 then id else Get(dat, Head))
    && Get(e, Last) == (if k == |xs| then id else Get(dat, Last))
  }

  lemma LinkNexts(dat: Store, e: Store, xs: seq<nat>, k: nat, id: nat)
    requires Increasing(xs) && NextsRight(dat, xs) && Fits(xs, k, id)
    requires NextsSet(dat, e, id, AtOr0(xs, k), Before(xs, k), id)
    ensures NextsRight(e, InsertAt(xs, k, id))
  {
    var ys := InsertAt(xs, k, id);
    forall i | 0 <= i < |ys| ensures Get(e, Next(ys[i])) == After(ys, i) {
      if i < k {
        assert ys[i] == xs[i];
        if i + 1 < k { assert ys[i] < xs[k - 1]; }
      } else if i > k {
        assert ys[i] == xs[i - 1];
        if k > 0 { assert xs[k - 1] < xs[i - 1]; }
      }
    }
  }

  lemma LinkPrevs(dat: Store, e: Store, xs: seq<nat>, k: nat, id: nat)
    requires Increasing(xs) && PrevsRight(dat, xs) && Fits(xs, k, id)
    requires PrevsSet(dat, e, id, Before(xs, k), AtOr0(xs, k), id)
    ensures PrevsRight(e, InsertAt(xs, k, id))
  {
    var ys := InsertAt(xs, k, id);
    forall i | 0 <= i < |ys| ensures Get(e, Prev(ys[i])) == Before(ys, i) {
      if i < k {
        assert ys[i] == xs[i];
        if k < |xs| { assert xs[i] < xs[k]; }
      } else if i > k {
        assert ys[i] == xs[i - 1];
        if i > k + 1 { assert xs[k] < xs[i - 1]; }
      }
    }
  }

  lemma LinkMarks(dat: Store, e: Store, xs: seq<nat>, k: nat, id: nat)
    requires k <= |xs| && MarksRight(dat, xs) && MarkSet(dat, e, id, 1)
    ensures MarksRight(e, InsertAt(xs, k, id))
  {
  }

  lemma LinkEnds(dat: Store, e: Store, xs: seq<nat>, k: nat, id: nat)
    requires k <= |xs| && EndsRight(dat, xs)
    requires Get(e, Head) == (if k == 0 then id else Get(dat, Head))
    requires Get(e, Last) == (if k == |xs| then id else Get(dat, Last))
    ensures EndsRight(e, InsertAt(xs, k, id))
  {
    var ys := InsertAt(xs, k, id);
    assert ys[0] == if k == 0 then id else xs[0];
    assert ys[|xs|] == if k == |xs| then id else xs[|xs| - 1];
  }

  lemma LinkSpells(dat: Store, e: Store, xs: seq<nat>, k: nat, id: nat)
    requires Increasing(xs) && Spells(dat, xs) && Fits(xs, k, id) && LinkedIn(dat, e, xs, k, id)
    ensures Spells(e, InsertAt(xs, k, id)) && Increasing(InsertAt(xs, k, id))
  {
    hide NextsRight, PrevsRight, NextsSet, PrevsSet, MarksRight, MarkSet, EndsRight;
    InsertIncreasing(xs, k, id);
    LinkNexts(dat, e, xs, k, id);
    LinkPrevs(dat, e, xs, k, id);
    LinkMarks(dat, e, xs, k, id);
    LinkEnds(dat, e, xs, k, id);
  }

  /** What deleting the k-th date must do to the keys. */
  ghost predicate CutOut(dat: Store, e: Store, xs: seq<nat>, k: nat)
    requires k < |xs|
  {
    var prev, next, id := Before(xs, k), After(xs, k), xs[k];
    && MarkSet(dat, e, id, 0) && NextsSet(dat, e, id, 0, prev, next) && PrevsSet(dat, e, id, 0, next, prev)
    && Get(e, Head) == (if k == 0 then next else Get(dat, Head))
    && Get(e, Last) == (if k == |xs| - 1 then prev else Get(dat, Last))
  }

  lemma CutNexts(dat: Store, e: Store, xs: seq<nat>, k: nat)
    requires k < |xs| && Increasing(xs) && NextsRight(dat, xs)
    requires NextsSet(dat, e, xs[k], 0, Before(xs, k), After(xs, k))
    ensures NextsRight(e, RemoveAt(xs, k))
  {
    var ys := RemoveAt(xs, k);
    forall i | 0 <= i < |ys| ensures Get(e, Next(ys[i])) == After(ys, i) {
      if i < k {
        assert ys[i] == xs[i];
        if i + 1 < k { assert xs[i] < xs[k - 1]; }
      } else {
        assert ys[i] == xs[i + 1];
        if k > 0 { assert xs[k - 1] < xs[i + 1]; }
      }
    }
  }

  lemma CutPrevs(dat: Store, e: Store, xs: seq<nat>, k: nat)
    requires k < |xs| && Increasing(xs) && PrevsRight(dat, xs)
    requires PrevsSet(dat, e, xs[k], 0, After(xs, k), Before(xs, k))
    ensures PrevsRight(e, RemoveAt(xs, k))
  {
    var ys := RemoveAt(xs, k);
    forall i | 0 <= i < |ys| ensures Get(e, Prev(ys[i])) == Before(ys, i) {
      if i < k {
        assert ys[i] == xs[i];
        if k + 1 < |xs| { assert xs[i] < xs[k + 1]; }
      } else {
        assert ys[i] == xs[i + 1];
        if i > k { assert xs[k + 1] < xs[i + 1]; }
      }
    }
  }

  lemma CutMarks(dat: Store, e: Store, xs: seq<nat>, k: nat)
    requires k < |xs| && Increasing(xs) && MarksRight(dat, xs) && MarkSet(dat, e, xs[k], 0)
    ensures MarksRight(e, RemoveAt(xs, k))
  {
    var ys := RemoveAt(xs, k);
    forall d: nat | d > 0 ensures Get(e, Linked(d)) == if d in ys then 1 else 0 {
      assert d in ys <==> d in xs && d != xs[k];
    }
  }

  lemma CutEnds(dat: Store, e: Store, xs: seq<nat>, k: nat)
    requires k < |xs| && Increasing(xs) && EndsRight(dat, xs)
    requires Get(e, Head) == (if k == 0 then After(xs, k) else Get(dat, Head))
    requires Get(e, Last) == (if k == |xs| - 1 then Before(xs, k) else Get(dat, Last))
    ensures EndsRight(e, RemoveAt(xs, k))
  {
    var ys := RemoveAt(xs, k);
    if |xs| > 1 {
      assert ys[0] == if k == 0 then xs[1] else xs[0];
      assert ys[|xs| - 2] == if k == |xs| - 1 then xs[|xs| - 2] else xs[|xs| - 1];
    }
  }

  lemma CutSpells(dat: Store, e: Store, xs: seq<nat>, k: nat)
    requires k < |xs| && Increasing(xs) && Spells(dat, xs) && CutOut(dat, e, xs, k)
    ensures Spells(e, RemoveAt(xs, k))
  {
    hide NextsRight, PrevsRight, NextsSet, PrevsSet, MarksRight, MarkSet, EndsRight;
    CutNexts(dat, e, xs, k);
    CutPrevs(dat, e, xs, k);
    CutMarks(dat, e, xs, k);
    CutEnds(dat, e, xs, k);
  }

  // ------------------------------------------------------------------ what the invariant is worth

  /** prev and next undo each other, and head and last are the dates without one. */
  lemma MutualInverses(dat: Store, xs: seq<nat>, a: nat, b: nat)
    requires Increasing(xs) && Spells(dat, xs) && a > 0 && b > 0
    ensures Get(dat, Next(a)) == b <==> Get(dat, Prev(b)) == a
    ensures Get(dat, Next(a)) == b ==> a < b && Get(dat, Linked(a)) == 1 && Get(dat, Linked(b)) == 1
    ensures Get(dat, Linked(a)) == 1 ==> (Get(dat, Prev(a)) == 0 <==> Get(dat, Head) == a)
    ensures Get(dat, Linked(a)) == 1 ==> (Get(dat, Next(a)) == 0 <==> Get(dat, Last) == a)
  {
    if a in xs { var i :| 0 <= i < |xs| && xs[i] == a; }
    if b in xs { var j :| 0 <= j < |xs| && xs[j] == b; }
  }

  /** Following .next, n times at most. */
  function Walk(dat: Store, from: nat, n: nat): seq<nat>
    decreases n
  {
    if from == 0 || n == 0 then [] else [from] + Walk(dat, Get(dat, Next(from)), n - 1)
  }

  lemma {:induction false} WalkFrom(dat: Store, xs: seq<nat>, k: nat, n: nat)
    requires Increasing(xs) && NextsRight(dat, xs) && k <= |xs| <= n + k
    ensures Walk(dat, AtOr0(xs, k), n) == xs[k..]
    decreases |xs| - k
  {
    hide NextsRight, Get, Increasing;
    if k < |xs| {
      LinkAt(dat, xs, k);
      WalkFrom(dat, xs, k + 1, n - 1);
    }
  }

  lemma LinkAt(dat: Store, xs: seq<nat>, k: nat)
    requires Increasing(xs) && NextsRight(dat, xs) && k < |xs|
    ensures xs[k] > 0 && Get(dat, Next(xs[k])) == AtOr0(xs, k + 1) && xs[k..] == [xs[k]] + xs[k + 1..]
  {
  }

  /** Exactly one list is spelt, and it is what a walk from head finds. */
  lemma SpellsOne(dat: Store, xs: seq<nat>, n: nat)
    requires Increasing(xs) && Spells(dat, xs) && n >= |xs|
    ensures Walk(dat, Get(dat, Head), n) == xs
  {
    WalkFrom(dat, xs, 0, n);
  }

  // ------------------------------------------------------------------ the operations

  function Elems(xs: seq<nat>): set<nat> { set x | x in xs }

  lemma ElemsInserted(xs: seq<nat>, k: nat, id: nat)
    requires k <= |xs|
    ensures Elems(InsertAt(xs, k, id)) == Elems(xs) + {id}
  {
  }

  lemma ElemsRemoved(xs: seq<nat>, k: nat)
    requires k < |xs| && Increasing(xs)
    ensures Elems(RemoveAt(xs, k)) == Elems(xs) - {xs[k]}
  {
  }

  lemma SpeltEnds(dat: Store, xs: seq<nat>)
    requires Increasing(xs) && Spells(dat, xs)
    ensures Get(dat, Head) == FirstOf(xs) && Get(dat, Last) == LastOf(xs)
    ensures Get(dat, Head) == 0 <==> xs == []
    ensures Get(dat, Last) == 0 <==> xs == []
  {
  }

  lemma SpeltMark(dat: Store, xs: seq<nat>, d: nat)
    requires Spells(dat, xs) && d > 0
    ensures Get(dat, Linked(d)) == if d in xs then 1 else 0
  {
    hide NextsRight, PrevsRight, EndsRight;
  }

  lemma SpeltAt(dat: Store, xs: seq<nat>, k: nat)
    requires Spells(dat, xs) && k < |xs|
    ensures Get(dat, Next(xs[k])) == After(xs, k) && Get(dat, Prev(xs[k])) == Before(xs, k)
  {
    hide MarksRight, EndsRight;
  }

  lemma SpeltOff(dat: Store, xs: seq<nat>, d: nat)
    requires Spells(dat, xs) && d > 0 && d !in xs
    ensures Get(dat, Next(d)) == 0 && Get(dat, Prev(d)) == 0
  {
    hide MarksRight, EndsRight;
  }

  lemma InsideLinks(dat: Store, xs: seq<nat>, k: nat, id: nat)
    requires Fits(xs, k, id) && 0 < k < |xs| && Increasing(xs)
    ensures LinkedIn(dat,
              dat[Next(id) := xs[k]][Prev(id) := xs[k - 1]][Next(xs[k - 1]) := id][Prev(xs[k]) := id][Linked(id) := 1],
              xs, k, id)
  {
  }

  lemma FirstLinks(dat: Store, id: nat)
    requires id > 0 && Spells(dat, [])
    ensures LinkedIn(dat, dat[Head := id][Last := id][Linked(id) := 1], [], 0, id)
  {
    hide Spells, Increasing;
    SpeltOff(dat, [], id);
  }

  lemma HeadLinks(dat: Store, xs: seq<nat>, id: nat)
    requires Fits(xs, 0, id) && xs != [] && Spells(dat, xs)
    ensures LinkedIn(dat, dat[Next(id) := xs[0]][Prev(xs[0]) := id][Head := id][Linked(id) := 1], xs, 0, id)
  {
    hide Spells, Increasing;
    SpeltOff(dat, xs, id);
  }

  lemma LastLinks(dat: Store, xs: seq<nat>, id: nat)
    requires Fits(xs, |xs|, id) && xs != [] && Spells(dat, xs)
    ensures LinkedIn(dat,
              dat[Prev(id) := LastOf(xs)][Next(LastOf(xs)) := id][Last := id][Linked(id) := 1],
              xs, |xs|, id)
  {
    hide Spells, Increasing;
    SpeltOff(dat, xs, id);
  }

  lemma ElemsAbsent(xs: seq<nat>, id: nat)
    requires id !in xs
    ensures Elems(xs) == Elems(xs) - {id}
  {
  }

  /** The keys once the links that name a deleted date are rewritten. */
  function Cut(dat: Store, id: nat): Store {
    var b := CutBack(CutForth(dat, id), id);
    var c := if Num(Get(b, Head)) == Num(id) then b[Head := Get(b, Next(id))] else b;
    if Num(Get(c, Last)) == Num(id) then c[Last := Get(c, Prev(id))] else c
  }

  function CutForth(dat: Store, id: nat): Store {
    var prev, next := Get(dat, Prev(id)), Get(dat, Next(id));
    if prev != 0 then dat[Next(prev) := next] else dat - {Next(prev)}
  }

  function CutBack(a: Store, id: nat): Store {
    var prev, next := Get(a, Prev(id)), Get(a, Next(id));
    if prev != 0 then a[Prev(next) := prev] else a - {Prev(next)}
  }

  /** The keys once the date's own are deleted too. */
  function Cleared(dat: Store, id: nat): Store {
    Cut(dat, id) - {Linked(id)} - {Next(id)} - {Prev(id)}
  }

  lemma ClearedNext(dat: Store, id: nat, d: nat)
    requires id > 0 && d > 0
    ensures Get(Cleared(dat, id), Next(d)) ==
      if d == id then 0 else if d == Get(dat, Prev(id)) then Get(dat, Next(id)) else Get(dat, Next(d))
  {
  }

  lemma ClearedPrev(dat: Store, id: nat, d: nat)
    requires id > 0 && d > 0 && Get(dat, Prev(id)) != id
    ensures Get(Cleared(dat, id), Prev(d)) ==
      if d == id then 0 else if d == Get(dat, Next(id)) then Get(dat, Prev(id)) else Get(dat, Prev(d))
  {
  }

  lemma ClearedMark(dat: Store, id: nat, d: nat)
    requires d > 0
    ensures Get(Cleared(dat, id), Linked(d)) == if d == id then 0 else Get(dat, Linked(d))
  {
  }

  lemma ClearedEnds(dat: Store, id: nat)
    requires id > 0 && Get(dat, Next(id)) != id && Get(dat, Prev(id)) != id
    ensures Get(Cleared(dat, id), Head) ==
      if Num(Get(dat, Head)) == Num(id) then Get(dat, Next(id)) else Get(dat, Head)
    ensures Get(Cleared(dat, id), Last) ==
      if Num(Get(dat, Last)) == Num(id) then Get(dat, Prev(id)) else Get(dat, Last)
  {
  }

  lemma ClearedNexts(dat: Store, id: nat)
    requires id > 0 && Get(dat, Prev(id)) != id
    ensures NextsSet(dat, Cleared(dat, id), id, 0, Get(dat, Prev(id)), Get(dat, Next(id)))
  {
    hide Cleared, Get;
    forall d: nat | d > 0 ensures Get(Cleared(dat, id), Next(d)) ==
        if d == id then 0 else if d == Get(dat, Prev(id)) then Get(dat, Next(id)) else Get(dat, Next(d)) {
      ClearedNext(dat, id, d);
    }
  }

  lemma ClearedPrevs(dat: Store, id: nat)
    requires id > 0 && Get(dat, Prev(id)) != id && Get(dat, Next(id)) != id
    ensures PrevsSet(dat, Cleared(dat, id), id, 0, Get(dat, Next(id)), Get(dat, Prev(id)))
  {
    hide Cleared, Get;
    forall d: nat | d > 0 ensures Get(Cleared(dat, id), Prev(d)) ==
        if d == id then 0 else if d == Get(dat, Next(id)) then Get(dat, Prev(id)) else Get(dat, Prev(d)) {
      ClearedPrev(dat, id, d);
    }
  }

  lemma ClearedMarks(dat: Store, id: nat)
    requires id > 0
    ensures MarkSet(dat, Cleared(dat, id), id, 0)
  {
    hide Cleared, Get;
    forall d: nat | d > 0 ensures Get(Cleared(dat, id), Linked(d)) == if d == id then 0 else Get(dat, Linked(d)) {
      ClearedMark(dat, id, d);
    }
  }

  lemma HeadIsFirst(xs: seq<nat>, k: nat)
    requires Increasing(xs) && k < |xs|
    ensures FirstOf(xs) == xs[k] <==> k == 0
    ensures LastOf(xs) == xs[k] <==> k == |xs| - 1
    ensures After(xs, k) != xs[k] && Before(xs, k) != xs[k]
  {
  }

  lemma CutEffect(dat: Store, xs: seq<nat>, k: nat)
    requires Increasing(xs) && Spells(dat, xs) && k < |xs|
    ensures CutOut(dat, Cleared(dat, xs[k]), xs, k)
  {
    hide Cleared, Get, NextsSet, PrevsSet, MarkSet, Spells, Before, After, FirstOf, LastOf;
    var id, e := xs[k], Cleared(dat, xs[k]);
    SpeltAt(dat, xs, k);
    SpeltEnds(dat, xs);
    HeadIsFirst(xs, k);
    NumSame(Get(dat, Head), id);
    NumSame(Get(dat, Last), id);
    ClearedEnds(dat, id);
    ClearedNexts(dat, id);
    ClearedPrevs(dat, id);
    ClearedMarks(dat, id);
  }

  lemma NoEffect(dat: Store, xs: seq<nat>, id: nat)
    requires Increasing(xs) && Spells(dat, xs) && id > 0 && id !in xs
    ensures Spells(Cleared(dat, id), xs)
  {
    var e := Cleared(dat, id);
    SpeltOff(dat, xs, id);
    SpeltEnds(dat, xs);
    SpeltMark(dat, xs, id);
    ClearedEnds(dat, id);
    hide Cleared, Get;
    forall d: nat | d > 0
      ensures Get(e, Next(d)) == Get(dat, Next(d)) && Get(e, Prev(d)) == Get(dat, Prev(d))
      ensures Get(e, Linked(d)) == Get(dat, Linked(d)) {
      ClearedNext(dat, id, d);
      ClearedPrev(dat, id, d);
      ClearedMark(dat, id, d);
    }
    SameSpells(dat, e, xs);
  }

  /** The list depends on the keys of real dates only. */
  lemma SameSpells(dat: Store, e: Store, xs: seq<nat>)
    requires Increasing(xs) && Spells(dat, xs) && Get(e, Head) == Get(dat, Head) && Get(e, Last) == Get(dat, Last)
    requires forall d: nat :: d > 0 ==> Get(e, Next(d)) == Get(dat, Next(d))
    requires forall d: nat :: d > 0 ==> Get(e, Prev(d)) == Get(dat, Prev(d))
    requires forall d: nat :: d > 0 ==> Get(e, Linked(d)) == Get(dat, Linked(d))
    ensures Spells(e, xs)
  {
    hide Get;
  }

  lemma HeadLeast(xs: seq<nat>, k: nat, id: nat)
    requires k < |xs| && xs[0] < id < xs[k]
    ensures k > 0
  {
  }

  lemma LastBefore(xs: seq<nat>, k: nat, id: nat)
    requires Increasing(xs) && k < |xs| && xs[k] < id && id !in xs && (k + 1 < |xs| ==> id < xs[k + 1])
    ensures Fits(xs, k + 1, id) && forall d :: d in xs && d < id ==> d <= xs[k]
  {
  }

  class Blog {
    var dat: Store
    ghost var dates: seq<nat>     // the list that the keys spell

    ghost predicate Valid()
      reads this
    {
      Increasing(dates) && Spells(dat, dates)
    }

    constructor ()
      ensures Valid() && dates == []
    {
      dat, dates := map[], [];
    }

    /** The backward scan for the date to link behind: it always stops, at the head at the latest. */
    method FindBefore(id: nat) returns (p: nat, ghost k: nat)
      requires Valid() && id !in dates && dates != [] && dates[0] < id
      ensures p in dates && p < id && forall d :: d in dates && d < id ==> d <= p
      ensures k < |dates| && p == dates[k] && Fits(dates, k + 1, id)
    {
      hide Spells, Increasing;
      SpeltEnds(dat, dates);
      p, k := Get(dat, Last), |dates| - 1;
      while Num(p) > Num(id)
        invariant 0 <= k < |dates| && p == dates[k] && (k + 1 < |dates| ==> id < dates[k + 1])
        decreases k
      {
        SpeltAt(dat, dates, k);
        HeadLeast(dates, k, id);
        p, k := Get(dat, Prev(p)), k - 1;
      }
      assert p != id && p in dates;
      LastBefore(dates, k, id);
    }

    /** Links a date between two others. */
    method LinkInside(id: nat)
      requires Valid() && id !in dates && dates != [] && dates[0] < id < LastOf(dates)
      modifies this
      ensures Valid() && Elems(dates) == old(Elems(dates)) + {id}
    {
      hide Spells, LinkedIn, InsertAt, Elems;
      var p; ghost var k;
      p, k := FindBefore(id);
      SpeltAt(dat, dates, k);
      InsideLinks(dat, dates, k + 1, id);
      ElemsInserted(dates, k + 1, id);
      var c := Get(dat, Next(p));
      ghost var was := dat;
      dat := dat[Next(id) := c];
      dat := dat[Prev(id) := p];
      dat := dat[Next(p) := id];
      dat := dat[Prev(c) := id];
      dat := dat[Linked(id) := 1];
      LinkSpells(was, dat, dates, k + 1, id);
      dates := InsertAt(dates, k + 1, id);
    }

    /** Links the first date of all. */
    method LinkFirst(id: nat)
      requires Valid() && id > 0 && dates == []
      modifies this
      ensures Valid() && Elems(dates) == {id} && old(Elems(dates)) == {}
    {
      hide Spells, LinkedIn;
      FirstLinks(dat, id);
      ghost var was := dat;
      dat := dat[Head := id];
      dat := dat[Last := id];
      dat := dat[Linked(id) := 1];
      LinkSpells(was, dat, dates, 0, id);
      dates := InsertAt(dates, 0, id);
    }

    /** Links a date before the head. */
    method LinkHead(id: nat)
      requires Valid() && id > 0 && id !in dates && dates != [] && id < dates[0]
      modifies this
      ensures Valid() && Elems(dates) == old(Elems(dates)) + {id}
    {
      hide Spells, LinkedIn, InsertAt, Elems;
      SpeltEnds(dat, dates);
      HeadLinks(dat, dates, id);
      ElemsInserted(dates, 0, id);
      ghost var was := dat;
      dat := dat[Next(id) := Get(dat, Head)];
      dat := dat[Prev(Get(dat, Head)) := id];
      dat := dat[Head := id];
      dat := dat[Linked(id) := 1];
      LinkSpells(was, dat, dates, 0, id);
      dates := InsertAt(dates, 0, id);
    }

    /** Links a date after the last. */
    method LinkLast(id: nat)
      requires Valid() && id !in dates && dates != [] && id > LastOf(dates)
      modifies this
      ensures Valid() && Elems(dates) == old(Elems(dates)) + {id}
    {
      hide Spells, LinkedIn, InsertAt, Elems;
      SpeltEnds(dat, dates);
      LastLinks(dat, dates, id);
      ElemsInserted(dates, |dates|, id);
      ghost var was := dat;
      dat := dat[Prev(id) := Get(dat, Last)];
      dat := dat[Next(Get(dat, Last)) := id];
      dat := dat[Last := id];
      dat := dat[Linked(id) := 1];
      LinkSpells(was, dat, dates, |dates|, id);
      dates := InsertAt(dates, |dates|, id);
    }

    /** The linking branches of builddata. */
    method Link(id: nat)
      requires Valid() && id > 0
      modifies this
      ensures Valid() && Elems(dates) == old(Elems(dates)) + {id}
    {
      hide Spells;
      SpeltEnds(dat, dates);
      SpeltMark(dat, dates, id);
      if Get(dat, Linked(id)) != 0 {
        assert id in Elems(dates);
        dat := dat[Linked(id) := 1];
        assert dat == old(dat);
      } else if Get(dat, Head) == 0 {
        LinkFirst(id);
      } else if Num(id) < Num(Get(dat, Head)) {
        LinkHead(id);
      } else if Num(id) > Num(Get(dat, Last)) {
        LinkLast(id);
      } else {
        LinkInside(id);
      }
    }

    /** One entry of builddata's loop: without force an entry already linked is passed over, and with contentOnly
        only its content keys are written, which are not part of this model. */
    method Post(id: nat, force: bool, contentOnly: bool)
      requires Valid() && id > 0
      modifies this
      ensures Valid() && Elems(dates) == old(Elems(dates)) + if contentOnly then {} else {id}
    {
      if Get(dat, Linked(id)) != 0 && !force {
        SpeltMark(dat, dates, id);
        assert id in Elems(dates);
        return;
      }
      if !contentOnly {
        Link(id);
      }
    }

    /** The delete branch of builddata, as far as the links are concerned. */
    method Delete(id: nat)
      requires Valid() && id > 0
      modifies this
      ensures Valid() && Elems(dates) == old(Elems(dates)) - {id}
    {
      hide Spells, CutOut, Elems, RemoveAt;
      ghost var was := dat;
      CutKeys(id);
      dat := dat - {Linked(id)};
      dat := dat - {Next(id)};
      dat := dat - {Prev(id)};
      assert dat == Cleared(was, id);
      SpeltMark(was, dates, id);
      if id in dates {
        ghost var k :| 0 <= k < |dates| && dates[k] == id;
        CutEffect(was, dates, k);
        CutSpells(was, dat, dates, k);
        ElemsRemoved(dates, k);
        dates := RemoveAt(dates, k);
      } else {
        NoEffect(was, dates, id);
        ElemsAbsent(dates, id);
      }
    }

    /** Where the delete branch rewrites the links of the neighbours and the ends. */
    method CutKeys(id: nat)
      modifies `dat
      ensures dat == Cut(old(dat), id)
    {
      if Get(dat, Prev(id)) != 0 {
        dat := dat[Next(Get(dat, Prev(id))) := Get(dat, Next(id))];
      } else {
        dat := dat - {Next(Get(dat, Prev(id)))};
      }
      assert dat == CutForth(old(dat), id);
      if Get(dat, Prev(id)) != 0 {
        dat := dat[Prev(Get(dat, Next(id))) := Get(dat, Prev(id))];
      } else {
        dat := dat - {Prev(Get(dat, Next(id)))};
      }
      ghost var b := dat;
      assert b == CutBack(CutForth(old(dat), id), id);
      hide CutForth, CutBack, Get;
      if Num(Get(dat, Head)) == Num(id) {
        dat := dat[Head := Get(dat, Next(id))];
      }
      assert dat == if Num(Get(b, Head)) == Num(id) then b[Head := Get(b, Next(id))] else b;
      if Num(Get(dat, Last)) == Num(id) {
        dat := dat[Last := Get(dat, Prev(id))];
      }
    }
  }

  // ------------------------------------------------------------------ whole runs

  datatype Act = Entry(id: nat, force: bool, contentOnly: bool) | Removal(id: nat)

  /** The dates that a run leaves linked. */
  function DatesAfter(acts: seq<Act>): set<nat> {
    if acts == [] then {}
    else
      var before, act := DatesAfter(acts[..|acts| - 1]), acts[|acts| - 1];
      match act
      case Entry(id, _, contentOnly) => before + if contentOnly then {} else {id}
      case Removal(id) => before - {id}
  }

  lemma ActsSnoc(acts: seq<Act>, k: nat)
    requires k < |acts|
    ensures acts[..k + 1][..k] == acts[..k] && acts[..k + 1][k] == acts[k]
    ensures acts[..|acts|] == acts
  {
  }

  /** Any run on a fresh store leaves a strictly increasing list of exactly the linked dates, which a walk from head
      reads. */
  method Replay(acts: seq<Act>) returns (b: Blog)
    requires forall j :: 0 <= j < |acts| ==> acts[j].id > 0
    ensures b.Valid() && Elems(b.dates) == DatesAfter(acts)
    ensures forall n: nat :: n >= |b.dates| ==> Walk(b.dat, Get(b.dat, Head), n) == b.dates
  {
    hide Spells, Elems, Walk;
    b := new Blog();
    assert acts[..0] == [];
    assert Elems(b.dates) == {} by { ElemsEmpty(); }
    var k := 0;
    while k < |acts|
      invariant 0 <= k <= |acts| && fresh(b) && b.Valid() && Elems(b.dates) == DatesAfter(acts[..k])
    {
      ActsSnoc(acts, k);
      match acts[k] {
        case Entry(id, force, contentOnly) => b.Post(id, force, contentOnly);
        case Removal(id) => b.Delete(id);
      }
      k := k + 1;
    }
    assert acts[..k] == acts;
    forall n: nat | n >= |b.dates| ensures Walk(b.dat, Get(b.dat, Head), n) == b.dates {
      SpellsOne(b.dat, b.dates, n);
    }
  }

  lemma ElemsEmpty()
    ensures Elems([]) == {}
  {
  }

  // ------------------------------------------------------------------ the month flags

  function Zeros(n: nat): (s: string)
    ensures |s| == n
  {
    if n == 0 then "" else Zeros(n - 1) + "0"
  }

  /** A number printed with leading zeros up to a width. */
  function Padded(n: nat, width: nat): (s: string)
    ensures |s| >= width
  {
    var t := Decimal.TextNat(n);
    if |t| >= width then t else Zeros(width - |t|) + t
  }

  /** The key of a date, and that of the flag of its month, which builddata sets beside it. */
  function DateText(y: nat, m: nat, d: nat): string { Padded(y, 4) + Padded(m, 2) + Padded(d, 2) }

  function MonthText(y: nat, m: nat): string { Padded(y, 4) + Padded(m, 2) }

  lemma PaddedTwo(r: nat)
    requires r < 100
    ensures Padded(r, 2) == [Decimal.Digit(r / 10), Decimal.Digit(r % 10)]
  {
    if r < 10 {
      assert Zeros(1) == Zeros(0) + "0" == "0";
      assert Decimal.TextNat(r) == [Decimal.Digit(r)];
    } else {
      assert Decimal.TextNat(r / 10) == [Decimal.Digit(r / 10)];
    }
  }

  lemma LastTwo(y: nat)
    ensures y / 10 / 10 == y / 100 && y / 10 % 10 == (y % 100) / 10 && y % 10 == (y % 100) % 10
  {
  }

  /** Two digits more at the end of a number. */
  lemma TwoDigits(y: nat)
    requires y >= 100
    ensures Decimal.TextNat(y) == Decimal.TextNat(y / 100) + Padded(y % 100, 2)
  {
    hide Padded;
    LastTwo(y);
    PaddedTwo(y % 100);
    assert Decimal.TextNat(y) == Decimal.TextNat(y / 10) + [Decimal.Digit(y % 10)];
    assert Decimal.TextNat(y / 10) == Decimal.TextNat(y / 10 / 10) + [Decimal.Digit(y / 10 % 10)];
  }

  /** The flag of a month is a key of its own exactly for years of at most five digits; otherwise it is the mark of
      a date, which is then taken for linked. */
  lemma MonthFlags(y: nat, m: nat)
    requires m < 100
    ensures (exists year: nat, month: nat, day: nat :: MonthText(y, m) == DateText(year, month, day)) <==> y >= 100000
  {
    hide Zeros, Padded;
    if y >= 100000 {
      TwoDigits(y);
      LongEnough(y);
      LongEnough(y / 100);
      assert MonthText(y, m) == DateText(y / 100, y % 100, m);
    } else {
      ShortYear(y, m);
    }
  }

  lemma LongEnough(n: nat)
    requires n >= 1000
    ensures Padded(n, 4) == Decimal.TextNat(n)
  {
    assert |Decimal.TextNat(n)| == |Decimal.TextNat(n / 10)| + 1;
    assert |Decimal.TextNat(n / 10)| == |Decimal.TextNat(n / 10 / 10)| + 1;
    assert |Decimal.TextNat(n / 10 / 10)| == |Decimal.TextNat(n / 10 / 10 / 10)| + 1;
  }

  lemma ShortYear(y: nat, m: nat)
    requires y < 100000 && m < 100
    ensures |MonthText(y, m)| < 8
  {
    assert Decimal.Power10(5) == 100000 && Decimal.Power10(2) == 100;
    Decimal.TextNatLength(y, 5);
    Decimal.TextNatLength(m, 2);
  }
}
