/** What a .pag file means: the probe path of a key, the search along it, and the first-store-wins theorem. */
module Index {
  import opened Words
  import CaseMap

  const MAXRUN: nat := 100
  const DBZMAXKEY: nat := 255

  /** The parameters of an open database: `conf`, the hash, and how words are packed for a given tag. */
  datatype Scheme = Scheme(
    tsize: nat,
    casemap: char,
    fieldsep: char,
    hash: string -> int,
    mktag: int -> bv64,
    okay: int -> bool,
    pack: (bv64, int) -> bv64,
    look: (bv64, bv64) -> Look<int>)
  {
    ghost predicate Valid() {
      && tsize > 0
      && (forall key :: hash(key) >= 0)
      && (forall tag, w :: look(tag, w).Empty? <==> w == 0)
    }

    /** Packing loses nothing: offsets are found again under the tag of their key, and never misread under that of
        another. */
    ghost predicate Faithful() {
      && tsize > 0
      && (forall key, v :: okay(v) && v >= 0 ==>
            pack(TagOf(hash(key)), v) != 0 && look(TagOf(hash(key)), pack(TagOf(hash(key)), v)) == Candidate(v))
      && (forall key, other, v :: okay(v) && v >= 0 ==>
            look(TagOf(hash(other)), pack(TagOf(hash(key)), v)) in {Mismatch, Candidate(v)})
    }

    function TagOf(h: int): bv64
      requires tsize > 0
    {
      mktag(h / tsize)
    }
  }

  // ------------------------------------------------------------------ the probe path

  /** The k-th location probed for a key with hash h: a walk round table k / MAXRUN. */
  function Loc(tsize: nat, h: int, k: nat): (p: nat)
    requires tsize > 0
  {
    (h + k) % tsize + (k / MAXRUN) * tsize
  }

  /** A table takes tsize places and 100 steps; within it the k-th step is congruent to h + k. */
  lemma LocInTable(tsize: nat, h: int, k: nat)
    requires tsize > 0
    ensures (k / 100) * tsize <= Loc(tsize, h, k) < (k / 100 + 1) * tsize
    ensures (Loc(tsize, h, k) - h - k) % tsize == 0
  {
    var n, q := h + k, k / 100;
    assert n == n / tsize * tsize + n % tsize;
    assert n % tsize + q * tsize - n == (q - n / tsize) * tsize;
    MultipleOf(q - n / tsize, tsize);
  }

  lemma MultipleOf(q: int, t: int)
    requires t > 0
    ensures (q * t) % t == 0
  {
    var d := q * t / t;
    assert (q * t) % t == (q - d) * t;
    FarMultiple(q - d, t);
  }

  lemma FarMultiple(e: int, t: int)
    requires t > 0
    ensures e >= 1 ==> e * t >= t
    ensures e <= -1 ==> e * t <= -t
  {
  }

  /** The occupied places of all tables and the words in them. */
  type Slots = map<nat, bv64>

  function WordAt(slots: Slots, p: nat): bv64 {
    if p in slots then slots[p] else 0
  }

  /** A bound on the occupied places. */
  ghost function Height(slots: Slots): (n: nat)
    ensures forall p :: p in slots ==> p < n
    decreases |slots|
  {
    if slots == map[] then 0
    else
      var p :| p in slots;
      var rest := slots - {p};
      assert |rest| < |slots|;
      assert forall q :: q in slots ==> q == p || q in rest;
      var n := Height(rest);
      if p < n then n else p + 1
  }

  lemma BeyondHeight(slots: Slots, tsize: nat, h: int, k: nat)
    requires tsize > 0
    ensures k >= Height(slots) * MAXRUN ==> Loc(tsize, h, k) !in slots
  {
    hide Height;
    TableBelow(tsize, h, k);
  }

  lemma TableBelow(tsize: nat, h: int, k: nat)
    requires tsize > 0
    ensures Loc(tsize, h, k) >= k / MAXRUN
  {
    assert (k / MAXRUN) * tsize >= k / MAXRUN;
  }

  /** The first vacant place at or after step k of the path. */
  ghost function VacantFrom(slots: Slots, tsize: nat, h: int, k: nat): (v: nat)
    requires tsize > 0
    ensures v >= k && Loc(tsize, h, v) !in slots
    ensures forall j :: k <= j < v ==> Loc(tsize, h, j) in slots
    decreases Height(slots) * MAXRUN - k
  {
    if Loc(tsize, h, k) !in slots then k
    else
      BeyondHeight(slots, tsize, h, k);
      VacantFrom(slots, tsize, h, k + 1)
  }

  /** A search over tables that hold at most T tables' worth of words ends within MAXRUN * T + 1 probes. */
  lemma SearchBound(slots: Slots, tsize: nat, h: int, tables: nat)
    requires tsize > 0 && h >= 0
    requires forall p :: p in slots ==> p < tables * tsize
    ensures VacantFrom(slots, tsize, h, 0) + 1 <= MAXRUN * tables + 1
  {
    var k := MAXRUN * tables;
    assert k / MAXRUN == tables;
    assert Loc(tsize, h, k) >= tables * tsize;
  }

  // ------------------------------------------------------------------ fetch and store

  function KeySize(key: string): nat { if |key| >= DBZMAXKEY then DBZMAXKEY else |key| }

  /** The base file holds too little text at v to compare the key with. */
  predicate TooShort(base: string, v: int, key: string) { v < 0 || v + KeySize(key) > |base| }

  /** The comparison of fetch(): a final NUL of the key stands for a field separator, or a NUL, in the text. */
  predicate TextMatches(s: Scheme, base: string, v: int, key: string)
    requires |key| > 0 && !TooShort(base, v, key)
  {
    var n := KeySize(key);
    var buffer := CaseMap.MapCase(s.casemap, base[v..v + n]);
    if key[n - 1] == '\0' then
      key[..n - 1] == buffer[..n - 1] && (buffer[n - 1] == s.fieldsep || buffer[n - 1] == '\0')
    else
      key[..n] == buffer
  }

  datatype Outcome = Found(value: int) | Broken | Missed

  /** fetch() from step k of the path on. */
  ghost function FetchFrom(s: Scheme, slots: Slots, base: string, key: string, k: nat): (r: Outcome)
    requires s.Valid() && |key| > 0
    decreases Height(slots) * MAXRUN - k
  {
    var h := s.hash(key);
    var p := Loc(s.tsize, h, k);
    if p !in slots then Missed
    else
      BeyondHeight(slots, s.tsize, h, k);
      match s.look(s.TagOf(h), slots[p])
      case Candidate(v) =>
        if TooShort(base, v, key) then Broken
        else if TextMatches(s, base, v, key) then Found(v)
        else FetchFrom(s, slots, base, key, k + 1)
      case _ => FetchFrom(s, slots, base, key, k + 1)
  }

  ghost function Fetch(s: Scheme, slots: Slots, base: string, key: string): Outcome
    requires s.Valid() && |key| > 0
  {
    FetchFrom(s, slots, base, key, 0)
  }

  /** store() of an acceptable value: it goes to the first vacant place of the key's path. */
  ghost function Store(s: Scheme, slots: Slots, key: string, value: int): Slots
    requires s.Valid()
  {
    var h := s.hash(key);
    var w := s.pack(s.TagOf(h), value);
    if w == 0 then slots
    else slots[Loc(s.tsize, h, VacantFrom(slots, s.tsize, h, 0)) := w]
  }

  // ------------------------------------------------------------------ the log behind the slots

  /** A store that was made: where its word went, as a step of its path. */
  datatype Entry = Entry(key: string, value: int, step: nat)

  /** The stores so far, and which of them filled each place. */
  datatype Log = Log(entries: seq<Entry>, owner: map<nat, nat>)

  ghost function Place(s: Scheme, e: Entry): nat
    requires s.Valid()
  {
    Loc(s.tsize, s.hash(e.key), e.step)
  }

  /** Entry i is in its place, behind places all filled earlier. */
  ghost predicate Placed(s: Scheme, slots: Slots, log: Log, i: nat)
    requires s.Valid() && i < |log.entries|
  {
    var e := log.entries[i];
    var h := s.hash(e.key);
    && Place(s, e) in slots && slots[Place(s, e)] == s.pack(s.TagOf(h), e.value)
    && Place(s, e) in log.owner && log.owner[Place(s, e)] == i
    && e.value >= 0 && s.okay(e.value)
    && forall j :: 0 <= j < e.step ==>
         Loc(s.tsize, h, j) in log.owner && log.owner[Loc(s.tsize, h, j)] < i
  }

  /** The slots are exactly what the logged stores made them. */
  ghost predicate Built(s: Scheme, slots: Slots, log: Log)
    requires s.Valid()
  {
    && log.owner.Keys == slots.Keys
    && (forall i :: 0 <= i < |log.entries| ==> Placed(s, slots, log, i))
    && (forall p :: p in log.owner ==> log.owner[p] < |log.entries| && Place(s, log.entries[log.owner[p]]) == p)
  }

  ghost function LogStore(s: Scheme, slots: Slots, log: Log, key: string, value: int): Log
    requires s.Valid()
  {
    var h := s.hash(key);
    var step := VacantFrom(slots, s.tsize, h, 0);
    Log(log.entries + [Entry(key, value, step)], log.owner[Loc(s.tsize, h, step) := |log.entries|])
  }

  lemma BuiltEmpty(s: Scheme)
    requires s.Valid()
    ensures Built(s, map[], Log([], map[]))
  {
  }

  /** A store overwrites nothing, and what was built stays built. */
  lemma StoreBuilt(s: Scheme, slots: Slots, log: Log, key: string, value: int)
    requires s.Valid() && s.Faithful() && Built(s, slots, log) && value >= 0 && s.okay(value)
    ensures Built(s, Store(s, slots, key, value), LogStore(s, slots, log, key, value))
    ensures forall p :: p in slots ==>
      p in Store(s, slots, key, value) && Store(s, slots, key, value)[p] == slots[p]
  {
    hide Loc;
    var slots', log' := Store(s, slots, key, value), LogStore(s, slots, log, key, value);
    var p := Loc(s.tsize, s.hash(key), VacantFrom(slots, s.tsize, s.hash(key), 0));
    assert slots' == slots[p := s.pack(s.TagOf(s.hash(key)), value)];
    forall i | 0 <= i < |log'.entries| ensures Placed(s, slots', log', i) {
      if i < |log.entries| { assert Placed(s, slots, log, i); }
    }
  }

  // ------------------------------------------------------------------ first store wins

  /** The text of the base file tells the entries stored for `key` from all others. */
  ghost predicate Distinct(s: Scheme, base: string, log: Log, key: string)
    requires s.Valid() && |key| > 0
  {
    && (forall i :: 0 <= i < |log.entries| && log.entries[i].key == key ==> !TooShort(base, log.entries[i].value, key))
    && (forall i :: 0 <= i < |log.entries| && !TooShort(base, log.entries[i].value, key) ==>
          (TextMatches(s, base, log.entries[i].value, key) <==> log.entries[i].key == key))
  }

  /** Offsets grew from store to store. */
  ghost predicate Growing(log: Log) {
    forall i, j :: 0 <= i < j < |log.entries| ==> log.entries[i].value <= log.entries[j].value
  }

  /** Step j of the key's path holds a value (with the key's tag, or none) too near the end of the base file to
      compare. */
  ghost predicate BlockedAt(s: Scheme, slots: Slots, base: string, key: string, j: int)
    requires s.Valid() && j >= 0
  {
    var p := Loc(s.tsize, s.hash(key), j);
    p in slots &&
    match s.look(s.TagOf(s.hash(key)), slots[p])
    case Candidate(v) => TooShort(base, v, key)
    case _ => false
  }

  ghost predicate Blocked(s: Scheme, slots: Slots, base: string, key: string, from: nat, end: nat)
    requires s.Valid()
  {
    exists j :: from <= j < end && BlockedAt(s, slots, base, key, j)
  }

  /** The first element with a given key, or the number of elements. */
  function FirstWith<T>(xs: seq<T>, keyOf: T -> string, key: string): (i: nat)
    ensures i <= |xs|
    ensures i < |xs| ==> keyOf(xs[i]) == key
    ensures forall j :: 0 <= j < i ==> keyOf(xs[j]) != key
  {
    if xs == [] || keyOf(xs[0]) == key then 0 else 1 + FirstWith(xs[1..], keyOf, key)
  }

  /** The first entry for a key. */
  function First(entries: seq<Entry>, key: string): (i: nat)
    ensures i <= |entries|
    ensures i < |entries| ==> entries[i].key == key
    ensures forall j :: 0 <= j < i ==> entries[j].key != key
  {
    FirstWith(entries, (e: Entry) => e.key, key)
  }

  /** The walk passes over the entry of another key, unless it blocks the way. */
  lemma OtherPassed(s: Scheme, slots: Slots, log: Log, base: string, key: string, k: nat)
    requires s.Valid() && s.Faithful() && Built(s, slots, log) && |key| > 0 && Distinct(s, base, log, key)
    requires var p := Loc(s.tsize, s.hash(key), k);
      p in slots && log.entries[log.owner[p]].key != key
    ensures FetchFrom(s, slots, base, key, k) ==
      if BlockedAt(s, slots, base, key, k) then Broken else FetchFrom(s, slots, base, key, k + 1)
    ensures BlockedAt(s, slots, base, key, k) ==>
      var v := log.entries[log.owner[Loc(s.tsize, s.hash(key), k)]].value;
      v >= 0 && TooShort(base, v, key)
  {
    hide TextMatches, Loc;
    var p := Loc(s.tsize, s.hash(key), k);
    var o := log.owner[p];
    assert Placed(s, slots, log, o);
    var e := log.entries[o];
    assert slots[p] == s.pack(s.TagOf(s.hash(e.key)), e.value);
    assert s.look(s.TagOf(s.hash(key)), slots[p]) in {Mismatch, Candidate(e.value)};
  }

  /** From any step before the key's own, the walk ends at the first entry stored for it, if nothing blocks it. */
  lemma {:induction false} FetchFirstFrom(s: Scheme, slots: Slots, log: Log, base: string, key: string, k: nat)
    requires s.Valid() && s.Faithful() && Built(s, slots, log) && |key| > 0 && Distinct(s, base, log, key)
    requires var i := First(log.entries, key); i < |log.entries| && k <= log.entries[i].step
    ensures var e := log.entries[First(log.entries, key)];
      FetchFrom(s, slots, base, key, k) == if Blocked(s, slots, base, key, k, e.step) then Broken else Found(e.value)
    decreases log.entries[First(log.entries, key)].step - k
  {
    var i := First(log.entries, key);
    hide FetchFrom, Built, Distinct, First, BlockedAt;
    if k < log.entries[i].step {
      EarlierPassed(s, slots, log, base, key, i, k);
      FetchFirstFrom(s, slots, log, base, key, k + 1);
    } else {
      FetchHere(s, slots, log, base, key, i);
    }
  }

  lemma EarlierPassed(s: Scheme, slots: Slots, log: Log, base: string, key: string, i: nat, k: nat)
    requires s.Valid() && s.Faithful() && Built(s, slots, log) && |key| > 0 && Distinct(s, base, log, key)
    requires i < |log.entries| && log.entries[i].key == key && (forall j :: 0 <= j < i ==> log.entries[j].key != key)
    requires k < log.entries[i].step
    ensures FetchFrom(s, slots, base, key, k) ==
      if BlockedAt(s, slots, base, key, k) then Broken else FetchFrom(s, slots, base, key, k + 1)
    ensures Growing(log) ==> !BlockedAt(s, slots, base, key, k)
  {
    hide TextMatches, FetchFrom, Loc, BlockedAt;
    var p := Loc(s.tsize, s.hash(key), k);
    assert p in log.owner && log.owner[p] < i by { assert Placed(s, slots, log, i); }
    hide Placed;
    OtherPassed(s, slots, log, base, key, k);
    if Growing(log) {
      assert log.entries[log.owner[p]].value <= log.entries[i].value;
    }
  }

  lemma FetchHere(s: Scheme, slots: Slots, log: Log, base: string, key: string, i: nat)
    requires s.Valid() && s.Faithful() && Built(s, slots, log) && |key| > 0 && Distinct(s, base, log, key)
    requires i < |log.entries| && log.entries[i].key == key
    ensures FetchFrom(s, slots, base, key, log.entries[i].step) == Found(log.entries[i].value)
  {
    hide TextMatches, Loc;
    var e := log.entries[i];
    assert Placed(s, slots, log, i);
    assert s.look(s.TagOf(s.hash(key)), slots[Place(s, e)]) == Candidate(e.value);
  }

  /** When nothing was stored for the key, no walk along its path finds anything. */
  lemma {:induction false} FetchNoneFrom(s: Scheme, slots: Slots, log: Log, base: string, key: string, k: nat)
    requires s.Valid() && s.Faithful() && Built(s, slots, log) && |key| > 0 && Distinct(s, base, log, key)
    requires First(log.entries, key) == |log.entries|
    ensures !FetchFrom(s, slots, base, key, k).Found?
    decreases Height(slots) * MAXRUN - k
  {
    hide TextMatches, Placed, Loc, BlockedAt;
    var p := Loc(s.tsize, s.hash(key), k);
    if p in slots {
      BeyondHeight(slots, s.tsize, s.hash(key), k);
      OtherPassed(s, slots, log, base, key, k);
      FetchNoneFrom(s, slots, log, base, key, k + 1);
    }
  }

  /** fetch returns the first offset stored for the key if and only if no value on the way there is too near the end of
      the base file; it returns nothing if none was stored. */
  lemma FetchExactly(s: Scheme, slots: Slots, log: Log, base: string, key: string)
    requires s.Valid() && s.Faithful() && Built(s, slots, log) && |key| > 0 && Distinct(s, base, log, key)
    ensures var i := First(log.entries, key);
      if i < |log.entries| then
        Fetch(s, slots, base, key) == Found(log.entries[i].value)
        <==> !Blocked(s, slots, base, key, 0, log.entries[i].step)
      else !Fetch(s, slots, base, key).Found?
  {
    hide FetchFrom, Built, Distinct, First, Blocked;
    if First(log.entries, key) < |log.entries| {
      FetchFirstFrom(s, slots, log, base, key, 0);
    } else {
      FetchNoneFrom(s, slots, log, base, key, 0);
    }
  }

  /** With growing offsets, as in a base file that is only appended to, nothing ever blocks the way. */
  lemma FetchFirst(s: Scheme, slots: Slots, log: Log, base: string, key: string)
    requires s.Valid() && s.Faithful() && Built(s, slots, log) && |key| > 0 && Distinct(s, base, log, key)
    requires Growing(log)
    ensures var i := First(log.entries, key);
      if i < |log.entries| then Fetch(s, slots, base, key) == Found(log.entries[i].value)
      else !Fetch(s, slots, base, key).Found?
  {
    hide FetchFrom, Fetch, Built, Distinct, Growing, BlockedAt;
    FetchExactly(s, slots, log, base, key);
    var i := First(log.entries, key);
    if i < |log.entries| {
      forall j | 0 <= j < log.entries[i].step ensures !BlockedAt(s, slots, base, key, j) {
        EarlierPassed(s, slots, log, base, key, i, j);
      }
    }
  }

  // ------------------------------------------------------------------ what a fetch can find

  /** A value found has been unpacked from some place, and its text matches. */
  ghost predicate Held(s: Scheme, slots: Slots, base: string, key: string, v: int)
    requires s.Valid() && |key| > 0
  {
    && !TooShort(base, v, key) && TextMatches(s, base, v, key)
    && exists p :: p in slots && s.look(s.TagOf(s.hash(key)), slots[p]) == Candidate(v)
  }

  lemma {:induction false} FoundHeld(s: Scheme, slots: Slots, base: string, key: string, k: nat)
    requires s.Valid() && |key| > 0
    ensures match FetchFrom(s, slots, base, key, k) case Found(v) => Held(s, slots, base, key, v) case _ => true
    decreases Height(slots) * MAXRUN - k
  {
    hide TextMatches, Loc, TooShort;
    if Loc(s.tsize, s.hash(key), k) in slots {
      BeyondHeight(slots, s.tsize, s.hash(key), k);
      FoundHeld(s, slots, base, key, k + 1);
    }
  }
}
