/** The database as the program runs it: searches over a .pag file with elided seeks, a remembered search and an in-core
    copy of the first table (innbbsd/dbz.c). Every operation is proved against the functions of module Index. */
module Dbz {
  import opened Words
  import opened Index
  import opened Opening
  import CaseMap
  import DirFile
  import Crc

  datatype Option<T> = None | Some(value: T)

  /** struct searcher; `aborted` is left out with the I/O errors. */
  datatype Searcher = Searcher(place: nat, tabno: nat, run: int, hash: int, tag: bv64, seen: bool)

  /** How many steps along its path a searcher stands. */
  function StepOf(sp: Searcher): int { sp.tabno * MAXRUN + MAXRUN - sp.run }

  /** The step search() looks at first. */
  function FirstStep(sp: Searcher): int { if sp.seen then StepOf(sp) + 1 else StepOf(sp) }

  /** Step j of a path is occupied by an entry with another tag. */
  ghost predicate PassedOver(s: Scheme, slots: Slots, h: int, j: int)
    requires s.tsize > 0 && j >= 0
  {
    Loc(s.tsize, h, j) in slots && s.look(s.TagOf(h), slots[Loc(s.tsize, h, j)]) == Mismatch
  }

  ghost predicate Scanned(s: Scheme, slots: Slots, h: int, from: int, end: int)
    requires s.tsize > 0
  {
    0 <= from <= end && forall j :: from <= j < end ==> PassedOver(s, slots, h, j)
  }

  ghost predicate OnPath(s: Scheme, sp: Searcher)
    requires s.tsize > 0
  {
    && sp.hash >= 0 && sp.tag == s.TagOf(sp.hash)
    && 1 <= sp.run <= MAXRUN && StepOf(sp) >= 0
    && sp.place == Loc(s.tsize, sp.hash, StepOf(sp))
  }

  ghost predicate Occupied(slots: Slots, tsize: nat, h: int, n: int)
    requires tsize > 0
  {
    forall j :: 0 <= j < n ==> Loc(tsize, h, j) in slots
  }

  /** A walk over occupied places that stops at a vacant one stops where a fresh search would. */
  lemma VacantUnique(slots: Slots, tsize: nat, h: int, n: nat)
    requires tsize > 0 && Occupied(slots, tsize, h, n) && Loc(tsize, h, n) !in slots
    ensures VacantFrom(slots, tsize, h, 0) == n
  {
    var v := VacantFrom(slots, tsize, h, 0);
    hide Loc, VacantFrom;
    assert v <= n;
  }

  lemma ScannedOccupied(s: Scheme, slots: Slots, h: int, from: int, end: int)
    requires s.tsize > 0 && Occupied(slots, s.tsize, h, from) && Scanned(s, slots, h, from, end)
    ensures Occupied(slots, s.tsize, h, end)
  {
    hide Loc;
    forall j | 0 <= j < end ensures Loc(s.tsize, h, j) in slots {
      if j >= from { assert PassedOver(s, slots, h, j); }
    }
  }

  lemma {:induction false} ScannedSkipped(s: Scheme, slots: Slots, base: string, key: string, from: nat, end: nat)
    requires s.Valid() && |key| > 0 && Scanned(s, slots, s.hash(key), from, end)
    ensures FetchFrom(s, slots, base, key, from) == FetchFrom(s, slots, base, key, end)
    decreases end - from
  {
    hide Loc, Height, TextMatches;
    if from < end {
      assert PassedOver(s, slots, s.hash(key), from);
      ScannedSkipped(s, slots, base, key, from + 1, end);
    }
  }

  /** What search() does to a searcher: it stops at the next vacant place (None) or possible hit. */
  ghost predicate Searched(s: Scheme, slots: Slots, before: Searcher, sp: Searcher, r: Option<int>)
    requires s.tsize > 0
  {
    && OnPath(s, sp) && sp.seen && sp.hash == before.hash
    && Scanned(s, slots, sp.hash, FirstStep(before), StepOf(sp))
    && match r
       case None => sp.place !in slots
       case Some(v) => sp.place in slots && s.look(sp.tag, slots[sp.place]) == Candidate(v)
  }

  /** search() is under way: only entries with other tags so far. */
  ghost predicate Searching(s: Scheme, slots: Slots, before: Searcher, sp: Searcher)
    requires s.tsize > 0
  {
    OnPath(s, sp) && sp.hash == before.hash && Scanned(s, slots, sp.hash, FirstStep(before), FirstStep(sp))
  }

  /** One round of the loop in search(): `sp` is the next location and `word` what is there. */
  lemma SearchRound(s: Scheme, slots: Slots, before: Searcher, was: Searcher, sp: Searcher, word: bv64)
    requires s.Valid() && Searching(s, slots, before, was)
    requires OnPath(s, sp) && sp.seen && sp.hash == was.hash && StepOf(sp) == FirstStep(was)
    requires word == WordAt(slots, sp.place) && (word == 0 <==> sp.place !in slots)
    ensures match s.look(sp.tag, word)
      case Empty => Searched(s, slots, before, sp, None)
      case Candidate(v) => Searched(s, slots, before, sp, Some(v))
      case Mismatch => Searching(s, slots, before, sp) && 0 <= Left(slots, sp) < Left(slots, was)
  {
    hide Loc, Height;
    BeyondHeight(slots, s.tsize, sp.hash, StepOf(sp));
    if s.look(sp.tag, word) == Mismatch {
      assert PassedOver(s, slots, sp.hash, StepOf(sp));
    }
  }

  /** A searcher at the vacant place where a fresh search for its hash would end. */
  ghost predicate AtVacant(s: Scheme, slots: Slots, sp: Searcher)
    requires s.tsize > 0
  {
    sp.seen && OnPath(s, sp) && StepOf(sp) == VacantFrom(slots, s.tsize, sp.hash, 0)
  }

  /** A searcher for `key` before any vacant place of its path. */
  ghost predicate Walking(s: Scheme, slots: Slots, key: string, sp: Searcher)
    requires s.tsize > 0
  {
    OnPath(s, sp) && sp.hash == s.hash(key) && 0 <= FirstStep(sp) && Occupied(slots, s.tsize, sp.hash, FirstStep(sp))
  }

  /** How many probes are left at most. */
  ghost function Left(slots: Slots, sp: Searcher): int { Height(slots) * MAXRUN - FirstStep(sp) }

  lemma WalkOn(s: Scheme, slots: Slots, key: string, before: Searcher, sp: Searcher, r: Option<int>)
    requires s.tsize > 0 && Walking(s, slots, key, before) && Searched(s, slots, before, sp, r)
    ensures r == None ==> AtVacant(s, slots, sp)
    ensures r != None ==> Walking(s, slots, key, sp) && 0 <= Left(slots, sp) < Left(slots, before)
  {
    ScannedOccupied(s, slots, sp.hash, FirstStep(before), StepOf(sp));
    hide Loc, Height;
    if r == None {
      VacantUnique(slots, s.tsize, sp.hash, StepOf(sp));
    } else {
      BeyondHeight(slots, s.tsize, sp.hash, StepOf(sp));
    }
  }

  lemma StartOnPath(s: Scheme, slots: Slots, key: string, sp: Searcher, resumed: Option<Searcher>)
    requires s.Valid() && sp.hash == s.hash(key) && !sp.seen
    requires match resumed
      case None => sp == Searcher(sp.hash % s.tsize, 0, MAXRUN, sp.hash, s.TagOf(sp.hash), false)
      case Some(was) => AtVacant(s, slots, was) && sp == was.(seen := false)
    ensures Walking(s, slots, key, sp) && (resumed == None ==> FirstStep(sp) == 0)
  {
    if resumed == None {
      assert sp.hash % s.tsize == Loc(s.tsize, sp.hash, 0);
    }
    hide Loc, VacantFrom;
  }

  /** fetch() goes on from where a searcher is. */
  ghost predicate Fetching(s: Scheme, slots: Slots, base: string, key: string, sp: Searcher)
    requires s.Valid() && |key| > 0
  {
    Walking(s, slots, key, sp) && FetchFrom(s, slots, base, key, FirstStep(sp)) == Index.Fetch(s, slots, base, key)
  }

  /** One round of the loop in fetch(). */
  lemma FetchRound(s: Scheme, slots: Slots, base: string, key: string, before: Searcher, sp: Searcher, r: Option<int>)
    requires s.Valid() && |key| > 0 && Fetching(s, slots, base, key, before) && Searched(s, slots, before, sp, r)
    ensures r == None ==> Index.Fetch(s, slots, base, key) == Missed && AtVacant(s, slots, sp)
    ensures r != None && TooShort(base, r.value, key) ==> Index.Fetch(s, slots, base, key) == Broken
    ensures r != None && !TooShort(base, r.value, key) ==>
      if TextMatches(s, base, r.value, key) then Index.Fetch(s, slots, base, key) == Found(r.value)
      else Fetching(s, slots, base, key, sp)
    ensures r != None ==> 0 <= Left(slots, sp) < Left(slots, before)
  {
    WalkOn(s, slots, key, before, sp, r);
    ScannedSkipped(s, slots, base, key, FirstStep(before), StepOf(sp));
    hide Loc, Height, TextMatches, TooShort;
  }

  function NextPlace(tsize: nat, place: nat, tabno: nat): nat
    requires tsize > 0
  {
    (place + 1) % tsize + tabno * tsize
  }

  /** Going to the next location keeps a searcher on its path, table changes included. */
  lemma NextOnPath(s: Scheme, sp: Searcher, tabno: nat, run: int)
    requires s.tsize > 0 && OnPath(s, sp)
    requires if sp.run - 1 <= 0 then tabno == sp.tabno + 1 && run == MAXRUN else tabno == sp.tabno && run == sp.run - 1
    ensures var next := sp.(place := NextPlace(s.tsize, sp.place, tabno), tabno := tabno, run := run, seen := true);
      OnPath(s, next) && StepOf(next) == StepOf(sp) + 1
  {
    var t, k := s.tsize, StepOf(sp);
    StepTable(sp.tabno, sp.run, tabno, run);
    NextMod(sp.hash + k, sp.tabno, t);
    assert (sp.hash + k) + 1 == sp.hash + (k + 1);
  }

  /** The table that a step leads to. */
  lemma StepTable(tabno: int, run: int, tabno': int, run': int)
    requires 1 <= run <= MAXRUN
    requires if run - 1 <= 0 then tabno' == tabno + 1 && run' == MAXRUN else tabno' == tabno && run' == run - 1
    ensures var k := tabno * MAXRUN + MAXRUN - run;
      k / MAXRUN == tabno && (k + 1) / MAXRUN == tabno' && tabno' * MAXRUN + MAXRUN - run' == k + 1
  {
  }

  lemma NextMod(a: int, q: nat, t: nat)
    requires t > 0
    ensures (a % t + q * t + 1) % t == (a + 1) % t
  {
    AddMultiple(a % t + 1, q, t);
    AddMultiple(a % t + 1, a / t, t);
    assert a + 1 == (a % t + 1) + (a / t) * t;
  }

  lemma AddMultiple(x: int, q: int, t: nat)
    requires t > 0
    ensures (x + q * t) % t == x % t
  {
    var r, d := x % t, x / t;
    assert x + q * t == r + (d + q) * t;
    SmallMod(r, d + q, t);
  }

  lemma SmallMod(r: int, d: int, t: nat)
    requires 0 <= r < t
    ensures (r + d * t) % t == r
  {
    var n := r + d * t;
    assert n == (n / t) * t + n % t;
    var e := n / t - d;
    assert e * t == r - n % t;
    MulBound(e, t);
  }

  lemma MulBound(e: int, t: int)
    requires t > 0
    ensures e >= 1 ==> e * t >= t
    ensures e <= -1 ==> e * t <= -t
  {
  }

  /** The words of a file, read at any place: past its end everything is vacant. */
  function FileWord(pag: seq<bv64>, p: nat): bv64 { if p < |pag| then pag[p] else 0 }

  /** What fwrite() of one word at place p makes of a file: a gap past the old end is filled with zeros. */
  function Written(pag: seq<bv64>, p: nat, w: bv64): (r: seq<bv64>)
    ensures |r| == if p < |pag| then |pag| else p + 1
    ensures forall q: nat :: FileWord(r, q) == if q == p then w else FileWord(pag, q)
  {
    if p < |pag| then pag[p := w] else pag + seq(p - |pag|, _ => 0) + [w]
  }

  /** The word a probe of place p sees: in the core table if it is there, or else in the file. */
  function View(core: seq<bv64>, pag: seq<bv64>, p: nat): bv64 {
    if p < |core| then core[p] else FileWord(pag, p)
  }

  ghost predicate Represents(core: seq<bv64>, pag: seq<bv64>, slots: Slots) {
    && (forall p: nat :: View(core, pag, p) == WordAt(slots, p))
    && (forall p :: p in slots ==> slots[p] != 0)
  }

  /** Core and file agree on the first table. */
  ghost predicate Synced(core: seq<bv64>, pag: seq<bv64>) {
    forall p :: 0 <= p < |core| ==> FileWord(pag, p) == core[p]
  }

  function SetSlot(slots: Slots, p: nat, w: bv64): Slots { if w == 0 then slots else slots[p := w] }

  lemma SetSlotWord(slots: Slots, p: nat, w: bv64)
    requires p !in slots && forall q :: q in slots ==> slots[q] != 0
    ensures forall q: nat :: WordAt(SetSlot(slots, p, w), q) == if q == p then w else WordAt(slots, q)
    ensures forall q :: q in SetSlot(slots, p, w) ==> SetSlot(slots, p, w)[q] != 0
  {
  }

  lemma SetInCore(core: seq<bv64>, pag: seq<bv64>, slots: Slots, p: nat, w: bv64)
    requires Represents(core, pag, slots) && p < |core| && p !in slots
    ensures Represents(core[p := w], pag, SetSlot(slots, p, w))
  {
    SetSlotWord(slots, p, w);
    hide SetSlot, WordAt, FileWord;
    forall q: nat ensures View(core[p := w], pag, q) == WordAt(SetSlot(slots, p, w), q) {
      assert View(core, pag, q) == WordAt(slots, q);
    }
  }

  lemma SetInFile(core: seq<bv64>, pag: seq<bv64>, slots: Slots, p: nat, w: bv64)
    requires Represents(core, pag, slots) && p >= |core| && p !in slots
    ensures Represents(core, Written(pag, p, w), SetSlot(slots, p, w))
  {
    SetSlotWord(slots, p, w);
    hide SetSlot, WordAt, FileWord, Written;
    forall q: nat ensures View(core, Written(pag, p, w), q) == WordAt(SetSlot(slots, p, w), q) {
      assert View(core, pag, q) == WordAt(slots, q);
    }
  }

  /** Writing through: the file follows the core table. */
  lemma SetThrough(core: seq<bv64>, pag: seq<bv64>, slots: Slots, p: nat, w: bv64)
    requires Represents(core, pag, slots) && p < |core| && core[p] == w
    ensures Represents(core, Written(pag, p, w), slots)
  {
    forall q: nat ensures View(core, Written(pag, p, w), q) == WordAt(slots, q) {
      assert View(core, pag, q) == WordAt(slots, q);
    }
  }

  lemma CopyRepresents(core: seq<bv64>, pag: seq<bv64>, slots: Slots)
    requires Represents([], pag, slots) && forall p :: 0 <= p < |core| ==> core[p] == FileWord(pag, p)
    ensures Represents(core, pag, slots) && Synced(core, pag)
  {
    forall p: nat ensures View(core, pag, p) == WordAt(slots, p) {
      assert View([], pag, p) == WordAt(slots, p);
    }
  }

  lemma NoCoreSynced(pag: seq<bv64>)
    ensures Synced([], pag)
  {
  }

  /** The configuration of a new database. */
  predicate IsFresh(c: DirFile.Conf, mine: seq<int>, size: int, fs: char, cmap: char, tagmask: int) {
    && DirFile.Storable(c) && Usable(c) && IsOrder(mine) && c.bytemap == mine
    && MasksOf(c) == FreshMasks(tagmask, c.tagshift) && (Sound(MasksOf(c)) <==> !Gapless(tagmask))
    && (Gapless(tagmask) ==> c.tagmask == -1 && c.tagenb == 0 && c.tagshift < 32)
    && c.tsize == (if size == 0 then DirFile.DEFSIZE else size) && c.used == seq(DirFile.NUSEDS, _ => 0)
    && c.fieldsep == SignedChar(fs)
    && c.casemap == if cmap in "\00B" then '0' else if cmap in "=b" then '=' else 'C'
  }

  /** The tag masks of dbzfresh for which nothing is lost: all, if the table is as large as the range of the hash, and
      otherwise all with a gap for an enable bit. */
  predicate TagsFit(tagmask: int, tsize: int) { !Gapless(tagmask) || tsize > Crc.LARGEST }

  lemma FreshIs(c: DirFile.Conf, r: DirFile.Conf, mine: seq<int>, size: int, fs: char, cmap: char, tagmask: int)
    requires IsOrder(mine) && IsLong(size) && (size == 0 || size >= 2)
    requires c == DirFile.DefaultConf(mine).(tsize := c.tsize, fieldsep := SignedChar(fs), casemap := c.casemap)
    requires c.tsize == if size == 0 then DirFile.DEFSIZE else size
    requires c.casemap == if cmap in "\00B" then '0' else if cmap in "=b" then '=' else 'C'
    requires r == c.(tagenb := r.tagenb, tagmask := r.tagmask, tagshift := r.tagshift)
    requires IsLong(r.tagenb) && IsLong(r.tagmask) && IsLong(r.tagshift) && 0 <= r.tagshift
    requires MasksOf(r) == FreshMasks(tagmask, r.tagshift) && (Sound(MasksOf(r)) <==> !Gapless(tagmask))
    requires Gapless(tagmask) ==> r.tagmask == -1 && r.tagenb == 0 && r.tagshift < 32
    ensures IsFresh(r, mine, size, fs, cmap, tagmask)
  {
    hide MasksOf, Sound, Gapless, FreshMasks, SignedChar;
  }

  /** The fields in plain numbers and characters. */
  lemma FreshFields(c: DirFile.Conf, mine: seq<int>, size: int, fs: char, cmap: char, tagmask: int)
    requires IsFresh(c, mine, size, fs, cmap, tagmask)
    ensures cmap in "\00B" ==> c.casemap == '0'
    ensures cmap in "=b" ==> c.casemap == '='
    ensures cmap in "C?" ==> c.casemap == 'C'
    ensures c.tsize == (if size == 0 then 120011 else size) && c.bytemap == mine && c.valuesize == 8
    ensures c.used == [0, 0, 0, 0, 0, 0, 0, 0, 0, 0, 0]
    ensures fs as int < 128 ==> c.fieldsep == fs as int
    ensures 128 <= fs as int < 256 ==> c.fieldsep == fs as int - 256
    ensures fs as int < 256 ==> FieldSep(c) == fs
  {
    hide MasksOf, Sound, Gapless, FreshMasks, Usable, IsOrder;
  }

  lemma FreshFaithful(c: DirFile.Conf, mine: seq<int>, size: int, fs: char, cmap: char, tagmask: int)
    requires IsFresh(c, mine, size, fs, cmap, tagmask)
    ensures Usable(c) && DirFile.Storable(c) && c.casemap != ' '
    ensures Sound(MasksOf(c)) || TagFree(c) <==> TagsFit(tagmask, c.tsize)
  {
    hide MasksOf, Sound, TagFree, Gapless, FreshMasks, IsOrder;
    if Gapless(tagmask) { GaplessTagFree(c); }
  }

  /** A character as printf's %d shows it. */
  function SignedChar(c: char): (r: int)
    ensures -128 <= r < 128 && (r - c as int) % 256 == 0
  {
    (c as int + 128) % 256 - 128
  }

  function Counted(c: DirFile.Conf): DirFile.Conf {
    if c.used == [] then c else c.(used := c.used[0 := c.used[0] + 1])
  }

  lemma CountedOnce(c: DirFile.Conf)
    ensures c.used != [] ==> Counted(c) == c.(used := [c.used[0] + 1] + c.used[1..])
  {
  }

  /** Of a long key only the first 255 characters are looked up. */
  lemma MappedKeyIs(s: Scheme, key: string)
    ensures |key| <= 255 ==> MappedKey(s, key) == CaseMap.MapCase(s.casemap, key)
    ensures |key| >= 255 ==> MappedKey(s, key) == CaseMap.MapCase(s.casemap, key[..255])
  {
    if |key| <= 255 { assert key[..|key|] == key; }
  }

  /** The key as dbzfetch and dbzstore look it up. */
  function MappedKey(s: Scheme, key: string): (r: string)
    ensures |r| == KeySize(key)
  {
    CaseMap.MapCase(s.casemap, key[..KeySize(key)])
  }

  /** The statics of dbz.c and the three files behind them. Places in the .pag file are counted in words. */
  class Database {
    const mine: seq<int>            // mybmap
    var base: string                // the base file
    var dir: string                 // the .dir file
    var pag: seq<bv64>              // the .pag file
    var isOpen: bool                // whether the .pag file is open
    var pagronly: bool
    var s: Scheme
    var conf: DirFile.Conf
    var srch: Searcher
    var prevp: bool                 // whether srch may be taken up again
    var pagoff: nat                 // where stdio really stands in pagf
    var pagpos: int                 // where the program thinks it stands; -1 is "unknown"
    var corepag: array?<bv64>
    var writethrough: bool
    var written: bool
    ghost var slots: Slots          // what the database holds

    // ---------------------------------------------------------------- invariant

    /** The in-core copy of the first table, if there is one. */
    function CoreTable(): seq<bv64>
      reads `corepag, corepag
    {
      if corepag == null then [] else corepag[..]
    }

    /** Whenever a seek can be elided, reading on returns what reading at the right place would. */
    ghost predicate SeekElidable()
      reads `corepag, `pagpos, `pagoff, `pag
    {
      && (pagpos == -1 || pagpos == pagoff || (pagpos >= |pag| && pagoff >= |pag|))
      && (corepag != null && pagpos != -1 ==> pagpos >= corepag.Length && pagoff >= corepag.Length)
    }

    ghost predicate Core()
      reads `s, `corepag, `pag, `slots, `pagpos, `pagoff, corepag
    {
      && s.Valid()
      && (corepag != null ==> corepag.Length == s.tsize)
      && Represents(CoreTable(), pag, slots)
      && SeekElidable()
    }

    /** Core and file agree on the first table, unless there are stores that dbzsync() has yet to write out. */
    ghost predicate InStep()
      reads `corepag, `pag, `written, `writethrough, corepag
    {
      writethrough || !written ==> Synced(CoreTable(), pag)
    }

    ghost predicate Configured()
      reads `s, `conf
    {
      IsOrder(mine) && Usable(conf) && s == SchemeOf(conf, mine)
    }

    ghost predicate Valid()
      reads this, corepag
    {
      if isOpen then Core() && InStep() && Configured() && (prevp ==> AtVacant(s, slots, srch))
      else
        && IsOrder(mine)
        && Represents([], pag, slots)
    }

    // ---------------------------------------------------------------- searching

    /** The read in search() that goes to the file: seek only if necessary. */
    method ReadPag(place: nat) returns (val: bv64)
      requires SeekElidable() && (corepag != null ==> place >= corepag.Length)
      modifies `pagoff, `pagpos
      ensures SeekElidable() && val == FileWord(pag, place)
    {
      if pagpos != place {
        pagoff := place;
        pagpos := place;
      }
      if pagoff < |pag| {
        val := pag[pagoff];
        pagoff := pagoff + 1;
      } else {
        val := 0;
      }
      pagpos := pagpos + 1;
    }

    /** start(); a remembered search for the same hash is taken up where it stopped. */
    method Start(key: string)
      requires Core() && (prevp ==> AtVacant(s, slots, srch))
      modifies `srch
      ensures Core() && Walking(s, slots, key, srch)
      ensures !prevp ==> FirstStep(srch) == 0
    {
      var h := s.hash(key);
      if !(prevp && srch.hash == h) {
        srch := Searcher(h % s.tsize, 0, MAXRUN, h, s.mktag(h / s.tsize), false);
      }
      srch := srch.(seen := false);
      StartOnPath(s, slots, key, srch, if prevp && old(srch).hash == h then Some(old(srch)) else None);
    }

    /** The top of the loop in search(): determine the location to be examined. */
    method GoToNext()
      requires Core() && OnPath(s, srch)
      modifies `srch
      ensures Core() && OnPath(s, srch) && srch.seen && srch.hash == old(srch).hash
      ensures StepOf(srch) == FirstStep(old(srch))
    {
      hide Loc, NextPlace;
      if srch.seen {
        var run, tabno := srch.run - 1, srch.tabno;
        if run <= 0 {
          tabno := tabno + 1;
          run := MAXRUN;
        }
        NextOnPath(s, srch, tabno, run);
        srch := srch.(place := NextPlace(s.tsize, srch.place, tabno), tabno := tabno, run := run);
      } else {
        srch := srch.(seen := true);
      }
    }

    /** The middle of the loop in search(): get the tagged value. */
    method GetWord(place: nat) returns (word: bv64)
      requires Core()
      modifies `pagoff, `pagpos
      ensures Core() && word == WordAt(slots, place) && (word == 0 <==> place !in slots)
    {
      if corepag != null && place < s.tsize {
        word := corepag[place];
      } else {
        word := ReadPag(place);
      }
      assert word == View(CoreTable(), pag, place);
    }

    /** search() */
    method Search() returns (r: Option<int>)
      requires Core() && OnPath(s, srch)
      modifies `srch, `pagoff, `pagpos
      ensures Core() && Searched(s, slots, old(srch), srch, r)
    {
      assert s.Valid() && Searching(s, slots, srch, srch);
      hide Core, Scheme.Valid, OnPath, Searching, Searched, StepOf, Left;
      while true
        invariant Core() && Searching(s, slots, old(srch), srch)
        decreases Left(slots, srch)
      {
        ghost var was := srch;
        SearchingOnPath(s, slots, old(srch), srch);
        GoToNext();
        var word := GetWord(srch.place);
        SearchRound(s, slots, old(srch), was, srch, word);
        match s.look(srch.tag, word) {
          case Empty => return None;
          case Candidate(v) => return Some(v);
          case Mismatch =>
        }
      }
    }

    /** set(): store a value into the vacant location found by search(). */
    method Set(value: int)
      requires Core() && srch.place !in slots
      modifies `slots, `pag, `pagpos, `pagoff, corepag
      ensures Core()
      ensures writethrough && old(Synced(CoreTable(), pag)) ==> Synced(CoreTable(), pag)
      ensures slots == SetSlot(old(slots), srch.place, s.pack(srch.tag, value))
    {
      hide Scheme.Valid, Represents, Written, SetSlot, WordAt, View, FileWord;
      var place := srch.place;
      var w := s.pack(srch.tag, value);
      ghost var core := CoreTable();
      slots := SetSlot(slots, place, w);
      if corepag != null && place < s.tsize {
        SetInCore(core, pag, old(slots), place, w);
        corepag[place] := w;
        assert CoreTable() == core[place := w];
        if !writethrough { return; }
        SetThrough(CoreTable(), pag, slots, place, w);
      } else {
        SetInFile(core, pag, old(slots), place, w);
      }
      pagpos := -1;                       // the next read must seek
      pag := Written(pag, place, w);
      pagoff := place + 1;
    }

    // ---------------------------------------------------------------- fetch and store

    /** The loop of fetch(): look at one entry after another. */
    method FetchLoop(key: string) returns (r: Outcome)
      requires Core() && Walking(s, slots, key, srch) && FirstStep(srch) == 0 && |key| > 0
      modifies `srch, `pagoff, `pagpos
      ensures Core() && r == Index.Fetch(s, slots, base, key)
      ensures r == Missed ==> AtVacant(s, slots, srch)
    {
      assert s.Valid() && Fetching(s, slots, base, key, srch);
      hide Core, Scheme.Valid, Fetching, AtVacant, Searched, TextMatches, TooShort, Index.Fetch, Left;
      while true
        invariant Core() && Fetching(s, slots, base, key, srch)
        decreases Left(slots, srch)
      {
        FetchingOnPath(s, slots, base, key, srch);
        ghost var before := srch;
        var v := Search();
        FetchRound(s, slots, base, key, before, srch, v);
        if v == None { return Missed; }
        if TooShort(base, v.value, key) { return Broken; }
        var matches := Compare(v.value, key);
        if matches { return Found(v.value); }
      }
    }

    /** The comparison in fetch(). */
    method Compare(v: int, key: string) returns (matches: bool)
      requires |key| > 0 && !TooShort(base, v, key)
      ensures matches == TextMatches(s, base, v, key)
    {
      hide CaseMap.MapCase;
      var keysize := KeySize(key);
      var cmplen := keysize;
      var buffer := CaseMap.MapCaseCopy(s.casemap, base[v..v + keysize]);
      var sep := s.fieldsep;
      if key[keysize - 1] == '\0' {
        cmplen := cmplen - 1;
        sep := buffer[keysize - 1];
      }
      matches := key[..cmplen] == buffer[..cmplen] && (sep == s.fieldsep || sep == '\0');
      assert buffer[..keysize] == buffer;
    }

    /** fetch() */
    method Fetch(key: string) returns (r: Option<int>)
      requires Valid() && |key| > 0
      modifies `srch, `prevp, `pagoff, `pagpos
      ensures Valid()
      ensures !isOpen ==> r == None && !prevp
      ensures isOpen ==> s.Valid() && match Index.Fetch(s, slots, base, key)
        case Found(v) => r == Some(v) && !prevp
        case Missed => r == None && prevp
        case Broken => r == None && !prevp
    {
      hide Core, InStep, Configured, Index.Fetch, IsOrder, Represents, AtVacant, Walking;
      prevp := false;
      if !isOpen { return None; }
      Start(key);
      var outcome := FetchLoop(key);
      prevp := outcome == Missed;         // a later store may go on from here
      r := if outcome.Found? then Some(outcome.value) else None;
    }

    /** The loop of store(): past all hits, to the next vacant place. */
    method FindVacant(ghost key: string)
      requires Core() && Walking(s, slots, key, srch)
      modifies `srch, `pagoff, `pagpos
      ensures Core() && AtVacant(s, slots, srch) && srch.hash == s.hash(key)
    {
      assert s.Valid();
      hide Core, Scheme.Valid, AtVacant, Searched, Left;
      while true
        invariant Core() && Walking(s, slots, key, srch)
        decreases Left(slots, srch)
      {
        ghost var before := srch;
        var v := Search();
        WalkOn(s, slots, key, before, srch, v);
        if v == None {
          return;
        }
      }
    }

    /** store() */
    method Store(key: string, value: int) returns (ok: bool)
      requires Valid()
      modifies `srch, `prevp, `pagoff, `pagpos, `written, `conf, `slots, `pag, corepag
      ensures Valid()
      ensures ok <==> isOpen && !pagronly && |key| < 255 && s.okay(value)
      ensures !ok ==> slots == old(slots) && pag == old(pag)
      ensures ok ==> s.Valid() && slots == Index.Store(s, old(slots), key, value) && !prevp
      ensures if ok then written && conf == Counted(old(conf)) else conf == old(conf)
      ensures ok && old(conf).used != [] ==> conf == old(conf).(used := [old(conf).used[0] + 1] + old(conf).used[1..])
    {
      hide Core, InStep, Configured, Index.Store, Represents, AtVacant, Walking, Counted;
      if !isOpen || pagronly || |key| >= DBZMAXKEY { return false; }
      if !s.okay(value) { return false; }
      Insert(key, value);
      CountedOnce(old(conf));
      ok := true;
    }

    /** The part of store() after the checks. */
    method Insert(key: string, value: int)
      requires Core() && InStep() && Configured() && (prevp ==> AtVacant(s, slots, srch))
      modifies `srch, `prevp, `pagoff, `pagpos, `written, `conf, `slots, `pag, corepag
      ensures Core() && InStep() && Configured() && s.Valid() && !prevp
      ensures slots == Index.Store(s, old(slots), key, value) && written && conf == Counted(old(conf))
    {
      hide Core, Scheme.Valid, Configured, Index.Store, AtVacant, Synced, CoreTable, Counted;
      Locate(key);
      CountUse();
      written := true;
      SetFound(key, value);
    }

    /** Find the place, exploiting the previous search if possible. */
    method Locate(key: string)
      requires Core() && (prevp ==> AtVacant(s, slots, srch))
      modifies `srch, `prevp, `pagoff, `pagpos
      ensures Core() && AtVacant(s, slots, srch) && srch.hash == s.hash(key) && !prevp
    {
      hide Core, AtVacant, Walking;
      Start(key);
      FindVacant(key);
      prevp := false;
    }

    /** set(), at the place a search for `key` found vacant. */
    method SetFound(ghost key: string, value: int)
      requires Core() && AtVacant(s, slots, srch) && srch.hash == s.hash(key)
      modifies `slots, `pag, `pagpos, `pagoff, corepag
      ensures Core() && s.Valid() && slots == Index.Store(s, old(slots), key, value)
      ensures writethrough && old(Synced(CoreTable(), pag)) ==> Synced(CoreTable(), pag)
    {
      assert s.Valid();
      hide Core, Scheme.Valid, AtVacant, Index.Store, SetSlot, Synced, CoreTable;
      StoredHere(s, slots, key, value, srch);
      Set(value);
    }

    /** The usage count of today. */
    method CountUse()
      requires Configured()
      modifies `conf
      ensures Configured() && conf == Counted(old(conf))
    {
      conf := Counted(conf);
    }

    /** dbzfetch() */
    method DbzFetch(key: string) returns (r: Option<int>)
      requires Valid() && |key| > 0
      modifies `srch, `prevp, `pagoff, `pagpos
      ensures Valid()
      ensures !isOpen ==> r == None
      ensures isOpen ==> s.Valid() && match Index.Fetch(s, slots, base, MappedKey(s, key))
        case Found(v) => r == Some(v)
        case _ => r == None
    {
      hide Core, InStep, Configured, Index.Fetch, AtVacant;
      var mappedkey := CaseMap.MapCaseCopy(s.casemap, key[..KeySize(key)]);
      r := Fetch(mappedkey);
    }

    /** dbzstore() */
    method DbzStore(key: string, value: int) returns (ok: bool)
      requires Valid()
      modifies `srch, `prevp, `pagoff, `pagpos, `written, `conf, `slots, `pag, corepag
      ensures Valid()
      ensures ok <==> isOpen && !pagronly && |key| < 255 && s.okay(value)
      ensures !ok ==> slots == old(slots) && pag == old(pag)
      ensures ok ==> s.Valid() && slots == Index.Store(s, old(slots), MappedKey(s, key), value)
      ensures if ok then written && conf == Counted(old(conf)) else conf == old(conf)
      ensures ok && old(conf).used != [] ==> conf == old(conf).(used := [old(conf).used[0] + 1] + old(conf).used[1..])
    {
      hide Core, InStep, Configured, Index.Store, AtVacant, Counted;
      if |key| >= DBZMAXKEY { return false; }
      var mappedkey := CaseMap.MapCaseCopy(s.casemap, key);
      assert key[..KeySize(key)] == key;
      ok := Store(mappedkey, value);
    }

    // ---------------------------------------------------------------- opening, closing, writing out

    /** getcore(): a copy of the first table, vacant beyond the end of the file. */
    method GetCore() returns (it: array<bv64>)
      requires s.tsize > 0
      ensures fresh(it) && it.Length == s.tsize
      ensures forall p :: 0 <= p < it.Length ==> it[p] == FileWord(pag, p)
    {
      it := new bv64[s.tsize];
      var nread := if |pag| < s.tsize then |pag| else s.tsize;
      for p := 0 to nread
        invariant forall q :: 0 <= q < p ==> it[q] == pag[q]
      {
        it[p] := pag[p];
      }
      for p := nread to s.tsize
        invariant forall q :: 0 <= q < p ==> it[q] == FileWord(pag, q)
      {
        it[p] := 0;
      }
    }

    /** putcore(): rewrite the first table of the file, through a stream of its own. */
    method PutCore()
      requires Core()
      modifies `pag
      ensures Core() && Synced(CoreTable(), pag)
      ensures forall p: nat :: p >= |CoreTable()| ==> FileWord(pag, p) == FileWord(old(pag), p)
    {
      hide Scheme.Valid;
      var core := CoreTable();
      pag := core + if |core| <= |pag| then pag[|core|..] else [];
      assert forall p: nat :: FileWord(pag, p) == View(core, old(pag), p);
    }

    /** dbzsync() */
    method DbzSync() returns (ok: bool)
      requires Valid()
      modifies `pag, `dir
      ensures Valid() && (ok <==> isOpen)
      ensures isOpen ==> Synced(CoreTable(), pag)
      ensures forall p: nat :: p >= |CoreTable()| ==> FileWord(pag, p) == FileWord(old(pag), p)
      ensures dir == if isOpen && written then DirFile.Overwritten(old(dir), DirFile.ConfText(conf)) else old(dir)
    {
      hide Core, Configured, AtVacant, Synced, DirFile.Overwritten, DirFile.ConfText, FileWord;
      if !isOpen { return false; }
      if !written { return true; }
      if corepag != null && !writethrough {
        PutCore();
      } else {
        NoCoreSynced(pag);
      }
      dir := DirFile.PutConf(dir, conf);
      ok := true;
    }

    /** dbmclose(): everything held in core goes to the file. */
    method DbmClose() returns (ok: bool)
      requires Valid()
      modifies `pag, `dir, `corepag, `isOpen
      ensures Valid() && !isOpen && (ok <==> old(isOpen))
      ensures dir == if old(isOpen) && written then DirFile.Overwritten(old(dir), DirFile.ConfText(conf)) else old(dir)
    {
      hide Core, InStep, Configured, AtVacant, DirFile.Overwritten, DirFile.ConfText;
      if !isOpen { return false; }
      assert IsOrder(mine) by { OrderKnown(); }
      ok := DbzSync();
      FileHoldsAll();
      corepag := null;
      isOpen := false;
    }

    lemma OrderKnown()
      requires Configured()
      ensures IsOrder(mine)
    {
    }

    lemma FileHoldsAll()
      requires Core() && Synced(CoreTable(), pag)
      ensures Represents([], pag, slots)
    {
      hide Scheme.Valid;
      forall p: nat ensures View([], pag, p) == WordAt(slots, p) {
        assert View(CoreTable(), pag, p) == WordAt(slots, p);
      }
    }

    /** The configuration dbminit would read. */
    function DirConf(): DirFile.Option<DirFile.Conf>
      reads `dir
    {
      if dir == "" then DirFile.Some(DirFile.DefaultConf(mine)) else DirFile.ParseConf(dir)
    }

    /** dbminit(), with or without an in-core table. */
    method DbmInit(incore: bool, readonly: bool) returns (ok: bool)
      requires Valid()
      requires !isOpen && DirConf().Some? ==> Usable(DirConf().value)
      modifies `isOpen, `pagronly, `s, `conf, `prevp, `pagpos, `corepag, `written
      ensures Valid() && (ok <==> !old(isOpen) && DirConf().Some?)
      ensures ok ==> isOpen && pagronly == readonly && !prevp && !written && conf == DirConf().value
      ensures ok ==> Usable(conf) && IsOrder(mine) && s == SchemeOf(conf, mine)
      ensures ok ==> (corepag != null <==> incore) && (corepag != null ==> fresh(corepag))
      ensures !ok ==> isOpen == old(isOpen)
    {
      hide SchemeOf, IsOrder, Usable, DirFile.ParseConf, DirFile.DefaultConf, Core, InStep, Configured, AtVacant;
      if isOpen { return false; }
      var parsed := DirFile.GetConf(dir, mine);
      if parsed == DirFile.None { return false; }
      SetUp(parsed.value, incore, readonly);
      ok := true;
    }

    /** The part of dbminit() after getconf(). */
    method SetUp(c: DirFile.Conf, incore: bool, readonly: bool)
      requires Usable(c) && IsOrder(mine) && Represents([], pag, slots)
      modifies `isOpen, `pagronly, `s, `conf, `prevp, `pagpos, `corepag, `written
      ensures Core() && InStep() && Configured()
      ensures isOpen && pagronly == readonly && !prevp && !written && conf == c && s == SchemeOf(c, mine)
      ensures (corepag != null <==> incore) && (corepag != null ==> fresh(corepag))
    {
      hide SchemeOf, IsOrder, Usable, Core, Represents, Scheme.Valid;
      hide Synced, CoreTable, MasksOf, Sound, TagFree, Scheme.Faithful;
      conf := c;
      SchemeLawful(c, mine);
      s := SchemeOf(c, mine);
      pagronly := readonly;
      LoadCore(incore);
      written := false;
      prevp := false;
      isOpen := true;
    }

    /** The part of dbminit() that fills the in-core table, if one is wanted. */
    method LoadCore(incore: bool)
      requires s.Valid() && Represents([], pag, slots)
      modifies `pagpos, `corepag
      ensures Core() && Synced(CoreTable(), pag)
      ensures (corepag != null <==> incore) && (corepag != null ==> fresh(corepag))
    {
      hide Represents, Synced;
      pagpos := -1;
      if incore {
        var table := GetCore();
        corepag := table;
        CopyRepresents(table[..], pag, slots);
      } else {
        corepag := null;
        NoCoreSynced(pag);
      }
    }

    /** dbzwritethrough(), between closing and opening. */
    method DbzWritethrough(value: bool)
      requires Valid() && !isOpen
      modifies `writethrough
      ensures Valid() && writethrough == value
    {
      hide Represents;
      writethrough := value;
    }

    /** Another program part appends to the base file. */
    method AppendBase(text: string)
      requires Valid()
      modifies `base
      ensures Valid() && base == old(base) + text
    {
      hide Core, InStep, Configured, AtVacant;
      base := base + text;
    }

    /** A machine with empty files. */
    constructor (mine: seq<int>)
      requires IsOrder(mine)
      ensures Valid() && !isOpen && slots == map[] && base == "" && this.mine == mine
    {
      this.mine := mine;
      base, dir, pag := "", "", [];
      isOpen, pagronly, prevp, writethrough, written := false, false, false, false, false;
      conf := DirFile.DefaultConf(mine);
      s := Scheme(1, '0', '\t', _ => 0, _ => 0, _ => false, (_, _) => 0, (_, _) => Empty);
      srch := Searcher(0, 0, MAXRUN, 0, 0, false);
      pagoff, pagpos, corepag := 0, -1, null;
      slots := map[];
    }

    /** The configuration dbzfresh() writes, or None for a bad table size or case map. */
    method FreshConf(size: int, fs: char, cmap: char, tagmask: int) returns (r: Option<DirFile.Conf>)
      requires IsOrder(mine) && IsLong(size) && IsLong(tagmask)
      ensures r == None <==> (size != 0 && size < 2) || cmap !in "\00B=bC?"
      ensures r.Some? ==> IsFresh(r.value, mine, size, fs, cmap, tagmask)
    {
      hide MasksOf, Sound, Shl, Gapless, FreshMasks, SignedChar;
      if size != 0 && size < 2 { return None; }
      var c := DirFile.DefaultConf(mine);
      if size != 0 { c := c.(tsize := size); }
      c := c.(fieldsep := SignedChar(fs));
      match cmap {
        case '\0' => c := c.(casemap := '0');
        case '0' => c := c.(casemap := '0');
        case 'B' => c := c.(casemap := '0');
        case '=' => c := c.(casemap := '=');
        case 'b' => c := c.(casemap := '=');
        case 'C' => c := c.(casemap := 'C');
        case '?' => c := c.(casemap := 'C');
        case _ => return None;
      }
      assert c.casemap == if cmap in "\00B" then '0' else if cmap in "=b" then '=' else 'C';
      hide IsFresh;
      ghost var was := c;
      c := FreshTags(c, tagmask);
      FreshIs(was, c, mine, size, fs, cmap, tagmask);
      r := Some(c);
    }

    /** dbzfresh(): a new, empty database, opened. */
    method DbzFresh(size: int, fs: char, cmap: char, tagmask: int, incore: bool) returns (ok: bool)
      requires Valid() && IsLong(size) && IsLong(tagmask)
      modifies `dir, `pag, `slots, `isOpen, `pagronly, `s, `conf, `prevp, `pagpos, `corepag, `written
      ensures Valid()
      ensures ok <==> !old(isOpen) && (size == 0 || size >= 2) && cmap in "\00B=bC?"
      ensures ok ==> isOpen && !pagronly && slots == map[] && IsFresh(conf, mine, size, fs, cmap, tagmask)
      ensures ok ==> s.casemap == if cmap in "\00B" then '0' else if cmap in "=b" then '=' else 'C'
      ensures ok ==> s.tsize == (if size == 0 then 120011 else size) && (fs as int < 256 ==> s.fieldsep == fs)
      ensures ok ==> s == SchemeOf(conf, mine) && (s.Faithful() <==> TagsFit(tagmask, s.tsize))
      ensures ok && corepag != null ==> fresh(corepag)
      ensures ok ==> DirConf() == DirFile.Some(conf) && !written
    {
      if isOpen { return false; }
      hide Core, InStep, Configured, AtVacant, SchemeOf, Scheme.Faithful, Gapless, MasksOf, Sound;
      hide TagsFit, TagFree, IsFresh, Scheme.Valid, IsOrder, DirFile.Storable, Usable, FreshMasks;
      var c := FreshConf(size, fs, cmap, tagmask);
      if c == None { return false; }
      FreshFaithful(c.value, mine, size, fs, cmap, tagmask);
      FreshFields(c.value, mine, size, fs, cmap, tagmask);
      StartAfresh(c.value, incore);
      ok := true;
    }

    /** The part of dbzfresh() that writes the files and opens them. */
    method StartAfresh(c: DirFile.Conf, incore: bool)
      requires !isOpen && IsOrder(mine) && Usable(c) && DirFile.Storable(c) && c.casemap != ' '
      modifies `dir, `pag, `slots, `isOpen, `pagronly, `s, `conf, `prevp, `pagpos, `corepag, `written
      ensures Core() && InStep() && Configured() && !prevp
      ensures isOpen && !pagronly && slots == map[] && conf == c && s == SchemeOf(c, mine)
      ensures s.Faithful() <==> Sound(MasksOf(c)) || TagFree(c)
      ensures corepag != null ==> fresh(corepag)
      ensures DirConf() == DirFile.Some(conf) && !written
    {
      hide MasksOf, Sound, SchemeOf, IsOrder, Usable, DirFile.ConfText, DirFile.ParseConf, DirFile.Storable;
      hide Core, InStep, Configured, AtVacant, Scheme.Faithful;
      dir := DirFile.PutConf("", c);
      DirFile.PutGetConf("", c);
      pag := [];
      slots := map[];
      SchemeLawful(c, mine);
      var ok := DbmInit(incore, false);
    }
  }

  lemma StoredHere(s: Scheme, slots: Slots, key: string, value: int, sp: Searcher)
    requires s.Valid() && AtVacant(s, slots, sp) && sp.hash == s.hash(key)
    ensures sp.place !in slots
    ensures SetSlot(slots, sp.place, s.pack(sp.tag, value)) == Index.Store(s, slots, key, value)
  {
    hide Loc, VacantFrom;
  }

  lemma SearchingOnPath(s: Scheme, slots: Slots, before: Searcher, sp: Searcher)
    requires s.tsize > 0 && Searching(s, slots, before, sp)
    ensures OnPath(s, sp)
  {
  }

  lemma FetchingOnPath(s: Scheme, slots: Slots, base: string, key: string, sp: Searcher)
    requires s.Valid() && |key| > 0 && Fetching(s, slots, base, key, sp)
    ensures s.tsize > 0 && OnPath(s, sp)
  {
  }
}
