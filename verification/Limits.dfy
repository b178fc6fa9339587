/** Where the promises of the index end: the separators, the order of offsets and the tag masks for which stored
    keys are lost or confused. Every input here is one that the code's own hash and packing lead to. */
module Limits {
  import opened Words
  import opened Index
  import opened CaseMap
  import opened Runs
  import opened Opening
  import Crc
  import Dbz
  import DirFile

  // ------------------------------------------------------------------ the first store

  /** The first store of all goes to the head of its path. */
  lemma StoreAlone(s: Scheme, key: string, value: int)
    requires s.Valid()
    ensures var w, p := s.pack(s.TagOf(s.hash(key)), value), Loc(s.tsize, s.hash(key), 0);
      Store(s, map[], key, value) == if w == 0 then map[] else map[p := w]
  {
    hide Loc;
    assert VacantFrom(map[], s.tsize, s.hash(key), 0) == 0;
  }

  // ------------------------------------------------------------------ one store

  /** A base file with one id, and the store of its offset. */
  function OneStore(s: Scheme, id: string): seq<Op> {
    [Append(id + [s.fieldsep]), StoreOp(id, 0)]
  }

  lemma OneStoreRun(s: Scheme, id: string)
    requires s.Valid() && IsId(s, id) && s.okay(0)
    ensures var ops := OneStore(s, id);
      && LegalRun(s, ops) && Run(s, ops).base == id + [s.fieldsep]
      && Run(s, ops).slots == Store(s, map[], KeyOf(s, id), 0)
      && Reference(s, ops) == map[MapCase(s.casemap, id) := 0]
  {
    hide MapCase, KeyOf, Store, Scheme.Valid, IsId, LogStore;
    var ops, base := OneStore(s, id), id + [s.fieldsep];
    assert ops[..1] == [ops[0]] && ops[..1][..0] == [];
    assert Run(s, ops[..1]) == State(base, map[], Log([], map[])) by { RunNone(s); }
    assert base[0..|id|] == id;
    assert Reference(s, ops[..1]) == map[] && LegalRun(s, ops[..1]);
  }

  lemma RunNone(s: Scheme)
    requires s.Valid()
    ensures Run(s, []) == State("", map[], Log([], map[])) && "" + "" == ""
  {
  }

  /** What the text of a lone id is mapped to does not match its key. */
  predicate Mismapped(s: Scheme, id: string) {
    var t := MapCase(s.casemap, id + [s.fieldsep]);
    t[..|id|] != MapCase(s.casemap, id) || !IsMark(s, t[|id|])
  }

  lemma NothingMatches(s: Scheme, id: string, slots: Slots)
    requires s.Valid() && IsId(s, id) && Mismapped(s, id)
    ensures !Fetch(s, slots, id + [s.fieldsep], KeyOf(s, id)).Found?
  {
    hide MapCase, KeyOf, Scheme.Valid, IsMark, TextMatches;
    var base, key := id + [s.fieldsep], KeyOf(s, id);
    FoundHeld(s, slots, base, key, 0);
    assert base[0..|id| + 1] == base;
    if !TooShort(base, 0, key) { MatchUnfolded(s, base, 0, id); }
  }

  lemma IdShort(s: Scheme, id: string)
    requires IsId(s, id)
    ensures |id| + 1 < DBZMAXKEY
  {
  }

  /** An id stored under its text is then not found. */
  lemma LostAlone(s: Scheme, id: string)
    requires s.Valid() && IsId(s, id) && s.okay(0) && Mismapped(s, id)
    ensures LegalRun(s, OneStore(s, id)) && !RightAnswer(s, OneStore(s, id), id)
  {
    hide MapCase, KeyOf, FetchKey, Run, Reference, LegalRun, Scheme.Valid, Mismapped, IsId, OneStore, Fetch;
    OneStoreRun(s, id);
    FetchKeyShort(s, id) by { IdShort(s, id); }
    NothingMatches(s, id, Run(s, OneStore(s, id)).slots);
  }

  // ------------------------------------------------------------------ letters and '@' as separators

  /** An id that starts with '@' is all domain. */
  lemma AllDomain(casemap: char, s: string)
    requires casemap == '=' || casemap == 'C'
    requires s != "" && s[0] == '@'
    ensures MapCase(casemap, s) == Lower(s)
  {
    FindUnique(s, '@', 0);
    assert !IsPostmaster(s[..0]);
    assert s[..0] + Lower(s[0..]) == Lower(s);
  }

  /** A capital as the separator is lower-cased with the text before it: the id is lost. */
  lemma CapitalLoses(s: Scheme)
    requires s.Valid() && s.okay(0) && (s.casemap == '=' || s.casemap == 'C') && 'A' <= s.fieldsep <= 'Z'
    ensures IsId(s, "@") && LegalRun(s, OneStore(s, "@")) && !RightAnswer(s, OneStore(s, "@"), "@")
  {
    hide MapCase, LegalRun, RightAnswer, OneStore;
    CapitalMismapped(s);
    LostAlone(s, "@");
  }

  lemma CapitalMismapped(s: Scheme)
    requires (s.casemap == '=' || s.casemap == 'C') && 'A' <= s.fieldsep <= 'Z'
    ensures Mismapped(s, "@")
  {
    hide MapCase;
    AllDomain(s.casemap, "@" + [s.fieldsep]);
  }

  /** With '@' as the separator, "<POSTMASTER" is lower-cased in the text but not in the key. */
  lemma AtLoses(s: Scheme)
    requires s.Valid() && s.okay(0) && s.casemap == 'C' && s.fieldsep == '@'
    ensures var id := "<POSTMASTER"; IsId(s, id) && LegalRun(s, OneStore(s, id)) && !RightAnswer(s, OneStore(s, id), id)
  {
    var id := "<POSTMASTER";
    hide MapCase, LegalRun, RightAnswer, OneStore;
    PostmasterText(id);
    LostAlone(s, id);
  }

  lemma PostmasterText(id: string)
    requires id == "<POSTMASTER"
    ensures MapCase('C', id) == id && MapCase('C', id + "@")[..|id|] != id
  {
    var t := id + "@";
    FindUnique(id, '@', |id|);
    FindUnique(t, '@', |id|);
    assert MapCase('C', id) == id[..|id|] + Lower(id[|id|..]);
    assert t[..|id|] == id && Lower(id[1..]) == POSTMASTER;
    assert IsPostmaster(t[..|id|]);
    assert MapCase('C', t) == t[..0] + Lower(t[0..]);
    assert MapCase('C', t)[1] == 'p' && id[1] == 'P';
  }

  function Capital(c: char): char
    requires 'a' <= c <= 'z'
  {
    (c as int - 32) as char
  }

  /** An id without letters, and one that goes on with the capital of c and hashes alike once it is mapped. */
  function ShorterId(): string { Crc.Cancelled("@") }

  function MappedLonger(c: char): (r: string)
    ensures |r| == |ShorterId()| + 6 && ShorterId() + [c] <= r
    ensures forall i :: |ShorterId()| < i < |r| ==> 128 <= r[i] as int < 256
  {
    Crc.Cancelled(ShorterId() + [c])
  }

  function LongerId(c: char): (r: string)
    requires 'a' <= c <= 'z'
    ensures |r| == |ShorterId()| + 6
  {
    MappedLonger(c)[|ShorterId()| := Capital(c)]
  }

  lemma LongerMapped(casemap: char, c: char)
    requires (casemap == '=' || casemap == 'C') && 'a' <= c <= 'z'
    ensures MapCase(casemap, ShorterId()) == ShorterId() && MapCase(casemap, LongerId(c)) == MappedLonger(c)
    ensures MapCase(casemap, LongerId(c)[..|ShorterId()| + 1]) == ShorterId() + [c]
    ensures ShorterId() == LongerId(c)[..|ShorterId()|]
  {
    hide MapCase, Crc.Cancelled;
    var short, long := ShorterId(), LongerId(c);
    assert short[0] == '@' && long[0] == '@';
    AllDomain(casemap, short);
    AllDomain(casemap, long);
    AllDomain(casemap, long[..|short| + 1]);
    assert Lower(short) == short && Lower(long) == MappedLonger(c);
    assert Lower(long[..|short| + 1]) == short + [c];
  }

  lemma LongerIsId(s: Scheme)
    requires (s.casemap == '=' || s.casemap == 'C') && 'a' <= s.fieldsep <= 'z'
    ensures IsId(s, ShorterId()) && IsId(s, LongerId(s.fieldsep))
  {
    hide Crc.Cancelled;
  }

  /** Both keys have the same hash, so the same path and the same tag. */
  lemma SamePath(s: Scheme)
    requires (s.casemap == '=' || s.casemap == 'C') && 'a' <= s.fieldsep <= 'z' && s.hash == Crc.Hash
    ensures s.hash(KeyOf(s, ShorterId())) == s.hash(KeyOf(s, LongerId(s.fieldsep)))
  {
    hide MapCase, Crc.Cancelled, Crc.Hash;
    KeyParts(s, ShorterId());
    KeyParts(s, LongerId(s.fieldsep));
    LongerMapped(s.casemap, s.fieldsep);
    Crc.Collide("@", ShorterId() + [s.fieldsep], ['\0']);
  }

  lemma ShorterMatches(s: Scheme)
    requires (s.casemap == '=' || s.casemap == 'C') && 'a' <= s.fieldsep <= 'z'
    ensures var base, key := LongerId(s.fieldsep) + [s.fieldsep], KeyOf(s, ShorterId());
      !TooShort(base, 0, key) && TextMatches(s, base, 0, key)
  {
    hide MapCase, Crc.Cancelled, TextMatches, ShorterId, LongerId;
    var base, n := LongerId(s.fieldsep) + [s.fieldsep], |ShorterId()|;
    assert n == 6 by { ShorterLength(); }
    LongerIsId(s);
    LongerMapped(s.casemap, s.fieldsep);
    assert base[0..n + 1] == LongerId(s.fieldsep)[..n + 1];
    MatchUnfolded(s, base, 0, ShorterId());
    SepIsMark(s);
  }

  lemma ShorterLength()
    ensures |ShorterId()| == 6
  {
  }

  /** A small letter as the separator: the capital inside a longer id is taken for it, and a shorter id that was never
      stored is found. */
  lemma LetterConfuses(s: Scheme)
    requires s.Valid() && s.Faithful() && s.okay(0) && s.hash == Crc.Hash
    requires (s.casemap == '=' || s.casemap == 'C') && 'a' <= s.fieldsep <= 'z'
    ensures IsId(s, ShorterId()) && LegalRun(s, OneStore(s, LongerId(s.fieldsep)))
    ensures !RightAnswer(s, OneStore(s, LongerId(s.fieldsep)), ShorterId())
  {
    hide MapCase, KeyOf, Run, Reference, LegalRun, IsId, OneStore, TextMatches, TooShort, ShorterId, LongerId, Crc.Hash;
    var long, key := LongerId(s.fieldsep), KeyOf(s, ShorterId());
    LongerIsId(s);
    LongerMapped(s.casemap, s.fieldsep);
    FetchKeyShort(s, ShorterId()) by { IdShort(s, ShorterId()); }
    OneStoreRun(s, long);
    SamePath(s);
    StoreAlone(s, KeyOf(s, long), 0);
    ShorterMatches(s);
    FoundAtHead(s, Run(s, OneStore(s, long)).slots, long + [s.fieldsep], key, KeyOf(s, long));
  }

  lemma FoundAtHead(s: Scheme, slots: Slots, base: string, key: string, stored: string)
    requires s.Valid() && s.Faithful() && s.okay(0) && |key| > 0 && s.hash(key) == s.hash(stored)
    requires slots == Store(s, map[], stored, 0) && !TooShort(base, 0, key) && TextMatches(s, base, 0, key)
    ensures Fetch(s, slots, base, key) == Found(0)
  {
    hide TextMatches, TooShort, Loc;
    StoreAlone(s, stored, 0);
    assert s.look(s.TagOf(s.hash(key)), s.pack(s.TagOf(s.hash(key)), 0)) == Candidate(0);
  }

  /** The run theorem holds for exactly the separators that fit the case map. */
  lemma SeparatorsExactly(s: Scheme)
    requires s.Valid() && s.Faithful() && s.okay(0) && s.hash == Crc.Hash
    ensures (forall ops, id :: LegalRun(s, ops) && IsName(s, id) ==> RightAnswer(s, ops, id)) <==> SepFits(s)
  {
    hide RightAnswer, LegalRun, IsName, Scheme.Valid, Scheme.Faithful, OneStore, ShorterId, LongerId, Crc.Hash;
    if SepFits(s) {
      forall ops, id | LegalRun(s, ops) && IsName(s, id) ensures RightAnswer(s, ops, id) {
        FirstStoreWins(s, ops, id);
      }
    } else if 'A' <= s.fieldsep <= 'Z' {
      CapitalLoses(s);
    } else if s.fieldsep == '@' {
      AtLoses(s);
    } else {
      LetterConfuses(s);
    }
  }

  /** That goes for every configuration whose tags lose nothing. */
  lemma SeparatorsOfConf(c: DirFile.Conf, mine: seq<int>)
    requires Usable(c) && IsOrder(mine) && (Sound(MasksOf(c)) || TagFree(c))
    ensures var s := SchemeOf(c, mine);
      s.Valid() && ((forall ops, id :: LegalRun(s, ops) && IsName(s, id) ==> RightAnswer(s, ops, id)) <==> SepFits(s))
  {
    hide MasksOf, Sound, TagFree, IsOrder, RightAnswer, LegalRun, IsName, SepFits, Scheme.Valid, Scheme.Faithful;
    SchemeLawful(c, mine);
    SeparatorsExactly(SchemeOf(c, mine));
  }

  // ------------------------------------------------------------------ tag masks without a gap

  /** An id that case mapping leaves alone, with the largest hash there is. */
  function LargestId(s: Scheme): string { if s.fieldsep in Crc.DIGITS then Crc.MARKS else Crc.DIGITS }

  lemma LargestIs(s: Scheme)
    requires s.hash == Crc.Hash
    ensures IsId(s, LargestId(s)) && s.hash(KeyOf(s, LargestId(s))) == Crc.LARGEST
    ensures MapCase(s.casemap, LargestId(s)) == LargestId(s)
  {
    hide MapCase, Crc.Hash;
    NoCapitals(s.casemap, LargestId(s));
    KeyParts(s, LargestId(s));
    Crc.DigitsHash();
    Crc.MarksHash();
  }

  lemma OnlyWord(s: Scheme, key: string)
    requires s.Valid()
    ensures var tag := s.TagOf(s.hash(key));
      forall p :: p in Store(s, map[], key, 0) ==> Store(s, map[], key, 0)[p] == s.pack(tag, 0)
  {
    hide Loc, Scheme.TagOf;
    StoreAlone(s, key, 0);
  }

  /** An offset 0 that its own key reads as something else is lost. */
  lemma MisreadLost(s: Scheme, id: string)
    requires s.Valid() && s.okay(0) && IsId(s, id)
    requires var tag := s.TagOf(s.hash(KeyOf(s, id))); s.look(tag, s.pack(tag, 0)) != Candidate(0)
    ensures LegalRun(s, OneStore(s, id)) && !RightAnswer(s, OneStore(s, id), id)
  {
    hide MapCase, KeyOf, FetchKey, Run, Reference, LegalRun, Scheme.Valid, Scheme.TagOf, IsId, OneStore, Fetch, Store;
    OneStoreRun(s, id);
    FetchKeyShort(s, id) by { IdShort(s, id); }
    OnlyWord(s, KeyOf(s, id));
    NotHeld(s, Store(s, map[], KeyOf(s, id), 0), id + [s.fieldsep], KeyOf(s, id));
  }

  lemma NotHeld(s: Scheme, slots: Slots, base: string, key: string)
    requires s.Valid() && |key| > 0
    requires forall p :: p in slots ==> s.look(s.TagOf(s.hash(key)), slots[p]) != Candidate(0)
    ensures Fetch(s, slots, base, key) != Found(0)
  {
    hide TextMatches, TooShort, Loc, Scheme.Valid;
    FoundHeld(s, slots, base, key, 0);
  }

  /** With such a mask and a table smaller than the range of the hash, an id with the largest hash is stored at offset 0
      and not found there. */
  lemma GaplessLoses(c: DirFile.Conf, mine: seq<int>)
    requires Usable(c) && IsOrder(mine) && c.tagmask == -1 && c.tagenb == 0 && c.tagshift < 32
    requires c.tsize <= Crc.LARGEST
    ensures var s := SchemeOf(c, mine); var id := LargestId(s);
      s.Valid() && IsId(s, id) && LegalRun(s, OneStore(s, id)) && !RightAnswer(s, OneStore(s, id), id)
  {
    hide MasksOf, IsOrder, LegalRun, RightAnswer, IsId, LargestId, KeyOf, OneStore, Crc.Hash, TagFree, Sound;
    var s, d := SchemeOf(c, mine), c.(used := []);
    SchemeLawful(c, mine);
    hide Scheme.Valid;
    LargestIs(s);
    SameTags(c, d);
    GaplessTagFree(d);
    TagOfLargest(d);
    DivBelow(Crc.LARGEST, c.tsize);
    TagNotOnes(d, Crc.LARGEST / c.tsize);
    hide MkTagOf, LookOf, PackOf, OkayOf;
    TagReadAsOffset(d, mine, MkTagOf(d, Crc.LARGEST / c.tsize));
    MisreadLost(s, LargestId(s));
  }

  /** Every fetch after every legal run on a database that dbzfresh made answers right exactly when the separator
      fits the case map, and the tag mask the size of the table. */
  lemma AnswersExactly(c: DirFile.Conf, mine: seq<int>, size: int, fs: char, cmap: char, tagmask: int)
    requires Dbz.IsFresh(c, mine, size, fs, cmap, tagmask)
    ensures var s := SchemeOf(c, mine);
      && s.Valid()
      && ((forall ops, id :: LegalRun(s, ops) && IsName(s, id) ==> RightAnswer(s, ops, id))
          <==> SepFits(s) && Dbz.TagsFit(tagmask, s.tsize))
  {
    hide MasksOf, IsOrder, LegalRun, RightAnswer, IsName, LargestId, OneStore;
    hide TagFree, Sound, Gapless, FreshMasks, SepFits;
    hide Crc.Hash, Scheme.Valid, Scheme.Faithful;
    SchemeLawful(c, mine);
    Dbz.FreshFaithful(c, mine, size, fs, cmap, tagmask);
    if Dbz.TagsFit(tagmask, c.tsize) {
      SeparatorsExactly(SchemeOf(c, mine));
    } else {
      GaplessLoses(c, mine);
    }
  }

  // ------------------------------------------------------------------ offsets that go back

  /** Two ids of different lengths with the same hash. */
  function EarlyId(): string { Crc.Cancelled("1") }

  function LateId(): string { Crc.Cancelled("22") }

  function BothTexts(s: Scheme): string { LateId() + [s.fieldsep] + EarlyId() + [s.fieldsep] }

  /** The second id of the base file is stored before the first. */
  function BackwardRun(s: Scheme): seq<Op> {
    [Append(BothTexts(s)), StoreOp(EarlyId(), |LateId()| + 1), StoreOp(LateId(), 0)]
  }

  lemma NoCapitals(casemap: char, t: string)
    requires forall i :: 0 <= i < |t| ==> Low(t[i]) == t[i]
    ensures MapCase(casemap, t) == t
  {
    hide CiPoint;
    assert Lower(t[CiPoint(casemap, t)..]) == t[CiPoint(casemap, t)..];
  }

  lemma PlainIds(s: Scheme)
    ensures |EarlyId()| == 6 && |LateId()| == 7
    ensures MapCase(s.casemap, EarlyId()) == EarlyId() && MapCase(s.casemap, LateId()) == LateId()
    ensures KeyOf(s, EarlyId()) == EarlyId() + ['\0'] && KeyOf(s, LateId()) == LateId() + ['\0']
    ensures Crc.Hash(KeyOf(s, EarlyId())) == Crc.Hash(KeyOf(s, LateId()))
  {
    hide MapCase, Crc.Hash, KeyOf, Crc.Cancelled;
    NoCapitals(s.casemap, EarlyId());
    NoCapitals(s.casemap, LateId());
    KeyParts(s, EarlyId());
    KeyParts(s, LateId());
    Crc.Collide("1", "22", ['\0']);
  }

  lemma BothTextsAt(s: Scheme)
    ensures TextAt(s, BothTexts(s), |LateId()| + 1, EarlyId()) && TextAt(s, BothTexts(s), 0, LateId())
    ensures |BothTexts(s)| == |LateId()| + |EarlyId()| + 2
  {
    hide MapCase, EarlyId, LateId;
    var base, n := BothTexts(s), |LateId()| + 1;
    assert base[n..n + |EarlyId()|] == EarlyId();
    assert base[0..|LateId()|] == LateId();
  }

  lemma BackwardState(s: Scheme)
    requires s.Valid()
    ensures var ops := BackwardRun(s); var v := |LateId()| + 1;
      && Run(s, ops).base == BothTexts(s)
      && Run(s, ops).slots == Store(s, Store(s, map[], KeyOf(s, EarlyId()), v), KeyOf(s, LateId()), 0)
      && MapCase(s.casemap, LateId()) in Reference(s, ops)
  {
    hide MapCase, KeyOf, Store, LogStore, Scheme.Valid, EarlyId, LateId, BothTexts;
    var ops := BackwardRun(s);
    assert ops[..2][..1] == ops[..1] && ops[..1][..0] == [] && ops[..3] == ops;
    RunNone(s);
    assert Run(s, ops[..1]).base == "" + BothTexts(s) == BothTexts(s);
    assert Run(s, ops[..1]).slots == map[];
    assert Run(s, ops[..2]).slots == Store(s, map[], KeyOf(s, EarlyId()), |LateId()| + 1);
  }

  /** Two stores of offsets that point at their ids, the later one first: the second id is then not found, because the
      fetch meets the first one's offset and cannot read a whole key there. */
  lemma BackwardOffsetsFail(s: Scheme)
    requires s.Valid() && s.Faithful() && s.hash == Crc.Hash && s.okay(|LateId()| + 1)
    ensures TextAt(s, BothTexts(s), |LateId()| + 1, EarlyId()) && TextAt(s, BothTexts(s), 0, LateId())
    ensures Run(s, BackwardRun(s)).base == BothTexts(s) && !RightAnswer(s, BackwardRun(s), LateId())
    ensures Fetch(s, Run(s, BackwardRun(s)).slots, BothTexts(s), KeyOf(s, LateId())) == Broken
  {
    hide MapCase, KeyOf, Run, Reference, EarlyId, LateId, BothTexts, BackwardRun, Crc.Hash, TextAt;
    BothTextsAt(s);
    BackwardState(s);
    PlainIds(s);
    FetchKeyShort(s, LateId());
    BrokenAtHead(s, BothTexts(s), KeyOf(s, EarlyId()), KeyOf(s, LateId()), |LateId()| + 1);
  }

  lemma BrokenAtHead(s: Scheme, base: string, first: string, key: string, v: int)
    requires s.Valid() && s.Faithful() && v >= 0 && s.okay(v) && s.hash(first) == s.hash(key)
    requires |key| > 0 && TooShort(base, v, key)
    ensures Fetch(s, Store(s, Store(s, map[], first, v), key, 0), base, key) == Broken
  {
    hide TextMatches, Loc, TooShort;
    StoreAlone(s, first, v);
    var h := s.hash(key);
    var w, p := s.pack(s.TagOf(s.hash(key)), v), Loc(s.tsize, h, 0);
    assert s.look(s.TagOf(s.hash(key)), w) == Candidate(v);
    var both := Store(s, Store(s, map[], first, v), key, 0);
    assert p in both && both[p] == w;
  }

  /** In every configuration without tags, such as that of the news history, this input goes wrong. */
  lemma BackwardInHistory(c: DirFile.Conf, mine: seq<int>)
    requires Usable(c) && IsOrder(mine) && MasksOf(c) == NO_TAGS && FieldSep(c) == '\t'
    ensures var s := SchemeOf(c, mine); IsId(s, EarlyId()) && IsId(s, LateId()) && s.Valid()
    ensures !RightAnswer(SchemeOf(c, mine), BackwardRun(SchemeOf(c, mine)), LateId())
  {
    hide MasksOf, IsOrder, RightAnswer, BackwardRun, EarlyId, LateId;
    hide SchemeOf, Scheme.Valid, Scheme.Faithful, IsId, TextAt;
    var s := SchemeOf(c, mine);
    SchemeLawful(c, mine);
    NoTagsOkay(c, mine, |LateId()| + 1) by { LateLength(); }
    TabIds(s);
    NoTagsAreSound();
    BackwardOffsetsFail(s);
  }

  lemma LateLength()
    ensures |LateId()| == 7
  {
  }

  lemma TabIds(s: Scheme)
    requires s.fieldsep == '\t'
    ensures IsId(s, EarlyId()) && IsId(s, LateId())
  {
    hide Crc.Cancelled;
  }

  lemma NoTagsAreSound()
    ensures Sound(NO_TAGS)
  {
  }
}
