/** Whole runs of dbzstore and dbzfetch over a growing base file: the index is a plain first-store-wins map. */
module Runs {
  import opened Words
  import opened Index
  import opened CaseMap

  predicate IsLetter(c: char) { 'A' <= c <= 'Z' || 'a' <= c <= 'z' }

  /** The case map leaves the field separator alone, and turns nothing else into it. */
  predicate SepFits(s: Scheme) {
    && (s.casemap == '=' || s.casemap == 'C' ==> !IsLetter(s.fieldsep))
    && (s.casemap == 'C' ==> s.fieldsep != '@')
  }

  /** What an id may not contain. */
  predicate IsMark(s: Scheme, c: char) { c == s.fieldsep || c == '\0' }

  /** What may be asked for, and, if it is short enough, stored. */
  predicate IsName(s: Scheme, id: string) { forall i :: 0 <= i < |id| ==> !IsMark(s, id[i]) }

  predicate IsId(s: Scheme, id: string) { |id| + 1 < DBZMAXKEY && IsName(s, id) }

  /** The datum handed to dbzstore and dbzfetch includes the NUL; this is what they make of it. */
  function KeyOf(s: Scheme, id: string): (key: string)
    ensures |key| == |id| + 1
  {
    MapCase(s.casemap, id + ['\0'])
  }

  /** What dbzfetch makes of it also when it is too long to be stored. */
  function FetchKey(s: Scheme, id: string): (key: string)
    ensures 0 < |key| <= DBZMAXKEY
  {
    MapCase(s.casemap, (id + ['\0'])[..KeySize(id + ['\0'])])
  }

  lemma FetchKeyShort(s: Scheme, id: string)
    requires |id| + 1 < DBZMAXKEY
    ensures FetchKey(s, id) == KeyOf(s, id)
  {
    assert (id + ['\0'])[..|id| + 1] == id + ['\0'];
  }

  /** At v the base file has an id that maps like `id`, and a field separator. */
  predicate TextAt(s: Scheme, base: string, v: int, id: string) {
    && 0 <= v && v + |id| < |base|
    && MapCase(s.casemap, base[v..v + |id|]) == MapCase(s.casemap, id)
    && base[v + |id|] == s.fieldsep
  }

  datatype Op = Append(text: string) | StoreOp(id: string, value: int) | FetchOp(id: string)

  datatype State = State(base: string, slots: Slots, log: Log)

  ghost function Apply(s: Scheme, st: State, op: Op): State
    requires s.Valid()
  {
    match op
    case Append(text) => st.(base := st.base + text)
    case FetchOp(id) => st
    case StoreOp(id, value) =>
      State(st.base, Store(s, st.slots, KeyOf(s, id), value), LogStore(s, st.slots, st.log, KeyOf(s, id), value))
  }

  /** The state a run leads to, from a fresh database with an empty base file. */
  ghost function Run(s: Scheme, ops: seq<Op>): State
    requires s.Valid()
  {
    if ops == [] then State("", map[], Log([], map[]))
    else Apply(s, Run(s, ops[..|ops| - 1]), ops[|ops| - 1])
  }

  /** What the header comment of dbz.c asks of its users: a stored offset points to the key in the base file, and as the
      base file only grows, later stores come with later offsets. */
  ghost predicate LegalOp(s: Scheme, st: State, op: Op)
    requires s.Valid()
  {
    match op
    case Append(_) => true
    case FetchOp(id) => IsName(s, id)
    case StoreOp(id, value) =>
      && IsId(s, id) && s.okay(value) && TextAt(s, st.base, value, id)
      && forall i :: 0 <= i < |st.log.entries| ==> st.log.entries[i].value <= value
  }

  ghost predicate LegalRun(s: Scheme, ops: seq<Op>)
    requires s.Valid()
  {
    ops != [] ==>
      LegalRun(s, ops[..|ops| - 1]) && LegalOp(s, Run(s, ops[..|ops| - 1]), ops[|ops| - 1])
  }

  /** The map the database stands for: the first offset stored for each id up to case mapping. */
  function Reference(s: Scheme, ops: seq<Op>): map<string, int> {
    if ops == [] then map[]
    else Noted(s, Reference(s, ops[..|ops| - 1]), ops[|ops| - 1])
  }

  function Noted(s: Scheme, m: map<string, int>, op: Op): map<string, int> {
    match op
    case StoreOp(id, value) =>
      if MapCase(s.casemap, id) in m then m else m[MapCase(s.casemap, id) := value]
    case _ => m
  }

  /** The first offset stored for an id or one that is the same. */
  function FirstStored(casemap: char, ops: seq<Op>, id: string): Outcome {
    if ops == [] then Missed
    else
      var before, op := FirstStored(casemap, ops[..|ops| - 1], id), ops[|ops| - 1];
      if before == Missed && op.StoreOp? && SameName(casemap, op.id, id) then Found(op.value) else before
  }

  lemma {:induction false} ReferenceFirst(s: Scheme, ops: seq<Op>, id: string)
    ensures FirstStored(s.casemap, ops, id) ==
      if MapCase(s.casemap, id) in Reference(s, ops) then Found(Reference(s, ops)[MapCase(s.casemap, id)]) else Missed
    decreases |ops|
  {
    hide MapCase, SameName;
    if ops != [] {
      ReferenceFirst(s, ops[..|ops| - 1], id);
      if ops[|ops| - 1].StoreOp? { MapSame(s.casemap, ops[|ops| - 1].id, id); }
    }
  }

  // ------------------------------------------------------------------ text and keys

  lemma MapCaseChars(casemap: char, s: string)
    ensures forall i :: 0 <= i < |s| ==> MapCase(casemap, s)[i] == s[i] || MapCase(casemap, s)[i] == Low(s[i])
  {
    hide CiPoint;
  }

  lemma MapCaseNone(casemap: char, s: string)
    requires casemap != '=' && casemap != 'C'
    ensures MapCase(casemap, s) == s
  {
  }

  lemma LowMark(s: Scheme, c: char)
    requires !IsLetter(s.fieldsep)
    ensures IsMark(s, Low(c)) <==> IsMark(s, c)
    ensures c == s.fieldsep ==> Low(c) == c
  {
  }

  lemma KeyParts(s: Scheme, id: string)
    ensures KeyOf(s, id) == MapCase(s.casemap, id) + ['\0']
  {
    MapCaseSnoc(s.casemap, id, '\0');
  }

  /** Case mapping neither makes nor removes a mark. */
  lemma MarksKept(s: Scheme, id: string)
    requires SepFits(s)
    ensures forall i :: 0 <= i < |id| ==> (IsMark(s, MapCase(s.casemap, id)[i]) <==> IsMark(s, id[i]))
  {
    hide MapCase;
    if s.casemap == '=' || s.casemap == 'C' {
      MapCaseChars(s.casemap, id);
      forall i | 0 <= i < |id| ensures IsMark(s, MapCase(s.casemap, id)[i]) <==> IsMark(s, id[i]) {
        LowMark(s, id[i]);
      }
    } else {
      MapCaseNone(s.casemap, id);
    }
  }

  /** A separator at the end is mapped to itself and has no effect on the rest. */
  lemma MapSepSnoc(s: Scheme, t: string)
    requires SepFits(s)
    ensures MapCase(s.casemap, t + [s.fieldsep]) == MapCase(s.casemap, t) + [s.fieldsep]
  {
    if s.casemap == '=' {
      assert t[..0] == [] && t[0..] == t;
      assert (t + [s.fieldsep])[..0] == [] && (t + [s.fieldsep])[0..] == t + [s.fieldsep];
    } else {
      hide MapCase;
      if s.casemap == 'C' {
        MapCaseSnoc(s.casemap, t, s.fieldsep);
      } else {
        MapCaseNone(s.casemap, t);
        MapCaseNone(s.casemap, t + [s.fieldsep]);
      }
    }
  }

  /** The comparison of fetch() for a key with a final NUL. */
  lemma MatchUnfolded(s: Scheme, base: string, v: int, other: string)
    requires IsId(s, other) && !TooShort(base, v, KeyOf(s, other))
    ensures var n := |other|; var buffer := MapCase(s.casemap, base[v..v + n + 1]);
      TextMatches(s, base, v, KeyOf(s, other)) <==> MapCase(s.casemap, other) == buffer[..n] && IsMark(s, buffer[n])
  {
    KeyParts(s, other);
    hide MapCase;
    assert KeyOf(s, other)[..|other|] == MapCase(s.casemap, other);
  }

  lemma SameLengthMatch(s: Scheme, base: string, v: int, id: string)
    requires SepFits(s) && TextAt(s, base, v, id)
    ensures MapCase(s.casemap, base[v..v + |id| + 1]) == MapCase(s.casemap, id) + [s.fieldsep]
  {
    hide MapCase;
    MapSepSnoc(s, base[v..v + |id|]);
    assert base[v..v + |id| + 1] == base[v..v + |id|] + [s.fieldsep];
  }

  /** Inside the text of an entry there is no mark, and mapping makes none. */
  lemma NoMarkInside(s: Scheme, base: string, v: int, id: string, n: nat)
    requires SepFits(s) && IsId(s, id) && TextAt(s, base, v, id) && n < |id|
    ensures !IsMark(s, MapCase(s.casemap, base[v..v + n + 1])[n])
  {
    var text := base[v..v + |id|];
    assert !IsMark(s, text[n]) by {
      MarksKept(s, text);
      MarksKept(s, id);
      hide MapCase, IsMark;
      assert !IsMark(s, id[n]);
    }
    MarksKept(s, base[v..v + n + 1]);
    hide MapCase, IsMark;
    assert base[v..v + n + 1][n] == text[n];
  }

  /** At its end there is one, and mapping keeps it. */
  lemma MarkAtEnd(s: Scheme, base: string, v: int, id: string, n: nat)
    requires SepFits(s) && TextAt(s, base, v, id) && v + n < |base| && n > |id|
    ensures IsMark(s, MapCase(s.casemap, base[v..v + n + 1])[|id|])
  {
    MarksKept(s, base[v..v + n + 1]);
    hide MapCase;
    assert base[v..v + n + 1][|id|] == s.fieldsep;
  }

  /** A key matches the text of an entry exactly when it is the entry's key. */
  lemma MatchIsEqual(s: Scheme, base: string, v: int, id: string, other: string)
    requires SepFits(s) && IsId(s, id) && IsId(s, other) && TextAt(s, base, v, id)
    requires !TooShort(base, v, KeyOf(s, other))
    ensures TextMatches(s, base, v, KeyOf(s, other)) <==> KeyOf(s, other) == KeyOf(s, id)
  {
    hide MapCase, TextMatches, KeyOf, TextAt, IsMark, IsId, SepFits;
    SameKeys(s, other, id);
    MatchUnfolded(s, base, v, other);
    if |other| == |id| {
      SameLengthMatch(s, base, v, id);
      SepIsMark(s);
      DropLast(MapCase(s.casemap, id), s.fieldsep);
    } else if |other| < |id| {
      NoMarkInside(s, base, v, id, |other|);
    } else {
      LongerDiffers(s, base, v, id, other);
    }
  }

  lemma DropLast(t: string, c: char)
    ensures (t + [c])[..|t|] == t && (t + [c])[|t|] == c
  {
  }

  lemma LongerDiffers(s: Scheme, base: string, v: int, id: string, other: string)
    requires SepFits(s) && IsId(s, other) && TextAt(s, base, v, id) && |other| > |id|
    requires !TooShort(base, v, KeyOf(s, other))
    ensures MapCase(s.casemap, base[v..v + |other| + 1])[..|other|] != MapCase(s.casemap, other)
  {
    MarkAtEnd(s, base, v, id, |other|);
    MarksKept(s, other);
    hide MapCase, IsMark;
  }

  lemma SepIsMark(s: Scheme)
    ensures IsMark(s, s.fieldsep)
  {
  }

  // ------------------------------------------------------------------ runs

  /** Every entry of the log has its text in the base file. */
  ghost predicate Texts(s: Scheme, base: string, log: Log) {
    forall i :: 0 <= i < |log.entries| ==> HasText(s, base, log.entries[i])
  }

  ghost predicate HasText(s: Scheme, base: string, e: Entry) {
    exists id :: IsId(s, id) && e.key == KeyOf(s, id) && TextAt(s, base, e.value, id)
  }

  lemma TextsDistinct(s: Scheme, base: string, log: Log, id: string)
    requires s.Valid() && SepFits(s) && Texts(s, base, log) && IsId(s, id)
    ensures Distinct(s, base, log, KeyOf(s, id))
  {
    var key := KeyOf(s, id);
    hide TextMatches, TextAt, KeyOf, IsId;
    forall i | 0 <= i < |log.entries|
      ensures log.entries[i].key == key ==> !TooShort(base, log.entries[i].value, key)
      ensures !TooShort(base, log.entries[i].value, key) ==>
        (TextMatches(s, base, log.entries[i].value, key) <==> log.entries[i].key == key)
    {
      assert HasText(s, base, log.entries[i]);
      EntryReadable(s, base, log.entries[i], id);
    }
  }

  lemma EntryReadable(s: Scheme, base: string, e: Entry, id: string)
    requires SepFits(s) && HasText(s, base, e) && IsId(s, id)
    ensures var key := KeyOf(s, id);
      && (e.key == key ==> !TooShort(base, e.value, key))
      && (!TooShort(base, e.value, key) ==> (TextMatches(s, base, e.value, key) <==> e.key == key))
  {
    hide MapCase, TextMatches, KeyOf;
    var own :| IsId(s, own) && e.key == KeyOf(s, own) && TextAt(s, base, e.value, own);
    if !TooShort(base, e.value, KeyOf(s, id)) {
      MatchIsEqual(s, base, e.value, own, id);
    }
  }

  lemma TextKept(s: Scheme, base: string, more: string, e: Entry)
    requires HasText(s, base, e)
    ensures HasText(s, base + more, e)
  {
    hide MapCase, KeyOf;
    var id :| IsId(s, id) && e.key == KeyOf(s, id) && TextAt(s, base, e.value, id);
    assert (base + more)[e.value..e.value + |id|] == base[e.value..e.value + |id|];
    assert TextAt(s, base + more, e.value, id);
  }

  /** The log says what the reference map says. */
  ghost predicate Agrees(s: Scheme, log: Log, m: map<string, int>) {
    forall id :: IsId(s, id) ==>
      var i := First(log.entries, KeyOf(s, id));
      if i < |log.entries| then MapCase(s.casemap, id) in m && m[MapCase(s.casemap, id)] == log.entries[i].value
      else MapCase(s.casemap, id) !in m
  }

  lemma FirstUnique(entries: seq<Entry>, key: string, i: nat)
    requires i <= |entries| && (forall j :: 0 <= j < i ==> entries[j].key != key)
    requires (i < |entries| ==> entries[i].key == key)
    ensures First(entries, key) == i
  {
  }

  lemma FirstAppended(entries: seq<Entry>, e: Entry, key: string)
    ensures First(entries + [e], key) ==
      if First(entries, key) < |entries| then First(entries, key)
      else if e.key == key then |entries| else |entries| + 1
  {
    var n := First(entries, key);
    FirstUnique(entries + [e], key, if n < |entries| || e.key == key then n else n + 1);
  }

  /** What a legal run always maintains. */
  ghost predicate Sane(s: Scheme, st: State, m: map<string, int>)
    requires s.Valid()
  {
    Built(s, st.slots, st.log) && Texts(s, st.base, st.log) && Growing(st.log) && Agrees(s, st.log, m)
  }

  lemma SaneStart(s: Scheme)
    requires s.Valid()
    ensures Sane(s, State("", map[], Log([], map[])), map[])
  {
    BuiltEmpty(s);
    hide KeyOf, MapCase;
  }

  lemma SameKeys(s: Scheme, a: string, b: string)
    ensures KeyOf(s, a) == KeyOf(s, b) <==> MapCase(s.casemap, a) == MapCase(s.casemap, b)
  {
    KeyParts(s, a);
    KeyParts(s, b);
    hide MapCase;
    assert KeyOf(s, a)[..|a|] == MapCase(s.casemap, a) && KeyOf(s, b)[..|b|] == MapCase(s.casemap, b);
  }

  lemma AgreesStored(s: Scheme, log: Log, m: map<string, int>, id: string, value: int, e: Entry, log': Log)
    requires Agrees(s, log, m) && IsId(s, id) && e.key == KeyOf(s, id) && e.value == value
    requires log'.entries == log.entries + [e]
    ensures Agrees(s, log', Noted(s, m, StoreOp(id, value)))
  {
    hide KeyOf, MapCase, IsId, First;
    forall other | IsId(s, other)
      ensures var i := First(log'.entries, KeyOf(s, other)); var m' := Noted(s, m, StoreOp(id, value));
        if i < |log'.entries|
        then MapCase(s.casemap, other) in m' && m'[MapCase(s.casemap, other)] == log'.entries[i].value
        else MapCase(s.casemap, other) !in m'
    {
      FirstAppended(log.entries, e, KeyOf(s, other));
      SameKeys(s, id, other);
    }
  }

  lemma TextsAppended(s: Scheme, base: string, log: Log, e: Entry, log': Log)
    requires Texts(s, base, log) && Growing(log) && HasText(s, base, e) && log'.entries == log.entries + [e]
    requires forall i :: 0 <= i < |log.entries| ==> log.entries[i].value <= e.value
    ensures Texts(s, base, log') && Growing(log')
  {
    hide HasText;
  }

  lemma StoredText(s: Scheme, base: string, id: string, value: int, e: Entry)
    requires IsId(s, id) && e.key == KeyOf(s, id) && e.value == value && TextAt(s, base, value, id)
    ensures HasText(s, base, e) && value >= 0
  {
    hide KeyOf, MapCase;
  }

  lemma SaneStore(s: Scheme, st: State, m: map<string, int>, id: string, value: int)
    requires s.Valid() && s.Faithful() && SepFits(s) && Sane(s, st, m) && LegalOp(s, st, StoreOp(id, value))
    ensures Sane(s, Apply(s, st, StoreOp(id, value)), Noted(s, m, StoreOp(id, value)))
  {
    hide KeyOf, MapCase, Built, Agrees, Noted, HasText, Texts;
    hide Growing, Store, TextAt, IsId, Scheme.Valid, Scheme.Faithful;
    var key := KeyOf(s, id);
    var log' := LogStore(s, st.slots, st.log, key, value);
    var e := log'.entries[|st.log.entries|];
    StoredText(s, st.base, id, value, e);
    StoreBuilt(s, st.slots, st.log, key, value);
    AgreesStored(s, st.log, m, id, value, e, log');
    TextsAppended(s, st.base, st.log, e, log');
  }

  lemma SaneStep(s: Scheme, st: State, m: map<string, int>, op: Op)
    requires s.Valid() && s.Faithful() && SepFits(s) && Sane(s, st, m) && LegalOp(s, st, op)
    ensures Sane(s, Apply(s, st, op), Noted(s, m, op))
  {
    match op
    case FetchOp(_) =>
    case StoreOp(id, value) => SaneStore(s, st, m, id, value);
    case Append(text) =>
      hide Built, Agrees, HasText;
      forall i | 0 <= i < |st.log.entries| ensures HasText(s, st.base + text, st.log.entries[i]) {
        TextKept(s, st.base, text, st.log.entries[i]);
      }
  }

  lemma {:induction false} RunSane(s: Scheme, ops: seq<Op>)
    requires s.Valid() && s.Faithful() && SepFits(s) && LegalRun(s, ops)
    ensures Sane(s, Run(s, ops), Reference(s, ops))
    decreases |ops|
  {
    hide Sane, Apply, Noted, LegalOp;
    if ops == [] {
      SaneStart(s);
    } else {
      var before := ops[..|ops| - 1];
      RunSane(s, before);
      SaneStep(s, Run(s, before), Reference(s, before), ops[|ops| - 1]);
    }
  }

  /** A fetch returns exactly the first offset stored for the id (up to case mapping), or nothing if none was. */
  ghost predicate RightAnswer(s: Scheme, ops: seq<Op>, id: string)
    requires s.Valid()
  {
    var r := Fetch(s, Run(s, ops).slots, Run(s, ops).base, FetchKey(s, id));
    if MapCase(s.casemap, id) in Reference(s, ops) then r == Found(Reference(s, ops)[MapCase(s.casemap, id)])
    else !r.Found?
  }

  lemma DiffersAt(s: Scheme, base: string, v: int, key: string, i: nat)
    requires |key| == DBZMAXKEY && !TooShort(base, v, key) && i < DBZMAXKEY - 1
    requires key[i] != MapCase(s.casemap, base[v..v + DBZMAXKEY])[i]
    ensures !TextMatches(s, base, v, key)
  {
    hide MapCase;
    var buffer := MapCase(s.casemap, base[v..v + DBZMAXKEY]);
    assert key[..DBZMAXKEY - 1][i] == key[i] && buffer[..DBZMAXKEY - 1][i] == buffer[i];
    assert key[..DBZMAXKEY][i] == key[i];
  }

  /** A text with a separator inside the key's length does not match the key of a longer id, which has none. */
  lemma LongDiffers(s: Scheme, base: string, v: int, own: string, id: string)
    requires SepFits(s) && IsId(s, own) && TextAt(s, base, v, own) && IsName(s, id) && !IsId(s, id)
    requires !TooShort(base, v, FetchKey(s, id))
    ensures !TextMatches(s, base, v, FetchKey(s, id))
  {
    hide MapCase, IsMark, SepFits, TextMatches, TextAt;
    var t, key := (id + ['\0'])[..DBZMAXKEY], FetchKey(s, id);
    assert KeySize(id + ['\0']) == DBZMAXKEY && |key| == DBZMAXKEY && t[|own|] == id[|own|];
    MarkAtEnd(s, base, v, own, DBZMAXKEY - 1);
    MarksKept(s, t);
    DiffersAt(s, base, v, key, |own|);
  }

  /** An id too long to be stored is not found. */
  lemma LongMissed(s: Scheme, slots: Slots, base: string, log: Log, id: string)
    requires s.Valid() && s.Faithful() && SepFits(s) && Built(s, slots, log) && Texts(s, base, log)
    requires IsName(s, id) && !IsId(s, id)
    ensures !Fetch(s, slots, base, FetchKey(s, id)).Found?
  {
    hide TextMatches, TooShort, TextAt, IsName, KeyOf, FetchKey, Loc;
    var key := FetchKey(s, id);
    FoundHeld(s, slots, base, key, 0);
    match Fetch(s, slots, base, key) {
      case Found(v) =>
        var p :| p in slots && s.look(s.TagOf(s.hash(key)), slots[p]) == Candidate(v);
        var o := log.owner[p];
        assert Placed(s, slots, log, o);
        var e := log.entries[o];
        assert s.look(s.TagOf(s.hash(key)), s.pack(s.TagOf(s.hash(e.key)), e.value)) in {Mismatch, Candidate(e.value)};
        assert HasText(s, base, e);
        var own :| IsId(s, own) && e.key == KeyOf(s, own) && TextAt(s, base, e.value, own);
        LongDiffers(s, base, v, own, id);
      case _ =>
    }
  }

  /** Only ids short enough are in the map. */
  lemma {:induction false} ReferenceShort(s: Scheme, ops: seq<Op>, id: string)
    requires s.Valid() && LegalRun(s, ops) && |id| + 1 >= DBZMAXKEY
    ensures MapCase(s.casemap, id) !in Reference(s, ops)
    decreases |ops|
  {
    hide MapCase, Run, TextAt, IsName;
    if ops != [] {
      ReferenceShort(s, ops[..|ops| - 1], id);
    }
  }

  /** After any legal run every fetch answers right. */
  lemma FirstStoreWins(s: Scheme, ops: seq<Op>, id: string)
    requires s.Valid() && s.Faithful() && SepFits(s) && LegalRun(s, ops) && IsName(s, id)
    ensures RightAnswer(s, ops, id)
    ensures var r := Fetch(s, Run(s, ops).slots, Run(s, ops).base, FetchKey(s, id));
      if FirstStored(s.casemap, ops, id).Found? then r == FirstStored(s.casemap, ops, id) else !r.Found?
  {
    hide MapCase, Run, Reference, LegalRun, Fetch, KeyOf, IsName, FetchKey, Scheme.Valid, Scheme.Faithful, SepFits;
    hide FirstStored;
    ReferenceFirst(s, ops, id);
    RunSane(s, ops);
    var st := Run(s, ops);
    if IsId(s, id) {
      FetchKeyShort(s, id);
      TextsDistinct(s, st.base, st.log, id);
      FetchFirst(s, st.slots, st.log, st.base, KeyOf(s, id));
    } else {
      LongMissed(s, st.slots, st.base, st.log, id);
      ReferenceShort(s, ops, id);
    }
  }

  lemma {:induction false} FirstStoredAt(casemap: char, ops: seq<Op>, j: nat, id: string)
    requires j < |ops| && ops[j].StoreOp? && SameName(casemap, ops[j].id, id)
    requires forall i :: 0 <= i < j && ops[i].StoreOp? ==> !SameName(casemap, ops[i].id, id)
    ensures FirstStored(casemap, ops, id) == Found(ops[j].value)
    decreases |ops|
  {
    hide SameName;
    if j < |ops| - 1 {
      FirstStoredAt(casemap, ops[..|ops| - 1], j, id);
    } else {
      NoneStored(casemap, ops[..j], id);
    }
  }

  lemma {:induction false} NoneStored(casemap: char, ops: seq<Op>, id: string)
    requires forall i :: 0 <= i < |ops| && ops[i].StoreOp? ==> !SameName(casemap, ops[i].id, id)
    ensures FirstStored(casemap, ops, id) == Missed
    decreases |ops|
  {
    hide SameName;
    if ops != [] {
      NoneStored(casemap, ops[..|ops| - 1], id);
    }
  }

  /** Under `=` a fetch of any case variant of a stored id gives the offset first stored for a variant. */
  lemma VariantFinds(s: Scheme, ops: seq<Op>, j: nat, id: string)
    requires s.Valid() && s.Faithful() && SepFits(s) && LegalRun(s, ops) && IsName(s, id) && s.casemap == '='
    requires j < |ops| && ops[j].StoreOp? && Lower(ops[j].id) == Lower(id)
    requires forall i :: 0 <= i < j && ops[i].StoreOp? ==> Lower(ops[i].id) != Lower(id)
    ensures Fetch(s, Run(s, ops).slots, Run(s, ops).base, FetchKey(s, id)) == Found(ops[j].value)
  {
    hide MapCase, Run, LegalRun, Fetch, FetchKey, IsName, Scheme.Valid, Scheme.Faithful, SepFits, RightAnswer, Lower;
    FirstStoreWins(s, ops, id);
    FirstStoredAt('=', ops, j, id);
  }

  /** No later operation changes or frees an occupied place. */
  lemma {:induction false} SlotsStay(s: Scheme, ops: seq<Op>, more: seq<Op>)
    requires s.Valid()
    ensures forall p :: p in Run(s, ops).slots ==>
      p in Run(s, ops + more).slots && Run(s, ops + more).slots[p] == Run(s, ops).slots[p]
    decreases |more|
  {
    hide LegalOp, LogStore;
    if more == [] {
      assert ops + more == ops;
    } else {
      var less := more[..|more| - 1];
      assert (ops + more)[..|ops + more| - 1] == ops + less;
      SlotsStay(s, ops, less);
      StepKeepsSlots(s, Run(s, ops + less), (ops + more)[|ops + more| - 1]);
    }
  }

  lemma StepKeepsSlots(s: Scheme, st: State, op: Op)
    requires s.Valid()
    ensures forall p :: p in st.slots ==> p in Apply(s, st, op).slots && Apply(s, st, op).slots[p] == st.slots[p]
  {
    hide KeyOf, LogStore, Loc;
  }
}
