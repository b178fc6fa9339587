/** The imperative database in use: any run of stores, fetches, appends, syncs, and closings and reopenings in either
    mode gives the answers of a first-store-wins map. */
module Sessions {
  import opened Words
  import opened Index
  import opened Runs
  import opened Opening
  import Dbz
  import CaseMap
  import Crc
  import DirFile
  import Decimal

  /** What a program does with a database; Reopen closes it and opens it again, with or without an in-core table. */
  datatype Call = Use(op: Op) | Sync | Reopen(incore: bool, writethrough: bool)

  /** The calls that the index knows of. */
  function OpsOf(calls: seq<Call>): (ops: seq<Op>)
    ensures |ops| <= |calls|
  {
    if calls == [] then []
    else
      var before := OpsOf(calls[..|calls| - 1]);
      match calls[|calls| - 1]
      case Use(op) => before + [op]
      case _ => before
  }

  /** What dbzfetch makes of an outcome. */
  function AnswerOf(outcome: Outcome): Dbz.Option<int> {
    if outcome.Found? then Dbz.Some(outcome.value) else Dbz.None
  }

  /** The answer a plain map gives that keeps the first offset for ids that are the same. */
  function Expected(s: Scheme, ops: seq<Op>, id: string): Dbz.Option<int> {
    AnswerOf(FirstStored(s.casemap, ops, id))
  }

  lemma CallsSnoc(calls: seq<Call>, k: nat)
    requires k < |calls|
    ensures calls[..k + 1][..k] == calls[..k] && calls[..k + 1][k] == calls[k]
    ensures OpsOf(calls[..k + 1]) == if calls[k].Use? then OpsOf(calls[..k]) + [calls[k].op] else OpsOf(calls[..k])
  {
    assert calls[..k + 1][..k] == calls[..k];
  }

  /** The configuration can be written and read back, and the .dir file is out of date only if `written` says so. */
  ghost predicate Prepared(mine: seq<int>, c: DirFile.Conf, s: Scheme, dir: DirFile.Option<DirFile.Conf>,
                           written: bool, count: int) {
    && IsOrder(mine) && DirFile.Storable(c) && Usable(c) && c.casemap != ' ' && s == SchemeOf(c, mine)
    && s.Valid()
    && 0 <= c.used[0] <= count < TWO63
    && (!written ==> dir == DirFile.Some(c))
  }

  lemma PreparedCounted(mine: seq<int>, c: DirFile.Conf, s: Scheme, dir: DirFile.Option<DirFile.Conf>, written: bool,
                        count: int)
    requires Prepared(mine, c, s, dir, written, count) && count + 1 < TWO63
    ensures Prepared(mine, Dbz.Counted(c), s, dir, true, count + 1)
  {
    hide IsOrder, Scheme.Valid, Scheme.Faithful;
  }

  lemma PreparedGrown(mine: seq<int>, c: DirFile.Conf, s: Scheme, dir: DirFile.Option<DirFile.Conf>, written: bool,
                      count: int)
    requires Prepared(mine, c, s, dir, written, count) && count + 1 < TWO63
    ensures Prepared(mine, c, s, dir, written, count + 1)
  {
    hide IsOrder, Scheme.Valid, Scheme.Faithful, DirFile.Storable, Usable, SchemeOf;
  }

  /** An open, writable database that holds what the state says. */
  ghost predicate InSession(db: Dbz.Database, s: Scheme, st: State, count: int)
    reads db, db.corepag
  {
    && db.Valid() && db.isOpen && !db.pagronly
    && db.s == s && db.slots == st.slots && db.base == st.base
    && Prepared(db.mine, db.conf, s, db.DirConf(), db.written, count)
  }

  lemma AskedKey(s: Scheme, id: string)
    ensures Dbz.MappedKey(s, id + ['\0']) == FetchKey(s, id) && |id + ['\0']| > 0
  {
  }

  lemma WholeKey(s: Scheme, id: string)
    requires IsId(s, id)
    ensures |id + ['\0']| < DBZMAXKEY && Dbz.MappedKey(s, id + ['\0']) == KeyOf(s, id)
  {
    var key := id + ['\0'];
    assert key[..KeySize(key)] == key;
  }

  method FetchCall(db: Dbz.Database, id: string, ghost s: Scheme, ghost st: State,
                   ghost count: int) returns (r: Dbz.Option<int>)
    requires InSession(db, s, st, count) && s.Valid() && IsName(s, id)
    modifies db
    ensures InSession(db, s, st, count) && db.corepag == old(db.corepag)
    ensures r == AnswerOf(Fetch(s, st.slots, st.base, FetchKey(s, id)))
  {
    hide Dbz.Database.Valid, Dbz.Database.DirConf, Prepared, Fetch, IsName, FetchKey, Scheme.Valid, Dbz.MappedKey;
    AskedKey(s, id);
    r := db.DbzFetch(id + ['\0']);
  }

  method StoreCall(db: Dbz.Database, id: string, value: int, ghost s: Scheme, ghost st: State, ghost count: int)
    requires InSession(db, s, st, count) && s.Valid() && IsId(s, id) && s.okay(value) && count + 1 < TWO63
    modifies db, db.corepag
    ensures InSession(db, s, Apply(s, st, StoreOp(id, value)), count + 1) && db.corepag == old(db.corepag)
  {
    hide Dbz.Database.Valid, Dbz.Database.DirConf, Prepared, Store, IsId, KeyOf;
    hide Scheme.Valid, Dbz.MappedKey, Dbz.Counted, LogStore;
    WholeKey(s, id);
    PreparedCounted(db.mine, db.conf, s, db.DirConf(), db.written, count);
    var ok := db.DbzStore(id + ['\0'], value);
  }

  method AppendCall(db: Dbz.Database, text: string, ghost s: Scheme, ghost st: State, ghost count: int)
    requires InSession(db, s, st, count) && s.Valid() && count + 1 < TWO63
    modifies db
    ensures InSession(db, s, Apply(s, st, Append(text)), count + 1) && db.corepag == old(db.corepag)
  {
    hide Dbz.Database.Valid, Dbz.Database.DirConf, Prepared, Scheme.Valid;
    PreparedGrown(db.mine, db.conf, s, db.DirConf(), db.written, count);
    db.AppendBase(text);
  }

  /** Once the configuration was written, it is what the next opening reads. */
  lemma PreparedSynced(mine: seq<int>, c: DirFile.Conf, s: Scheme, dir: DirFile.Option<DirFile.Conf>, written: bool,
                       count: int,
                       file: string, db: Dbz.Database)
    requires Prepared(mine, c, s, dir, written, count)
    requires db.dir == DirFile.Overwritten(file, DirFile.ConfText(c))
    ensures db.DirConf() == DirFile.Some(c) && Prepared(mine, c, s, db.DirConf(), written, count)
  {
    hide DirFile.Storable, DirFile.ConfText, DirFile.ParseConf, DirFile.Overwritten, IsOrder;
    hide Usable, SchemeOf, Scheme.Valid, Scheme.Faithful;
    DirFile.PutGetConf(file, c);
  }

  lemma PreparedUsable(mine: seq<int>, c: DirFile.Conf, s: Scheme, dir: DirFile.Option<DirFile.Conf>, written: bool,
                       count: int)
    requires Prepared(mine, c, s, dir, written, count)
    ensures Usable(c) && IsOrder(mine) && s == SchemeOf(c, mine) && (!written ==> dir == DirFile.Some(c))
  {
    hide DirFile.Storable, IsOrder, Usable, SchemeOf, Scheme.Valid, Scheme.Faithful;
  }

  lemma PreparedReopened(mine: seq<int>, c: DirFile.Conf, s: Scheme, written: bool, count: int)
    requires Prepared(mine, c, s, DirFile.Some(c), written, count)
    ensures Prepared(mine, c, s, DirFile.Some(c), false, count)
  {
    hide DirFile.Storable, IsOrder, Usable, SchemeOf, Scheme.Valid, Scheme.Faithful;
  }

  method SyncCall(db: Dbz.Database, ghost s: Scheme, ghost st: State, ghost count: int)
    requires InSession(db, s, st, count)
    modifies db
    ensures InSession(db, s, st, count) && db.corepag == old(db.corepag)
  {
    hide Dbz.Database.Valid, Dbz.Database.DirConf, Prepared, DirFile.Overwritten;
    hide DirFile.ConfText, Dbz.FileWord, Dbz.Synced;
    ghost var file, dir := db.dir, db.DirConf();
    var ok := db.DbzSync();
    if db.written {
      PreparedSynced(db.mine, db.conf, s, dir, db.written, count, file, db);
    }
  }

  method ReopenCall(db: Dbz.Database, incore: bool, writethrough: bool, ghost s: Scheme, ghost st: State,
                    ghost count: int)
    requires InSession(db, s, st, count)
    modifies db
    ensures InSession(db, s, st, count) && (db.corepag != null ==> fresh(db.corepag))
  {
    hide Dbz.Database.Valid, Prepared, DirFile.Overwritten, DirFile.ConfText, DirFile.ParseConf, DirFile.DefaultConf;
    hide Usable, IsOrder, SchemeOf;
    ghost var file, dir, c := db.dir, db.DirConf(), db.conf;
    PreparedUsable(db.mine, c, s, dir, db.written, count);
    var ok := db.DbmClose();
    if db.written {
      PreparedSynced(db.mine, c, s, dir, db.written, count, file, db);
    }
    PreparedReopened(db.mine, c, s, db.written, count);
    db.DbzWritethrough(writethrough);
    ok := db.DbmInit(incore, false);
  }

  lemma RunSnoc(s: Scheme, ops: seq<Op>, op: Op)
    requires s.Valid()
    ensures Run(s, ops + [op]) == Apply(s, Run(s, ops), op)
    ensures LegalRun(s, ops + [op]) <==> LegalRun(s, ops) && LegalOp(s, Run(s, ops), op)
  {
    hide Apply, LegalOp;
    assert (ops + [op])[..|ops|] == ops;
  }

  lemma {:induction false} LegalPrefix(s: Scheme, calls: seq<Call>, k: nat)
    requires s.Valid() && k <= |calls| && LegalRun(s, OpsOf(calls))
    ensures LegalRun(s, OpsOf(calls[..k]))
    decreases |calls|
  {
    hide LegalRun, LegalOp, Run, OpsOf;
    if k < |calls| {
      var n := |calls| - 1;
      CallsSnoc(calls, n);
      assert calls[..n + 1] == calls && calls[..n][..k] == calls[..k];
      if calls[n].Use? {
        RunSnoc(s, OpsOf(calls[..n]), calls[n].op);
      }
      LegalPrefix(s, calls[..n], k);
    } else {
      assert calls[..k] == calls;
    }
  }

  /** One call, and the answer if it was a fetch. */
  method OneCall(db: Dbz.Database, call: Call, ghost s: Scheme, ghost st: State,
                 ghost count: int) returns (r: Dbz.Option<int>)
    requires InSession(db, s, st, count) && s.Valid() && count + 1 < TWO63
    requires call.Use? ==> LegalOp(s, st, call.op)
    modifies db, db.corepag
    ensures InSession(db, s, if call.Use? then Apply(s, st, call.op) else st, count + 1)
    ensures db.corepag != null && db.corepag != old(db.corepag) ==> fresh(db.corepag)
    ensures call.Use? && call.op.FetchOp? ==>
      r == AnswerOf(Fetch(s, st.slots, st.base, FetchKey(s, call.op.id)))
  {
    hide InSession, Fetch, Store, LogStore, KeyOf, FetchKey, IsId, IsName, Scheme.Valid, TextAt;
    r := Dbz.None;
    match call {
      case Use(Append(text)) => AppendCall(db, text, s, st, count);
      case Use(StoreOp(id, value)) => StoreCall(db, id, value, s, st, count);
      case Use(FetchOp(id)) =>
        r := FetchCall(db, id, s, st, count);
        SessionGrown(db, s, st, count);
      case Sync =>
        SyncCall(db, s, st, count);
        SessionGrown(db, s, st, count);
      case Reopen(incore, writethrough) =>
        ReopenCall(db, incore, writethrough, s, st, count);
        SessionGrown(db, s, st, count);
    }
  }

  lemma SessionGrown(db: Dbz.Database, s: Scheme, st: State, count: int)
    requires InSession(db, s, st, count) && count + 1 < TWO63
    ensures InSession(db, s, st, count + 1)
  {
    hide Dbz.Database.Valid, Dbz.Database.DirConf, Prepared;
    PreparedGrown(db.mine, db.conf, s, db.DirConf(), db.written, count);
  }

  /** The answer the index gives to a fetch after a run. */
  ghost function IndexAnswer(s: Scheme, ops: seq<Op>, id: string): Dbz.Option<int>
    requires s.Valid()
  {
    AnswerOf(Fetch(s, Run(s, ops).slots, Run(s, ops).base, FetchKey(s, id)))
  }

  /** Any session on a fresh database answers every fetch as the index does, however it was synced, closed and reopened
      in between; and if tags and separator fit, as the map of first stores does. */
  method Session(db: Dbz.Database, calls: seq<Call>, ghost s: Scheme) returns (answers: seq<Dbz.Option<int>>)
    requires InSession(db, s, State("", map[], Log([], map[])), 0) && |calls| < TWO63
    requires s.Valid() && LegalRun(s, OpsOf(calls))
    modifies db, db.corepag
    ensures InSession(db, s, Run(s, OpsOf(calls)), |calls|) && |answers| == |calls|
    ensures forall k :: 0 <= k < |calls| && calls[k].Use? && calls[k].op.FetchOp? ==>
      answers[k] == IndexAnswer(s, OpsOf(calls[..k]), calls[k].op.id)
    ensures s.Faithful() && SepFits(s) ==>
      forall k :: 0 <= k < |calls| && calls[k].Use? && calls[k].op.FetchOp? ==>
        answers[k] == Expected(s, OpsOf(calls[..k]), calls[k].op.id)
  {
    hide InSession, Scheme.Valid, Scheme.Faithful, SepFits, LegalRun, LegalOp, Run, OpsOf, Expected, Apply, Fetch;
    hide IndexAnswer;
    answers := [];
    SessionStart(s, calls);
    while |answers| < |calls|
      invariant |answers| <= |calls|
      invariant InSession(db, s, Run(s, OpsOf(calls[..|answers|])), |answers|)
      invariant db.corepag != null && db.corepag != old(db.corepag) ==> fresh(db.corepag)
      invariant forall k :: 0 <= k < |answers| && calls[k].Use? && calls[k].op.FetchOp? ==>
        answers[k] == IndexAnswer(s, OpsOf(calls[..k]), calls[k].op.id)
      decreases |calls| - |answers|
    {
      var n := |answers|;
      SessionStep(s, calls, n);
      var r := OneCall(db, calls[n], s, Run(s, OpsOf(calls[..n])), n);
      answers := answers + [r];
    }
    assert calls[..|answers|] == calls;
    if s.Faithful() && SepFits(s) {
      forall k | 0 <= k < |calls| && calls[k].Use? && calls[k].op.FetchOp?
        ensures answers[k] == Expected(s, OpsOf(calls[..k]), calls[k].op.id)
      {
        ExpectedAnswer(s, calls, k);
      }
    }
  }

  lemma SessionStart(s: Scheme, calls: seq<Call>)
    requires s.Valid()
    ensures Run(s, OpsOf(calls[..0])) == State("", map[], Log([], map[]))
  {
  }

  /** The next call is legal, and leads on in the run. */
  lemma SessionStep(s: Scheme, calls: seq<Call>, n: nat)
    requires n < |calls| && s.Valid() && LegalRun(s, OpsOf(calls))
    ensures var st := Run(s, OpsOf(calls[..n]));
      && (calls[n].Use? ==> LegalOp(s, st, calls[n].op))
      && Run(s, OpsOf(calls[..n + 1])) == (if calls[n].Use? then Apply(s, st, calls[n].op) else st)
      && (calls[n].Use? && calls[n].op.FetchOp? ==>
            IndexAnswer(s, OpsOf(calls[..n]), calls[n].op.id) ==
              AnswerOf(Fetch(s, st.slots, st.base, FetchKey(s, calls[n].op.id))))
  {
    hide Scheme.Valid, LegalRun, Run, OpsOf, Apply, Fetch, KeyOf, FetchKey, IsId, IsName, TextAt;
    LegalPrefix(s, calls, n);
    LegalPrefix(s, calls, n + 1);
    CallsSnoc(calls, n);
    if calls[n].Use? {
      RunSnoc(s, OpsOf(calls[..n]), calls[n].op);
    }
  }

  lemma ExpectedAnswer(s: Scheme, calls: seq<Call>, k: nat)
    requires s.Valid() && s.Faithful() && SepFits(s) && LegalRun(s, OpsOf(calls))
    requires k < |calls| && calls[k].Use? && calls[k].op.FetchOp?
    ensures IndexAnswer(s, OpsOf(calls[..k]), calls[k].op.id) == Expected(s, OpsOf(calls[..k]), calls[k].op.id)
  {
    hide Scheme.Valid, Scheme.Faithful, SepFits, LegalRun, Run, OpsOf, Fetch;
    hide KeyOf, FetchKey, IsId, IsName, CaseMap.MapCase, Reference, FirstStored, RightAnswer;
    hide TextAt;
    SessionStep(s, calls, k);
    LegalPrefix(s, calls, k);
    FirstStoreWins(s, OpsOf(calls[..k]), calls[k].op.id);
  }

  /** dbzfresh() on empty files gives a database that a session can start from. Its answers are those of a map if the
      tag mask and the separator fit. */
  method FreshSession(mine: seq<int>, size: int, fs: char, cmap: char, tagmask: int, incore: bool)
      returns (ok: bool, db: Dbz.Database)
    requires IsOrder(mine) && Decimal.IsLong(size) && Decimal.IsLong(tagmask)
    ensures ok <==> (size == 0 || size >= 2) && cmap in "\00B=bC?"
    ensures ok ==> InSession(db, db.s, State("", map[], Log([], map[])), 0) && db.s.Valid()
    ensures ok ==> (db.s.Faithful() <==> Dbz.TagsFit(tagmask, db.s.tsize))
    ensures ok ==> db.s.fieldsep == (fs as int % 256) as char && db.s.hash == Crc.Hash
  {
    hide Dbz.Database.Valid, Dbz.Database.DirConf, Dbz.IsFresh, SchemeOf, IsOrder;
    hide Prepared, Scheme.Faithful, Scheme.Valid, Gapless;
    db := new Dbz.Database(mine);
    ok := db.DbzFresh(size, fs, cmap, tagmask, incore);
    if ok {
      FreshPrepared(db.conf, mine, size, fs, cmap, tagmask, db.DirConf());
    }
  }

  lemma FreshPrepared(c: DirFile.Conf, mine: seq<int>, size: int, fs: char, cmap: char, tagmask: int,
                      dir: DirFile.Option<DirFile.Conf>)
    requires Dbz.IsFresh(c, mine, size, fs, cmap, tagmask) && dir == DirFile.Some(c)
    ensures Usable(c) && IsOrder(mine) && Prepared(mine, c, SchemeOf(c, mine), dir, false, 0)
    ensures SchemeOf(c, mine).fieldsep == (fs as int % 256) as char && SchemeOf(c, mine).Valid()
  {
    hide MasksOf, Sound, Scheme.Valid, Scheme.Faithful, IsOrder, FreshMasks, Gapless, TagFree, SchemeOf;
    SchemeLawful(c, mine);
    assert FieldSep(c) == (fs as int % 256) as char;
  }
}
