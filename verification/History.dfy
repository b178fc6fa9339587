/** The news history: `HISwrite`, `HISfilesfor`, `HISmaint` of innbbsd/his.c and `DBfetch`, `DBstore`, `storeDB` of
    innbbsd/dbztool.c, over the database of module Dbz. */
module History {
  import opened Words
  import opened Index
  import opened HistoryLog
  import opened Opening
  import Dbz
  import CaseMap
  import Decimal
  import DirFile

  const MAINTBUFF: nat := 4096

  /** The configuration of a history database: no case mapping, no tags. */
  predicate PlainConf(c: DirFile.Conf) {
    DirFile.Storable(c) && Usable(c) && c.casemap == '0' && MasksOf(c) == NO_TAGS
  }

  lemma PlainScheme(c: DirFile.Conf, mine: seq<int>)
    requires PlainConf(c) && IsOrder(mine)
    ensures Plain(SchemeOf(c, mine))
  {
    assert Sound(NO_TAGS);
    hide MasksOf, Sound, IsOrder, DirFile.Storable;
    SchemeLawful(c, mine);
    forall v | 0 <= v < TWO63 ensures SchemeOf(c, mine).okay(v) {
      NoTagsOkay(c, mine, v);
    }
  }

  /** A database set up as his.c does, with the .dir file up to date and no more entries than characters of text. */
  ghost predicate Ready(mine: seq<int>, c: DirFile.Conf, s: Scheme, dir: DirFile.Option<DirFile.Conf>, size: int) {
    && IsOrder(mine) && PlainConf(c) && s == SchemeOf(c, mine) && Plain(s) && dir == DirFile.Some(c)
    && 0 <= c.used[0] <= size < TWO63
  }

  lemma ReadyGrown(mine: seq<int>, c: DirFile.Conf, s: Scheme, dir: DirFile.Option<DirFile.Conf>, size: int, more: int)
    requires Ready(mine, c, s, dir, size) && size <= more < TWO63
    ensures Ready(mine, c, s, dir, more)
  {
    hide PlainConf, SchemeOf, Plain, IsOrder;
  }

  lemma ReadyCounted(mine: seq<int>, c: DirFile.Conf, s: Scheme, dir: DirFile.Option<DirFile.Conf>, size: int,
                     more: int)
    requires Ready(mine, c, s, dir, size) && size < more < TWO63
    ensures Ready(mine, Dbz.Counted(c), s, DirFile.Some(Dbz.Counted(c)), more)
    ensures DirFile.Storable(Dbz.Counted(c)) && Dbz.Counted(c).casemap == '0'
  {
    hide MasksOf, Plain, IsOrder;
    SameMasks(c, Dbz.Counted(c));
  }

  lemma SameMasks(c: DirFile.Conf, d: DirFile.Conf)
    requires c.tagshift == d.tagshift >= 0 && c.tagmask == d.tagmask && c.tagenb == d.tagenb
    ensures MasksOf(c) == MasksOf(d)
  {
  }

  lemma PlainKey(s: Scheme, key: string)
    requires Plain(s) && |key| < DBZMAXKEY
    ensures Dbz.MappedKey(s, key) == key
  {
    assert key[..KeySize(key)] == key;
    NoMapping(key);
  }

  /** A call of storeDB, and the time it is made at. */
  datatype Request = Request(mid: string, paths: string, now: int)

  function PostsOf(requests: seq<Request>): (posts: seq<Post>)
    ensures |posts| == |requests|
    ensures forall i :: 0 <= i < |requests| ==>
      posts[i] == Post(requests[i].mid, RestOf(requests[i].now, requests[i].paths))
  {
    seq(|requests|, i requires 0 <= i < |requests| => Post(requests[i].mid, RestOf(requests[i].now, requests[i].paths)))
  }

  lemma RequestPosts(requests: seq<Request>)
    ensures |PostsOf(requests)| == |requests| && forall i :: 0 <= i < |requests| ==>
      PostsOf(requests)[i] == Post(requests[i].mid, RestOf(requests[i].now, requests[i].paths))
  {
  }

  lemma StoreAllNext(s: Scheme, requests: seq<Post>, k: nat)
    requires k < |requests| && s.Valid() && Good(requests[k]) && AllNamed(requests[..k])
    ensures AllNamed(requests[..k + 1]) && 0 < |requests[k].mid|
    ensures StoreAll(s, requests[..k + 1]) == StoreOne(s, StoreAll(s, requests[..k]), requests[k])
  {
    hide StoreOne, Scheme.Valid, Line;
    assert requests[..k + 1][..k] == requests[..k];
  }

  /** A line more, indexed if its Message-ID is short enough, and noted if it joins the posts. */
  ghost function Grown(s: Scheme, h: Hist, p: Post, joins: bool): Hist
    requires s.Valid()
  {
    var slots := if |p.mid| < DBZMAXKEY then Index.Store(s, h.slots, Dbz.MappedKey(s, p.mid), |h.base|) else h.slots;
    if joins then Hist(slots, h.base + Line(p), LogStore(s, h.slots, h.log, p.mid, |h.base|), h.posts + [p])
    else Hist(slots, h.base + Line(p), h.log, h.posts)
  }

  /** The text found for the first request of a Message-ID. */
  lemma ServedTexts(requests: seq<Request>)
    ensures forall i :: 0 <= i < |requests| && (forall j :: 0 <= j < i ==> requests[j].mid != requests[i].mid) ==>
      (var r := AnswerOf(Firsts(PostsOf(requests)), requests[i].mid);
       r.Files? && var tab := CaseMap.Find(r.text, '\t');
       && tab < |r.text| && Decimal.Atol(r.text[..tab]) == requests[i].now
       && r.text[tab + 1..] == requests[i].paths)
  {
    hide Firsts, RestOf, AnswerOf, CaseMap.Find, Decimal.Atol;
    forall i | 0 <= i < |requests| && (forall j :: 0 <= j < i ==> requests[j].mid != requests[i].mid)
      ensures var r := AnswerOf(Firsts(PostsOf(requests)), requests[i].mid);
        r.Files? && var tab := CaseMap.Find(r.text, '\t');
        && tab < |r.text| && Decimal.Atol(r.text[..tab]) == requests[i].now
        && r.text[tab + 1..] == requests[i].paths
    {
      FirstsAre(PostsOf(requests), requests[i].mid);
      FirstAnswer(PostsOf(requests), i);
      TextParts(requests[i].now, requests[i].paths);
    }
  }

  lemma FirstAnswer(posts: seq<Post>, i: nat)
    requires i < |posts| && forall j :: 0 <= j < i ==> posts[j].mid != posts[i].mid
    ensures AnswerOf(posts, posts[i].mid) == Files(posts[i].rest)
  {
    PostUnique(posts, posts[i].mid, i);
  }

  ghost predicate OrderlyHist(s: Scheme, h: Hist) { s.Valid() && Orderly(s, h.slots, h.base, h.log, h.posts) }

  lemma GrownBase(s: Scheme, h: Hist, p: Post, joins: bool)
    requires s.Valid()
    ensures Grown(s, h, p, joins).base == h.base + Line(p)
  {
    hide Line;
  }

  lemma LineText(key: string, date: int, paths: string)
    ensures Line(Post(key, RestOf(date, paths))) == key + "\t" + Decimal.Text(date) + "\t" + paths + "\n"
  {
    hide Decimal.Text;
  }

  lemma GrownPosts(s: Scheme, h: Hist, p: Post)
    requires s.Valid()
    ensures Grown(s, h, p, true).posts == h.posts + [p]
  {
  }

  class History {
    var db: Dbz.Database
    var incore: bool                // HISincore
    ghost var log: Log
    ghost var posts: seq<Post>

    /** Open, and ready for use. */
    ghost predicate Valid()
      reads `db, db, db.corepag
    {
      db.Valid() && db.isOpen && !db.pagronly && IsReady()
    }

    ghost predicate IsReady()
      reads `db, db`conf, db`s, db`dir, db`base
    {
      Ready(db.mine, db.conf, db.s, db.DirConf(), |db.base|)
    }

    /** The history holds exactly `posts`. */
    ghost predicate InOrder()
      reads this, db`s, db`slots, db`base
    {
      db.s.Valid() && Orderly(db.s, db.slots, db.base, log, posts)
    }

    constructor (db: Dbz.Database, incore: bool)
      requires db.Valid() && db.isOpen && !db.pagronly && Ready(db.mine, db.conf, db.s, db.DirConf(), |db.base|)
      ensures Valid() && this.db == db && this.incore == incore
      ensures db.slots == map[] && db.base == "" ==> InOrder() && posts == []
    {
      hide Dbz.Database.Valid, Dbz.Database.DirConf, Ready, Orderly;
      ReadyFacts(db.mine, db.conf, db.s, db.DirConf(), |db.base|, Post("", ""));
      this.db, this.incore, log, posts := db, incore, Log([], map[]), [];
      new;
      OrderlyEmpty(db.s);
    }

    // ---------------------------------------------------------------- writing

    /** The common end of HISwrite and myHISwrite: append a line, and index it. */
    method AppendLine(key: string, rest: string) returns (ok: bool)
      requires Valid() && |db.base| + |Line(Post(key, rest))| < TWO63
      modifies db, db.corepag
      ensures Valid() && db.corepag == old(db.corepag) && db.s == old(db.s) && db.s.Valid() && Plain(db.s)
      ensures db.base == old(db.base) + Line(Post(key, rest))
      ensures ok <==> |key| < DBZMAXKEY
      ensures ok ==> db.slots == Index.Store(db.s, old(db.slots), Dbz.MappedKey(db.s, key), |old(db.base)|)
      ensures !ok ==> db.slots == old(db.slots)
    {
      hide Dbz.Database.Valid, Dbz.Database.DirConf, Ready, Line, Good, New;
      hide Orderly, Scheme.Valid, Plain, Index.Store, LogStore;
      hide Dbz.MappedKey, Dbz.Counted, Dbz.FileWord, Dbz.Synced, Dbz.Database.CoreTable;
      hide DirFile.Overwritten, DirFile.ConfText, DirFile.Storable;
      var offset := |db.base|;
      ReadyFacts(db.mine, db.conf, db.s, db.DirConf(), offset, Post(key, rest));
      db.AppendBase(Line(Post(key, rest)));
      ok := db.DbzStore(key, offset);
      if !ok {
        ReadyGrown(db.mine, db.conf, db.s, db.DirConf(), offset, |db.base|);
        return;
      }
      ReadyCounted(db.mine, old(db.conf), db.s, db.DirConf(), offset, |db.base|);
      ghost var dir := db.dir;
      var synced := db.DbzSync();
      DirSynced(db, dir);
    }

    /** What the files hold, and the posts and stores noted beside them. */
    ghost function Snapshot(): Hist
      reads this, db`slots, db`base
    {
      Hist(db.slots, db.base, log, posts)
    }

    /** A post that keeps the history in order. */
    ghost predicate Joins(p: Post)
      reads this, db`s, db`slots, db`base
    {
      InOrder() && Good(p) && New(posts, p.mid)
    }

    /** ... and note the post, if it is one that keeps the history in order. */
    method Append(key: string, rest: string) returns (ok: bool)
      requires Valid() && |db.base| + |Line(Post(key, rest))| < TWO63
      modifies `log, `posts, db, db.corepag
      ensures Valid() && db.corepag == old(db.corepag) && db.s == old(db.s) && db.s.Valid()
      ensures ok <==> |key| < DBZMAXKEY
      ensures Snapshot() == Grown(db.s, old(Snapshot()), Post(key, rest), old(Joins(Post(key, rest))))
      ensures old(Joins(Post(key, rest))) ==> InOrder()
    {
      hide Dbz.Database.Valid, IsReady, Line, Good, New, Orderly;
      hide Scheme.Valid, Plain, Index.Store, LogStore, Dbz.MappedKey;
      GoodShort(Post(key, rest));
      ok := AppendLine(key, rest);
      if old(Joins(Post(key, rest))) {
        PlainKey(db.s, key);
        AppendOrderly(db.s, old(db.slots), old(db.base), log, posts, Post(key, rest));
        log := LogStore(db.s, old(db.slots), log, key, |old(db.base)|);
        posts := posts + [Post(key, rest)];
      }
    }

    /** HISwrite() */
    method HISwrite(key: string, date: int, paths: string) returns (ok: bool)
      requires Valid() && |db.base| + |Line(Post(key, RestOf(date, paths)))| < TWO63
      modifies `log, `posts, db, db.corepag
      ensures Valid() && db.corepag == old(db.corepag) && db.s == old(db.s) && db.s.Valid()
      ensures ok <==> |key| < DBZMAXKEY
      ensures var p := Post(key, RestOf(date, paths));
        && Snapshot() == Grown(db.s, old(Snapshot()), p, old(Joins(p)))
        && (old(Joins(p)) ==> InOrder())
      ensures db.base == old(db.base) + (key + "\t" + Decimal.Text(date) + "\t" + paths + "\n")
    {
      hide *;
      ghost var was := Snapshot();
      OrderOf();
      ok := Append(key, RestOf(date, paths));
      OrderOf();
      GrownBase(db.s, was, Post(key, RestOf(date, paths)), old(Joins(Post(key, RestOf(date, paths)))));
      LineText(key, date, paths);
    }

    /** myHISwrite(); `remain` is the rest of a line, with its newline. */
    method MyHISwrite(key: string, remain: string) returns (ok: bool)
      requires Valid() && 0 < |key| && remain != "" && remain[|remain| - 1] == '\n'
      requires |db.base| + |Line(Post(key, remain[..|remain| - 1]))| < TWO63
      modifies `log, `posts, db, db.corepag
      ensures Valid() && db.corepag == old(db.corepag) && db.s == old(db.s) && db.s.Valid()
      ensures var p := Post(key, remain[..|remain| - 1]);
        if Index.Fetch(db.s, old(db.slots), old(db.base), Dbz.MappedKey(db.s, key)).Found? then
          !ok && Snapshot() == old(Snapshot())
        else
          && (ok <==> |key| < DBZMAXKEY)
          && Snapshot() == Grown(db.s, old(Snapshot()), p, old(Joins(p)))
          && (old(Joins(p)) ==> InOrder())
      ensures old(Joins(Post(key, remain[..|remain| - 1]))) ==> ok && InOrder()
    {
      hide Dbz.Database.Valid, Ready, Orderly, Good, New, Line, Plain, Scheme.Valid, Index.Fetch, Dbz.MappedKey, Grown;
      var p := Post(key, remain[..|remain| - 1]);
      GoodShort(p);
      ReadyFacts(db.mine, db.conf, db.s, db.DirConf(), |db.base|, p);
      if Joins(p) {
        NothingStored(db.s, db.slots, db.base, log, posts, p);
      }
      hide IsReady, Joins, InOrder;
      var val := db.DbzFetch(key);
      if val != Dbz.None { return false; }
      ok := Append(key, p.rest);
    }

    // ---------------------------------------------------------------- reading

    /** HISfilesfor() */
    method HISfilesfor(key: string) returns (r: Answer)
      requires Valid() && 0 < |key| && db.s.Valid() && FitsFor(db.s, db.slots, db.base, Dbz.MappedKey(db.s, key))
      modifies db`srch, db`prevp, db`pagoff, db`pagpos
      ensures Valid() && r == FilesFor(db.s, db.slots, db.base, Dbz.MappedKey(db.s, key))
    {
      hide Dbz.Database.Valid, IsReady, Index.Fetch, Dbz.MappedKey, CaseMap.Find;
      var val := db.DbzFetch(key);
      FoundInside(db.s, db.slots, db.base, Dbz.MappedKey(db.s, key));
      if val == Dbz.None { return NoFiles; }
      var offset := val.value;
      var output := if offset + LEN - 1 <= |db.base| then db.base[offset..offset + LEN - 1] else db.base[offset..];
      var p := CaseMap.Find(output, '\n');
      if p == |output| { return NoFiles; }
      output := output[..p];
      p := CaseMap.Find(output, '\t');
      if p == |output| { return NoFiles; }
      r := Files(output[p + 1..]);
    }

    // ---------------------------------------------------------------- dbztool.c

    /** The text a lookup of `key` leads to can be read in one go. */
    ghost predicate Readable(key: string)
      reads `db, db`s, db`slots, db`base
    {
      0 < |key| && db.s.Valid() && FitsFor(db.s, db.slots, db.base, Dbz.MappedKey(db.s, Dbinput(key)))
    }

    /** The text that the index leads to for `key`. */
    ghost function LookedUp(key: string): Answer
      requires Readable(key)
      reads `db, db`s, db`slots, db`base
    {
      FilesFor(db.s, db.slots, db.base, Dbz.MappedKey(db.s, Dbinput(key)))
    }

    /** DBfetch() */
    method DBfetch(key: string) returns (r: Answer)
      requires Valid() && Readable(key)
      modifies db`srch, db`prevp, db`pagoff, db`pagpos
      ensures Valid() && r == old(LookedUp(key))
      ensures InOrder() && Askable(posts, key) ==> r == AnswerOf(posts, key)
    {
      hide Dbz.Database.Valid, Ready, Orderly, Askable, AnswerOf, FilesFor, FitsFor, Dbz.MappedKey, Plain, Scheme.Valid;
      if InOrder() && Askable(posts, key) {
        ReadyFacts(db.mine, db.conf, db.s, db.DirConf(), |db.base|, Post(key, ""));
        AnswerIs(db.s, db.slots, db.base, log, posts, key);
      }
      r := HISfilesfor(Dbinput(key));
    }

    /** DBstore(); the time is a parameter. */
    method DBstore(key: string, paths: string, now: int) returns (r: int)
      requires Valid() && |db.base| + |Line(Post(Dbinput(key), RestOf(now, paths)))| < TWO63
      modifies `log, `posts, db, db.corepag
      ensures Valid() && db.corepag == old(db.corepag) && db.s == old(db.s) && db.s.Valid()
      ensures r == (if |Dbinput(key)| < DBZMAXKEY then 0 else -1)
      ensures var p := Post(Dbinput(key), RestOf(now, paths));
        && Snapshot() == Grown(db.s, old(Snapshot()), p, old(Joins(p)))
        && (old(Joins(p)) ==> InOrder())
    {
      hide *;
      var ok := HISwrite(Dbinput(key), now, paths);
      r := if ok then 0 else -1;
    }

    /** storeDB(): look first, then store. */
    method StoreDB(mid: string, paths: string, now: int) returns (r: int)
      requires Valid() && Readable(mid) && |db.base| + |Line(Post(Dbinput(mid), RestOf(now, paths)))| < TWO63
      modifies `log, `posts, db, db.corepag
      ensures Valid() && db.corepag == old(db.corepag) && db.s == old(db.s) && db.s.Valid()
      ensures var p := Post(Dbinput(mid), RestOf(now, paths));
        if old(LookedUp(mid)) != NoFiles then
          r == 0 && Snapshot() == old(Snapshot())
        else
          && r == (if |p.mid| < DBZMAXKEY then 0 else -1)
          && Snapshot() == Grown(db.s, old(Snapshot()), p, old(Joins(p)))
          && (old(Joins(p)) ==> InOrder())
    {
      hide *;
      StoreFacts(mid);
      var ptr := DBfetch(mid);
      if ptr != NoFiles {
        r := 0;
      } else {
        r := DBstore(mid, paths, now);
      }
    }

    /** In an orderly history, for a Message-ID it promises something for, storeDB() is StoreOne, and keeps the
        order. */
    method StoreDBOrderly(mid: string, paths: string, now: int) returns (r: int)
      requires Valid() && InOrder() && Good(Post(mid, RestOf(now, paths))) && Askable(posts, mid)
      requires |db.base| + |Line(Post(mid, RestOf(now, paths)))| < TWO63
      modifies `log, `posts, db, db.corepag
      ensures Valid() && InOrder() && db.corepag == old(db.corepag) && db.s == old(db.s) && db.s.Valid() && r == 0
      ensures 0 < |mid| && Snapshot() == StoreOne(db.s, old(Snapshot()), Post(mid, RestOf(now, paths)))
      ensures posts == Posted(old(posts), Post(mid, RestOf(now, paths)))
    {
      hide *;
      ghost var p, was := Post(mid, RestOf(now, paths)), Snapshot();
      StoreOneCase(p);
      OrderOf();
      r := StoreDB(mid, paths, now);
      OrderOf();
      if old(LookedUp(mid)) != NoFiles {
        assert Snapshot() == was;
      } else {
        assert Snapshot() == Grown(db.s, was, p, true);
        GrownPosts(db.s, was, p);
      }
    }

    lemma OrderOf()
      ensures Snapshot().posts == posts && Snapshot().base == db.base && (InOrder() <==> OrderlyHist(db.s, Snapshot()))
    {
      hide Orderly, Scheme.Valid;
    }

    lemma StoreFacts(key: string)
      requires Valid() && Readable(key)
      ensures db.s.Valid()
    {
      hide Dbz.Database.Valid, IsReady, FitsFor, Scheme.Valid;
    }

    /** StoreOne, in the terms of StoreDB. */
    lemma StoreOneCase(p: Post)
      requires Valid() && InOrder() && Good(p) && Askable(posts, p.mid)
      ensures Readable(p.mid) && db.s.Valid() && Dbinput(p.mid) == p.mid && 0 < |p.mid| < DBZMAXKEY
      ensures if LookedUp(p.mid) != NoFiles
        then StoreOne(db.s, Snapshot(), p) == Snapshot() && posts == Posted(posts, p)
        else
          && Joins(p) && StoreOne(db.s, Snapshot(), p) == Grown(db.s, Snapshot(), p, true)
          && Posted(posts, p) == posts + [p]
    {
      hide Dbz.Database.Valid, Dbz.Database.DirConf, Ready, Orderly, FilesFor;
      hide FitsFor, Dbz.MappedKey, Plain, Scheme.Valid;
      hide Good, StoreOne, Grown, Posted, New, Askable, Dbinput;
      AskableReadable(p.mid);
      ReadyFacts(db.mine, db.conf, db.s, db.DirConf(), |db.base|, p);
      StoreOneIs(db.s, Snapshot(), p);
    }

    lemma AskableReadable(key: string)
      requires Valid() && InOrder() && Askable(posts, key)
      ensures Readable(key)
    {
      hide Dbz.Database.Valid, Dbz.Database.DirConf, Ready, Orderly, FitsFor, Dbz.MappedKey;
      hide Plain, Scheme.Valid, Known, New;
      ReadyFacts(db.mine, db.conf, db.s, db.DirConf(), |db.base|, Post(key, ""));
      AskableFits(db.s, db.slots, db.base, log, posts, key);
      PlainKey(db.s, key);
    }

    /** Any clean run of storeDB calls on an empty history is StoreAll, and leaves the first post of each Message-ID. */
    method Serve(requests: seq<Request>)
      requires Valid() && InOrder() && posts == [] && CleanRun(PostsOf(requests))
      modifies `log, `posts, db, db.corepag
      ensures Valid() && InOrder() && db.corepag == old(db.corepag) && db.s == old(db.s) && db.s.Valid()
      ensures AllNamed(PostsOf(requests)) && Snapshot() == StoreAll(db.s, PostsOf(requests))
      ensures posts == Firsts(PostsOf(requests))
      ensures forall i :: 0 <= i < |requests| && (forall j :: 0 <= j < i ==> requests[j].mid != requests[i].mid) ==>
        (var r := AnswerOf(posts, requests[i].mid);
         r.Files? && var tab := CaseMap.Find(r.text, '\t');
         && tab < |r.text| && Decimal.Atol(r.text[..tab]) == requests[i].now
         && r.text[tab + 1..] == requests[i].paths)
    {
      hide *;
      ghost var all := PostsOf(requests);
      RequestPosts(requests);
      ServeStart(all);
      var k := 0;
      while k < |requests|
        invariant 0 <= k <= |requests| == |all| && db.corepag == old(db.corepag) && db.s == old(db.s) && db.s.Valid()
        invariant Valid() && InOrder() && posts == Firsts(all[..k])
        invariant AllNamed(all[..k]) && Snapshot() == StoreAll(db.s, all[..k])
      {
        CleanStep(all, k);
        BaseIsLines();
        StoreAllNext(db.s, all, k);
        var r := StoreDBOrderly(requests[k].mid, requests[k].paths, requests[k].now);
        k := k + 1;
      }
      assert all[..k] == all;
      ServedTexts(requests);
    }

    lemma ServeStart(all: seq<Post>)
      requires Valid() && InOrder() && posts == []
      ensures db.s.Valid() && posts == Firsts(all[..0])
      ensures AllNamed(all[..0]) && Snapshot() == StoreAll(db.s, all[..0])
    {
      hide Dbz.Database.Valid, IsReady;
      assert all[..0] == [];
    }

    // ---------------------------------------------------------------- opening, closing and expiry

    /** HISclose() */
    method HISclose()
      requires Valid()
      modifies db`pag, db`dir, db`corepag, db`isOpen
      ensures db.Valid() && !db.isOpen && IsReady()
    {
      hide Dbz.Database.Valid, Dbz.Database.DirConf, DirFile.Overwritten, DirFile.ConfText, DirFile.Storable;
      hide PlainConf, SchemeOf, Plain, IsOrder;
      ghost var dir := db.dir;
      assert DirFile.Storable(db.conf) && db.conf.casemap == '0' by { PlainStorable(db.conf); }
      var ok := db.DbmClose();
      if db.written { DirSynced(db, dir); }
    }

    /** HISsetup(), with write-through on. */
    method HISsetup()
      requires db.Valid() && !db.isOpen && IsReady()
      modifies db`isOpen, db`pagronly, db`s, db`conf, db`prevp, db`pagpos, db`corepag, db`written, db`writethrough
      ensures Valid() && db.s == old(db.s)
      ensures (db.corepag != null <==> incore) && (db.corepag != null ==> fresh(db.corepag))
    {
      hide Dbz.Database.Valid, Dbz.Database.DirConf, Ready, Usable, SchemeOf, IsOrder;
      ReadyUsable(db.mine, db.conf, db.s, db.DirConf(), |db.base|);
      db.DbzWritethrough(true);
      var ok := db.DbmInit(incore, false);
    }

    /** makedbz(): a new history, closed. The size is the one dbzsize() suggested. */
    static method MakeDbz(mine: seq<int>, size: int, incore: bool) returns (n: Dbz.Database)
      requires IsOrder(mine) && IsLong(size) && (size == 0 || size >= 2)
      ensures fresh(n) && n.Valid() && !n.isOpen && n.slots == map[] && n.base == "" && n.mine == mine
      ensures Ready(n.mine, n.conf, n.s, n.DirConf(), 0)
    {
      hide Dbz.Database.Valid, Dbz.Database.DirConf, Dbz.IsFresh, SchemeOf, IsOrder, Ready;
      n := new Dbz.Database(mine);
      var ok := n.DbzFresh(size, '\t', '\0', 1, incore);
      FreshReady(n.conf, mine, size);
      ok := n.DbmClose();
    }

    /** The loop of HISmaint() over the old history `hist`, from `start` on. */
    method Rebuild(hist: string, start: nat, now: int, expiredays: int, ghost all: seq<Post>, ghost first: nat)
      requires Valid() && InOrder() && posts == [] && hist == Lines(all) && |hist| < TWO63
      requires PrefixFree(all) && (forall i :: 0 <= i < |all| ==> Good(all[i])) && first <= |all|
      requires start == |Lines(all[..first])| && Kept(all[..first], now, expiredays) == []
      modifies `log, `posts, db, db.corepag
      ensures Valid() && InOrder() && posts == Kept(all, now, expiredays)
    {
      hide Dbz.Database.Valid, IsReady, InOrder, Lines, Line, Good, Kept;
      hide Keeps, PrefixFree, New, FirstLine, CaseMap.Find;
      ghost var i := first;
      RebuildStep(all, i, now, expiredays, MAINTBUFF - 1);
      var maintbuff := FGets(hist, start);
      var pos := start;
      while maintbuff != ""
        invariant Valid() && InOrder() && db.corepag == old(db.corepag)
        invariant first <= i <= |all| && pos == |Lines(all[..i])| <= |hist|
        invariant maintbuff == FirstLine(hist[pos..], MAINTBUFF - 1)
        invariant posts == Kept(all[..i], now, expiredays)
        decreases |all| - i
      {
        RebuildStep(all, i, now, expiredays, MAINTBUFF - 1);
        BaseIsLines();
        RebuildLine(maintbuff, now, expiredays, all[i]);
        i := i + 1;
        pos := pos + |maintbuff|;
        RebuildStep(all, i, now, expiredays, MAINTBUFF - 1);
        maintbuff := FGets(hist, pos);
      }
      RebuildStep(all, i, now, expiredays, MAINTBUFF - 1);
      assert all[..|all|] == all;
    }

    /** The body of that loop: keep the line or drop it. */
    method RebuildLine(maintbuff: string, now: int, expiredays: int, ghost p: Post)
      requires Valid() && InOrder() && Good(p) && New(posts, p.mid) && maintbuff == Line(p)
      requires |db.base| + |maintbuff| < TWO63
      modifies `log, `posts, db, db.corepag
      ensures Valid() && InOrder() && db.corepag == old(db.corepag)
      ensures posts == old(posts) + if Keeps(p, now, expiredays) then [p] else []
    {
      hide Dbz.Database.Valid, IsReady, InOrder, Line, New, CaseMap.Find, Decimal.Atol;
      LineParsed(p);
      GoodShort(p);
      var tab := CaseMap.Find(maintbuff, '\t');
      if tab == |maintbuff| { return; }
      var remain := maintbuff[tab + 1..];
      var lasthist := Decimal.Atol(remain);
      if lasthist + 99600 * expiredays < now { return; }
      assert remain[..|remain| - 1] == p.rest;
      var ok := MyHISwrite(maintbuff[..tab], remain);
    }

    /** HISclose(), and HISsetup() again. */
    method Reopen()
      requires Valid() && InOrder()
      modifies db
      ensures Valid() && InOrder() && posts == old(posts) && (db.corepag != null ==> fresh(db.corepag))
    {
      hide Dbz.Database.Valid, IsReady, Orderly, Scheme.Valid;
      HISclose();
      HISsetup();
    }

    /** HISmaint(): expire the history if its first line is old enough. The time and the table size are parameters,
        and so is what the buffer holds if there is no line to read. */
    method HISmaint(now: int, expiredays: int, size: int, unread: string)
      requires Valid() && InOrder() && expiredays >= 0 && IsLong(size) && (size == 0 || size >= 2)
      modifies `db, `log, `posts, db, db.corepag
      ensures Valid() && InOrder() && (db == old(db) || fresh(db))
      ensures db.corepag == null || db.corepag == old(db.corepag) || fresh(db.corepag)
      ensures posts == Expired(old(posts), now, expiredays)
      ensures if old(posts) != [] && Decimal.Atol(old(posts)[0].rest) + 86400 * expiredays * 2 < now then
          && (forall p :: p in posts <==> p in old(posts) && Decimal.Atol(p.rest) + 99600 * expiredays >= now)
          && InOrderOf(posts, old(posts))
        else posts == old(posts)
    {
      hide Dbz.Database.Valid, IsReady, Lines, Line, Good, Kept, Keeps, Expired, InOrderOf, Aged;
      ExpiredExactly(posts, now, expiredays);
      hide PrefixFree, FirstLine, CaseMap.Find, Decimal.Atol, Built, Scheme.Valid;
      ghost var all := posts;
      var hist := db.base;
      assert hist == Lines(all) && PrefixFree(all) && forall i :: 0 <= i < |all| ==> Good(all[i]);
      BaseShort();
      hide InOrder;
      FirstLineRead(all, now, expiredays);
      var line := FGets(hist, 0);
      var maintbuff := if line == "" then unread else line;
      var tab := CaseMap.Find(maintbuff, '\t');
      if tab == |maintbuff| { return; }
      var lasthist := Decimal.Atol(maintbuff[tab + 1..]);
      if lasthist + 86400 * expiredays * 2 >= now { return; }
      if all != [] { NoneKept(all, now, expiredays); }
      Expire(hist, |line|, now, expiredays, size, all, if all == [] then 0 else 1);
    }

    /** The part of HISmaint() after the age test. */
    method Expire(hist: string, start: nat, now: int, expiredays: int, size: int, ghost all: seq<Post>,
                  ghost first: nat)
      requires Valid() && hist == Lines(all) && |hist| < TWO63 && IsLong(size) && (size == 0 || size >= 2)
      requires PrefixFree(all) && (forall i :: 0 <= i < |all| ==> Good(all[i])) && first <= |all|
      requires start == |Lines(all[..first])| && Kept(all[..first], now, expiredays) == []
      modifies `db, `log, `posts, db`pag, db`dir, db`corepag, db`isOpen
      ensures Valid() && InOrder() && fresh(db) && (db.corepag != null ==> fresh(db.corepag))
      ensures posts == Kept(all, now, expiredays)
    {
      hide Dbz.Database.Valid, IsReady, Lines, Good, Kept, PrefixFree, Orderly, Scheme.Valid;
      Renew(size);
      Rebuild(hist, start, now, expiredays, all, first);
      Reopen();
    }

    /** What HISmaint() reads first, and what the age test makes of it. */
    lemma FirstLineRead(all: seq<Post>, now: int, expiredays: int)
      requires PrefixFree(all) && (forall i :: 0 <= i < |all| ==> Good(all[i]))
      ensures Lines(all)[0..] == Lines(all)
      ensures var line := FirstLine(Lines(all)[0..], MAINTBUFF - 1);
        if all == [] then
          && line == "" && |Lines(all[..0])| == 0 && Kept(all[..0], now, expiredays) == []
          && Expired(all, now, expiredays) == Kept(all, now, expiredays) == []
        else
          && line != "" && |line| == |Lines(all[..1])|
          && CaseMap.Find(line, '\t') < |line|
          && Decimal.Atol(line[CaseMap.Find(line, '\t') + 1..]) == DateOf(all[0])
          && (!Aged(all[0], now, expiredays) ==> Expired(all, now, expiredays) == all)
    {
      hide Lines, Line, Good, Kept, Keeps, PrefixFree, FirstLine, CaseMap.Find, Decimal.Atol;
      RebuildStep(all, 0, now, expiredays, MAINTBUFF - 1);
      LinesNone(all);
      if all == [] {
        NothingThere(now, expiredays);
      } else {
        LineParsed(all[0]);
      }
    }

    lemma BaseShort()
      requires IsReady()
      ensures |db.base| < TWO63
    {
    }

    lemma BaseIsLines()
      requires InOrder()
      ensures db.base == Lines(posts)
    {
    }

    /** HISclose, makedbz and the opening of the new files; renaming them over the old ones is the assignment to
        `db`. */
    method Renew(size: int)
      requires Valid() && IsLong(size) && (size == 0 || size >= 2)
      modifies `db, `log, `posts, db`pag, db`dir, db`corepag, db`isOpen
      ensures Valid() && InOrder() && posts == [] && fresh(db) && (db.corepag != null ==> fresh(db.corepag))
    {
      hide Dbz.Database.Valid, Dbz.Database.DirConf, Ready, IsOrder, Usable, SchemeOf, Orderly, Plain, Scheme.Valid;
      ReadyUsable(db.mine, db.conf, db.s, db.DirConf(), |db.base|);
      HISclose();
      var n := MakeDbz(db.mine, size, incore);
      db := n;
      log, posts := Log([], map[]), [];
      ReadyFacts(db.mine, db.conf, db.s, db.DirConf(), 0, Post("", ""));
      OrderlyEmpty(db.s);
      HISsetup();
    }

    /** The line that fgets reads at `pos`; "" stands for NULL. */
    static method FGets(hist: string, pos: nat) returns (maintbuff: string)
      requires pos <= |hist|
      ensures maintbuff == FirstLine(hist[pos..], MAINTBUFF - 1)
      ensures LineFrom(hist, pos, maintbuff, 4095)
    {
      hide FirstLine, LineFrom;
      FirstLineIs(hist, pos, 4095);
      maintbuff := "";
      var p, room := pos, MAINTBUFF - 1;
      while true
        invariant pos <= p <= |hist| && 0 <= room
        invariant maintbuff + FirstLine(hist[p..], room) == FirstLine(hist[pos..], MAINTBUFF - 1)
        decreases room
      {
        FirstLineStep(hist, p, room);
        if p == |hist| || room == 0 { return; }
        ghost var more := if hist[p] == '\n' then "" else FirstLine(hist[p + 1..], room - 1);
        assert maintbuff + ([hist[p]] + more) == maintbuff + [hist[p]] + more;
        maintbuff := maintbuff + [hist[p]];
        p := p + 1;
        room := room - 1;
        if hist[p - 1] == '\n' { return; }
      }
    }
  }

  lemma FirstLineStep(t: string, p: nat, room: nat)
    requires p <= |t|
    ensures p == |t| || room == 0 ==> FirstLine(t[p..], room) == ""
    ensures p < |t| && room > 0 ==>
      FirstLine(t[p..], room) == [t[p]] + if t[p] == '\n' then "" else FirstLine(t[p + 1..], room - 1)
  {
    if p < |t| { assert t[p..][1..] == t[p + 1..]; }
  }

  lemma FreshReady(c: DirFile.Conf, mine: seq<int>, size: int)
    requires Dbz.IsFresh(c, mine, size, '\t', '\0', 1)
    ensures Ready(mine, c, SchemeOf(c, mine), DirFile.Some(c), 0)
  {
    hide IsOrder, MasksOf, Sound, SchemeOf, Plain;
    PlainScheme(c, mine);
  }

  lemma ReadyUsable(mine: seq<int>, c: DirFile.Conf, s: Scheme, dir: DirFile.Option<DirFile.Conf>, size: int)
    requires Ready(mine, c, s, dir, size)
    ensures dir == DirFile.Some(c) && Usable(c) && IsOrder(mine) && s == SchemeOf(c, mine)
  {
    hide IsOrder, SchemeOf, Plain;
  }

  lemma PlainStorable(c: DirFile.Conf)
    requires PlainConf(c)
    ensures DirFile.Storable(c) && Usable(c) && c.casemap == '0'
  {
  }

  lemma GoodKey(p: Post)
    requires Good(p)
    ensures Dbinput(p.mid) == p.mid && 0 < |p.mid| < DBZMAXKEY
  {
  }

  lemma StoreOneIs(s: Scheme, h: Hist, p: Post)
    requires Plain(s) && s.Valid() && Orderly(s, h.slots, h.base, h.log, h.posts) && Good(p) && Askable(h.posts, p.mid)
    ensures Dbinput(p.mid) == p.mid && 0 < |p.mid| < DBZMAXKEY
    ensures if FilesFor(s, h.slots, h.base, Dbz.MappedKey(s, Dbinput(p.mid))) != NoFiles
      then StoreOne(s, h, p) == h && h.posts == Posted(h.posts, p)
      else
        && New(h.posts, p.mid) && StoreOne(s, h, p) == Grown(s, h, p, true)
        && Posted(h.posts, p) == h.posts + [p]
  {
    hide Orderly, FilesFor, Dbz.MappedKey, Plain, Scheme.Valid, Good, Store, LogStore, Line, New;
    GoodKey(p);
    PlainKey(s, p.mid);
    AnswerIs(s, h.slots, h.base, h.log, h.posts, p.mid);
    PostedNext(h.posts, p);
  }

  lemma PostedNext(posts: seq<Post>, p: Post)
    ensures AnswerOf(posts, p.mid) == NoFiles ==> Posted(posts, p) == posts + [p]
    ensures AnswerOf(posts, p.mid) == NoFiles && Askable(posts, p.mid) ==> New(posts, p.mid)
    ensures AnswerOf(posts, p.mid) != NoFiles ==> Posted(posts, p) == posts
  {
    NewNotKnown(posts, p.mid);
  }

  lemma AnswerIs(s: Scheme, slots: Slots, base: string, log: Log, posts: seq<Post>, key: string)
    requires Plain(s) && s.Valid() && Orderly(s, slots, base, log, posts) && Askable(posts, key)
    ensures FilesFor(s, slots, base, Dbz.MappedKey(s, Dbinput(key))) == AnswerOf(posts, key)
  {
    PlainKey(s, key);
    hide Plain, Orderly, FilesFor, AnswerOf, Dbz.MappedKey;
    FilesForPost(s, slots, base, log, posts, key);
  }

  lemma NothingStored(s: Scheme, slots: Slots, base: string, log: Log, posts: seq<Post>, p: Post)
    requires Plain(s) && s.Valid() && Orderly(s, slots, base, log, posts) && Good(p) && New(posts, p.mid)
    ensures !Index.Fetch(s, slots, base, Dbz.MappedKey(s, p.mid)).Found?
  {
    PlainKey(s, p.mid);
    NewNotKnown(posts, p.mid);
    hide Orderly, Plain, Index.Fetch, New, Dbz.MappedKey;
    Lookup(s, slots, base, log, posts, p.mid);
  }

  /** sprintf(dbinput, "%.510s", key) */
  function Dbinput(key: string): (r: string)
    ensures r <= key && |r| == if |key| <= 510 then |key| else 510
  {
    if |key| <= 510 then key else key[..510]
  }

  lemma GoodShort(p: Post)
    ensures |Line(p)| > 0 && (Good(p) ==> |p.mid| < DBZMAXKEY && '\0' !in p.mid)
  {
  }

  /** After dbzsync the .dir file holds the configuration. */
  lemma DirSynced(db: Dbz.Database, file: string)
    requires DirFile.Storable(db.conf) && db.conf.casemap == '0'
    requires db.dir == DirFile.Overwritten(file, DirFile.ConfText(db.conf))
    ensures db.DirConf() == DirFile.Some(db.conf)
  {
    hide DirFile.Storable, DirFile.ConfText, DirFile.ParseConf, DirFile.Overwritten;
    DirFile.PutGetConf(file, db.conf);
  }

  lemma ReadyFacts(mine: seq<int>, c: DirFile.Conf, s: Scheme, dir: DirFile.Option<DirFile.Conf>, size: int, p: Post)
    requires Ready(mine, c, s, dir, size)
    ensures Plain(s) && s.Valid() && s.okay(size) && 0 <= size
    ensures |Line(p)| > 0
  {
    hide PlainConf, SchemeOf, IsOrder;
  }
}
