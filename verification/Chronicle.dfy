/** The news history in use: any run of stores, lookups, closings and reopenings, and expiries. */
module Chronicle {
  import opened Words
  import opened HistoryLog
  import opened History
  import CaseMap
  import Index
  import Decimal

  /** What innbbsd does with its history; the number of days to keep is fixed, and times come with the calls.
      `unread` is what happens to be in the buffer of HISmaint() when it reads nothing. */
  datatype Call =
    | Store(mid: string, paths: string, now: int)
    | Ask(mid: string)
    | Reopen
    | Expire(now: int, size: int, unread: string)

  function PostOf(call: Call): Post
    requires call.Store?
  {
    Post(call.mid, RestOf(call.now, call.paths))
  }

  function After(posts: seq<Post>, call: Call, days: int): seq<Post> {
    match call
    case Store(_, _, _) => Posted(posts, PostOf(call))
    case Expire(now, _, _) => Expired(posts, now, days)
    case _ => posts
  }

  /** The posts that a run on an empty history leaves. */
  function PostsAfter(calls: seq<Call>, days: int): seq<Post> {
    if calls == [] then [] else After(PostsAfter(calls[..|calls| - 1], days), calls[|calls| - 1], days)
  }

  /** What the source asks of its callers: clean lines and Message-IDs, and table sizes that dbzfresh takes. */
  ghost predicate LegalCall(posts: seq<Post>, call: Call) {
    match call
    case Store(mid, _, _) =>
      Good(PostOf(call)) && Askable(posts, mid) && |Lines(posts)| + |Line(PostOf(call))| < TWO63
    case Ask(mid) => Askable(posts, mid)
    case Reopen => true
    case Expire(_, size, _) => Decimal.IsLong(size) && (size == 0 || size >= 2)
  }

  ghost predicate Legal(calls: seq<Call>, days: int) {
    forall k :: 0 <= k < |calls| ==> LegalCall(PostsAfter(calls[..k], days), calls[k])
  }

  /** One call, and the answer if it was a lookup. */
  method OneCall(h: History, call: Call, days: int) returns (r: Answer)
    requires h.Valid() && h.InOrder() && days >= 0 && LegalCall(h.posts, call)
    modifies h, h.db, h.db.corepag
    ensures h.Valid() && h.InOrder() && h.posts == After(old(h.posts), call, days)
    ensures h.db == old(h.db) || fresh(h.db)
    ensures h.db.corepag == null || h.db.corepag == old(h.db.corepag) || fresh(h.db.corepag)
    ensures call.Ask? ==> r == AnswerOf(h.posts, call.mid)
  {
    hide Good, Askable, Line, Lines, Posted, AnswerOf, Aged, Kept, RestOf, StoreOne;
    hide History.Valid, History.InOrder, History.Readable, History.Snapshot, History.LookedUp;
    r := NoFiles;
    match call {
      case Store(mid, paths, now) =>
        h.BaseIsLines();
        var stored := h.StoreDBOrderly(mid, paths, now);
      case Ask(mid) =>
        h.AskableReadable(mid);
        r := h.DBfetch(mid);
      case Reopen => h.Reopen();
      case Expire(now, size, unread) => h.HISmaint(now, days, size, unread);
    }
  }

  /** What an expiry must leave, in numbers: all posts, or exactly those young enough. */
  ghost predicate Expiry(before: seq<Post>, rest: seq<Post>, now: int, days: int) {
    if before != [] && Decimal.Atol(before[0].rest) + 86400 * days * 2 < now then
      forall p :: p in rest <==> p in before && Decimal.Atol(p.rest) + 99600 * days >= now
    else rest == before
  }

  /** Any legal run on an empty history leaves the posts of the fold, and every lookup on the way gives the text of the
      post then stored, also for a Message-ID that expired and was stored again. */
  method Session(h: History, calls: seq<Call>, days: int) returns (answers: seq<Answer>)
    requires h.Valid() && h.InOrder() && h.posts == [] && days >= 0 && Legal(calls, days)
    modifies h, h.db, h.db.corepag
    ensures h.Valid() && h.InOrder() && h.posts == PostsAfter(calls, days) && |answers| == |calls|
    ensures forall k :: 0 <= k < |calls| && calls[k].Ask? ==>
      answers[k] == AnswerOf(PostsAfter(calls[..k], days), calls[k].mid)
    ensures forall k :: 0 <= k < |calls| && calls[k].Expire? ==>
      Expiry(PostsAfter(calls[..k], days), PostsAfter(calls[..k + 1], days), calls[k].now, days)
  {
    hide Decimal.Atol;
    hide History.Valid, History.InOrder, LegalCall, After, AnswerOf;
    answers := [];
    assert calls[..0] == [];
    while |answers| < |calls|
      invariant |answers| <= |calls| && h.Valid() && h.InOrder()
      invariant h.posts == PostsAfter(calls[..|answers|], days)
      invariant h.db == old(h.db) || fresh(h.db)
      invariant h.db.corepag == null || h.db.corepag == old(h.db.corepag) || fresh(h.db.corepag)
      invariant forall k :: 0 <= k < |answers| && calls[k].Ask? ==>
        answers[k] == AnswerOf(PostsAfter(calls[..k], days), calls[k].mid)
      decreases |calls| - |answers|
    {
      var n := |answers|;
      CallNext(calls, n, days);
      var r := OneCall(h, calls[n], days);
      answers := answers + [r];
    }
    assert calls[..|answers|] == calls;
    forall k | 0 <= k < |calls| && calls[k].Expire?
      ensures Expiry(PostsAfter(calls[..k], days), PostsAfter(calls[..k + 1], days), calls[k].now, days)
    {
      ExpiryNext(calls, k, days);
    }
  }

  lemma ExpiryNext(calls: seq<Call>, k: nat, days: int)
    requires k < |calls| && calls[k].Expire?
    ensures Expiry(PostsAfter(calls[..k], days), PostsAfter(calls[..k + 1], days), calls[k].now, days)
  {
    hide Decimal.Atol, Expired;
    CallNext(calls, k, days);
    ExpiredExactly(PostsAfter(calls[..k], days), calls[k].now, days);
  }

  lemma CallNext(calls: seq<Call>, n: nat, days: int)
    requires n < |calls|
    ensures PostsAfter(calls[..n + 1], days) == After(PostsAfter(calls[..n], days), calls[n], days)
    ensures calls[n].Ask? ==> PostsAfter(calls[..n + 1], days) == PostsAfter(calls[..n], days)
  {
    assert calls[..n + 1][..n] == calls[..n];
  }

  // ------------------------------------------------------------------ runs that are legal

  /** The posts of all stores in a run. */
  function Requests(calls: seq<Call>): seq<Post> {
    if calls == [] then []
    else
      var before := Requests(calls[..|calls| - 1]);
      if calls[|calls| - 1].Store? then before + [PostOf(calls[|calls| - 1])] else before
  }

  predicate Named(call: Call) { call.Store? || call.Ask? }

  /** What can be told from the calls alone: clean lines, Message-IDs that are equal or apart, a history within the
      range of a long, and table sizes that dbzfresh takes. */
  ghost predicate Clean(calls: seq<Call>) {
    && (forall k :: 0 <= k < |calls| && calls[k].Store? ==> Good(PostOf(calls[k])))
    && (forall k :: 0 <= k < |calls| && calls[k].Ask? ==> 0 < |calls[k].mid| < Index.DBZMAXKEY && '\0' !in calls[k].mid)
    && (forall i, j :: 0 <= i < j < |calls| && Named(calls[i]) && Named(calls[j]) ==>
          calls[i].mid == calls[j].mid || HistoryLog.Apart(calls[i].mid, calls[j].mid))
    && (forall k :: 0 <= k < |calls| && calls[k].Expire? ==>
          Decimal.IsLong(calls[k].size) && (calls[k].size == 0 || calls[k].size >= 2))
    && |Lines(Requests(calls))| < TWO63
  }

  ghost predicate StoredIn(calls: seq<Call>, p: Post) {
    exists k :: 0 <= k < |calls| && calls[k].Store? && PostOf(calls[k]) == p
  }

  lemma StoredEarlier(calls: seq<Call>, n: nat, p: Post)
    requires n <= |calls| && StoredIn(calls[..n], p)
    ensures StoredIn(calls, p)
  {
    var k :| 0 <= k < n && calls[..n][k].Store? && PostOf(calls[..n][k]) == p;
    assert calls[k] == calls[..n][k];
  }

  /** What one call adds or drops. */
  lemma AfterParts(posts: seq<Post>, call: Call, days: int)
    ensures forall p :: p in After(posts, call, days) ==> p in posts || (call.Store? && p == PostOf(call))
    ensures |Lines(After(posts, call, days))| <= |Lines(posts)| + if call.Store? then |Line(PostOf(call))| else 0
  {
    hide Aged, Line, PostOf, Kept, Lines;
    match call {
      case Store(_, _, _) => LinesAppended(posts, PostOf(call));
      case Expire(now, _, _) =>
        KeptSubset(posts, now, days);
        var kept := Kept(posts, now, days);
        assert forall p :: p in kept ==> exists i :: 0 <= i < |kept| && kept[i] == p;
      case _ =>
    }
  }

  lemma RequestsNext(calls: seq<Call>)
    requires calls != []
    ensures var n := |calls| - 1;
      |Lines(Requests(calls))| ==
        |Lines(Requests(calls[..n]))| + if calls[n].Store? then |Line(PostOf(calls[n]))| else 0
  {
    hide Line, Lines, PostOf;
    var n := |calls| - 1;
    if calls[n].Store? { LinesAppended(Requests(calls[..n]), PostOf(calls[n])); }
  }

  /** A post that is there was stored by some call, and the file is no longer than all stored lines together. */
  lemma {:induction false} PostsStored(calls: seq<Call>, days: int)
    ensures forall p :: p in PostsAfter(calls, days) ==> StoredIn(calls, p)
    ensures |Lines(PostsAfter(calls, days))| <= |Lines(Requests(calls))|
    decreases |calls|
  {
    hide After, Lines, Line, StoredIn, PostOf;
    if calls != [] {
      var n := |calls| - 1;
      PostsStored(calls[..n], days);
      AfterParts(PostsAfter(calls[..n], days), calls[n], days);
      RequestsNext(calls);
      forall p | p in PostsAfter(calls, days) ensures StoredIn(calls, p) {
        if p in PostsAfter(calls[..n], days) { StoredEarlier(calls, n, p); } else { StoredLast(calls, p); }
      }
    } else {
      assert PostsAfter(calls, days) == Requests(calls);
    }
  }

  lemma StoredLast(calls: seq<Call>, p: Post)
    requires calls != [] && calls[|calls| - 1].Store? && p == PostOf(calls[|calls| - 1])
    ensures StoredIn(calls, p)
  {
  }

  lemma {:induction false} RequestsGrow(calls: seq<Call>, n: nat)
    requires n <= |calls|
    ensures |Lines(Requests(calls[..n]))| <= |Lines(Requests(calls))|
    decreases |calls|
  {
    hide Line, Lines, Requests, PostOf;
    if n < |calls| {
      RequestsNext(calls);
      RequestsGrow(calls[..|calls| - 1], n);
      assert calls[..|calls| - 1][..n] == calls[..n];
    } else {
      assert calls[..n] == calls;
    }
  }

  /** At every call of a clean run the history promises something for its Message-ID. */
  lemma CleanAskable(calls: seq<Call>, k: nat, days: int)
    requires Clean(calls) && k < |calls| && Named(calls[k])
    ensures Askable(PostsAfter(calls[..k], days), calls[k].mid)
  {
    hide Line, Lines, RestOf;
    var posts, mid := PostsAfter(calls[..k], days), calls[k].mid;
    PostsStored(calls[..k], days);
    hide PostsAfter;
    forall i | 0 <= i < |posts| ensures posts[i].mid == mid || HistoryLog.Apart(posts[i].mid, mid) {
      assert posts[i] in posts;
      var j :| 0 <= j < k && calls[..k][j].Store? && PostOf(calls[..k][j]) == posts[i];
      assert calls[j] == calls[..k][j] && Named(calls[j]);
    }
  }

  lemma CleanFits(calls: seq<Call>, k: nat, days: int)
    requires Clean(calls) && k < |calls| && calls[k].Store?
    ensures |Lines(PostsAfter(calls[..k], days))| + |Line(PostOf(calls[k]))| < TWO63
  {
    hide Line, Lines, PostOf, Requests, PostsAfter;
    PostsStored(calls[..k], days);
    RequestsNext(calls[..k + 1]);
    assert calls[..k + 1][..k] == calls[..k];
    RequestsGrow(calls, k + 1);
  }

  /** A clean run is legal. */
  lemma CleanLegal(calls: seq<Call>, days: int)
    requires Clean(calls)
    ensures Legal(calls, days)
  {
    hide PostsAfter, Lines, Line, PostOf, Askable;
    forall k | 0 <= k < |calls| ensures LegalCall(PostsAfter(calls[..k], days), calls[k]) {
      if Named(calls[k]) { CleanAskable(calls, k, days); }
      if calls[k].Store? { CleanFits(calls, k, days); }
    }
  }

  /** A store answers later lookups, unless its Message-ID was there; so it does again once the post has expired. */
  lemma StoredAgain(calls: seq<Call>, call: Call, days: int)
    requires call.Store?
    ensures AnswerOf(PostsAfter(calls + [call], days), call.mid) ==
      if Known(PostsAfter(calls, days), call.mid) then AnswerOf(PostsAfter(calls, days), call.mid)
      else Files(PostOf(call).rest)
  {
    hide RestOf;
    assert (calls + [call])[..|calls|] == calls;
    var posts := PostsAfter(calls, days);
    NewNotKnown(posts, call.mid);
    AnswerAppended(posts, PostOf(call), call.mid);
  }

  /** storeDB() of a new Message-ID, and then DBfetch(): the text holds the time and the paths. */
  method StoredThenAsked(h: History, mid: string, paths: string, now: int) returns (r: Answer)
    requires h.Valid() && h.InOrder() && New(h.posts, mid)
    requires 0 < |mid| < 255 && '\t' !in mid && '\n' !in mid && '\0' !in mid && '\n' !in paths && '\0' !in paths
    requires |mid| + |Decimal.Text(now)| + |paths| + 3 < 1024 && |h.db.base| + 1024 < TWO63
    modifies h, h.db, h.db.corepag
    ensures h.Valid() && h.InOrder()
    ensures r.Files? && var tab := CaseMap.Find(r.text, '\t');
      tab < |r.text| && Decimal.Atol(r.text[..tab]) == now && r.text[tab + 1..] == paths
  {
    hide *;
    CleanIsGood(mid, paths, now);
    NewAskable(h.posts, mid);
    StoredText(h.posts, mid, paths, now);
    var stored := h.StoreDBOrderly(mid, paths, now);
    h.AskableReadable(mid);
    r := h.DBfetch(mid);
  }

  lemma CleanIsGood(mid: string, paths: string, now: int)
    requires 0 < |mid| < 255 && '\t' !in mid && '\n' !in mid && '\0' !in mid && '\n' !in paths && '\0' !in paths
    requires |mid| + |Decimal.Text(now)| + |paths| + 3 < 1024
    ensures Good(Post(mid, RestOf(now, paths))) && |Line(Post(mid, RestOf(now, paths)))| < 1024
  {
    hide Decimal.Text;
  }

  lemma NewAskable(posts: seq<Post>, mid: string)
    requires New(posts, mid) && 0 < |mid| < 255 && '\0' !in mid
    ensures Askable(posts, mid)
  {
  }

  lemma StoredText(posts: seq<Post>, mid: string, paths: string, now: int)
    requires New(posts, mid) && 0 < |mid| < 255 && '\0' !in mid
    ensures var later := Posted(posts, Post(mid, RestOf(now, paths)));
      Askable(later, mid) && AnswerOf(later, mid) == Files(RestOf(now, paths))
    ensures var text := RestOf(now, paths); var tab := CaseMap.Find(text, '\t');
      tab < |text| && Decimal.Atol(text[..tab]) == now && text[tab + 1..] == paths
  {
    hide RestOf, Decimal.Atol, CaseMap.Find;
    TextParts(now, paths);
    var p := Post(mid, RestOf(now, paths));
    NewNotKnown(posts, mid);
    AnswerAppended(posts, p, mid);
    assert (posts + [p])[|posts|] == p;
  }
}
