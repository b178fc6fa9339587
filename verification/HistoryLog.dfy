/** The history file as a list of posts, and the index over it (innbbsd/his.c, innbbsd/dbztool.c). */
module HistoryLog {
  import opened Words
  import opened Index
  import opened CaseMap
  import Decimal

  const LEN: nat := 1024

  /** One line: a Message-ID, a tab, and the rest, which starts with the date. */
  datatype Post = Post(mid: string, rest: string)

  function Line(p: Post): string { p.mid + "\t" + p.rest + "\n" }

  function Lines(posts: seq<Post>): string {
    if posts == [] then "" else Lines(posts[..|posts| - 1]) + Line(posts[|posts| - 1])
  }

  /** What HISwrite puts after the Message-ID. */
  function RestOf(date: int, paths: string): string { Decimal.Text(date) + "\t" + paths }

  predicate Clean(s: string) { '\n' !in s && '\0' !in s }

  /** A line that HISfilesfor reads in one go, for a key that dbz takes as it is. */
  predicate Good(p: Post) {
    0 < |p.mid| < DBZMAXKEY && Clean(p.mid) && '\t' !in p.mid && Clean(p.rest) && |Line(p)| < LEN
  }

  predicate Apart(a: string, b: string) { !(a <= b) && !(b <= a) }

  /** No Message-ID starts another, as when all end in '>' and have no other. */
  predicate PrefixFree(posts: seq<Post>) {
    forall i, j :: 0 <= i < j < |posts| ==> Apart(posts[i].mid, posts[j].mid)
  }

  /** A Message-ID that is stored, or neither starts a stored one nor is started by one. */
  predicate Known(posts: seq<Post>, mid: string) { exists i :: 0 <= i < |posts| && posts[i].mid == mid }

  predicate New(posts: seq<Post>, mid: string) { forall i :: 0 <= i < |posts| ==> Apart(posts[i].mid, mid) }

  /** The databases his.c makes: no case mapping, and no tags, so every offset can be stored. */
  ghost predicate Plain(s: Scheme) {
    s.Valid() && s.Faithful() && s.casemap == '0' && forall v :: 0 <= v < TWO63 ==> s.okay(v)
  }

  /** The history file holds exactly the posts, and the index exactly their offsets. */
  ghost predicate Orderly(s: Scheme, slots: Slots, base: string, log: Log, posts: seq<Post>)
    requires s.Valid()
  {
    && Built(s, slots, log) && base == Lines(posts) && |log.entries| == |posts|
    && (forall i :: 0 <= i < |posts| ==> IndexedAt(log, posts, i))
    && (forall i :: 0 <= i < |posts| ==> Good(posts[i]))
    && PrefixFree(posts)
  }

  predicate IndexedAt(log: Log, posts: seq<Post>, i: nat)
    requires i < |posts| && i < |log.entries|
  {
    log.entries[i].key == posts[i].mid && log.entries[i].value == |Lines(posts[..i])|
  }

  // ------------------------------------------------------------------ where the lines are

  lemma {:induction false} LineAt(posts: seq<Post>, i: nat)
    requires i < |posts|
    ensures var v := |Lines(posts[..i])|;
      v + |Line(posts[i])| <= |Lines(posts)| && Lines(posts)[v..v + |Line(posts[i])|] == Line(posts[i])
    decreases |posts|
  {
    var n := |posts| - 1;
    hide Line;
    if i == n {
      assert Lines(posts)[|Lines(posts[..i])|..] == Line(posts[i]);
    } else {
      LineAt(posts[..n], i);
      assert posts[..n][..i] == posts[..i];
    }
  }

  lemma {:induction false} OffsetsGrow(posts: seq<Post>, i: nat, j: nat)
    requires i <= j <= |posts|
    ensures |Lines(posts[..i])| <= |Lines(posts[..j])|
    decreases j - i
  {
    if i < j {
      assert posts[..j][..j - 1] == posts[..j - 1];
      OffsetsGrow(posts, i, j - 1);
    }
  }

  lemma OrderlyGrowing(s: Scheme, slots: Slots, base: string, log: Log, posts: seq<Post>)
    requires s.Valid() && Orderly(s, slots, base, log, posts)
    ensures Growing(log)
  {
    forall i, j | 0 <= i < j < |log.entries| ensures log.entries[i].value <= log.entries[j].value {
      OffsetsGrow(posts, i, j);
      assert IndexedAt(log, posts, i) && IndexedAt(log, posts, j);
    }
  }

  // ------------------------------------------------------------------ telling keys apart

  lemma NoMapping(s: string)
    ensures MapCase('0', s) == s
  {
  }

  /** A key without a final NUL is compared as a prefix of the text. */
  lemma MatchIsPrefix(s: Scheme, base: string, v: int, key: string)
    requires s.casemap == '0' && 0 < |key| < DBZMAXKEY && '\0' !in key && !TooShort(base, v, key)
    ensures TextMatches(s, base, v, key) <==> base[v..v + |key|] == key
  {
    NoMapping(base[v..v + |key|]);
    hide MapCase;
    assert key[|key| - 1] in key;
    assert key[..|key|] == key;
  }

  lemma PrefixApart(text: string, mid: string, key: string)
    requires mid <= text && key <= text && mid != key
    ensures !Apart(mid, key)
  {
    if |mid| <= |key| {
      assert key[..|mid|] == text[..|mid|] == mid;
    } else {
      assert mid[..|key|] == text[..|key|] == key;
    }
  }

  lemma EntryDistinct(s: Scheme, base: string, v: int, mid: string, key: string)
    requires s.casemap == '0' && 0 < |key| < DBZMAXKEY && '\0' !in key && (mid == key || Apart(mid, key))
    requires 0 <= v <= |base| && mid <= base[v..]
    ensures mid == key ==> !TooShort(base, v, key)
    ensures !TooShort(base, v, key) ==> (TextMatches(s, base, v, key) <==> mid == key)
  {
    hide TextMatches;
    if !TooShort(base, v, key) {
      MatchIsPrefix(s, base, v, key);
      assert base[v..][..|key|] == base[v..v + |key|];
      if base[v..v + |key|] == key && mid != key {
        PrefixApart(base[v..], mid, key);
      }
    }
  }

  lemma MidAt(posts: seq<Post>, i: nat)
    requires i < |posts|
    ensures var v := |Lines(posts[..i])|; v <= |Lines(posts)| && posts[i].mid <= Lines(posts)[v..]
  {
    LineAt(posts, i);
    var v, n := |Lines(posts[..i])|, |Line(posts[i])|;
    hide Lines;
    assert Lines(posts)[v..][..n] == Lines(posts)[v..v + n];
  }

  lemma OrderlyDistinct(s: Scheme, slots: Slots, base: string, log: Log, posts: seq<Post>, key: string)
    requires Plain(s) && Orderly(s, slots, base, log, posts)
    requires 0 < |key| < DBZMAXKEY && '\0' !in key && (Known(posts, key) || New(posts, key))
    ensures Distinct(s, base, log, key)
  {
    hide TextMatches, Lines, Built, Good, Plain;
    forall i | 0 <= i < |log.entries|
      ensures log.entries[i].key == key ==> !TooShort(base, log.entries[i].value, key)
      ensures !TooShort(base, log.entries[i].value, key) ==>
        (TextMatches(s, base, log.entries[i].value, key) <==> log.entries[i].key == key)
    {
      assert IndexedAt(log, posts, i);
      MidAt(posts, i);
      assert s.casemap == '0' by { PlainMap(s); }
      EntryDistinct(s, base, log.entries[i].value, posts[i].mid, key);
    }
  }

  lemma PlainMap(s: Scheme)
    requires Plain(s)
    ensures s.casemap == '0' && s.Valid() && s.Faithful()
  {
  }

  /** The one post with a given Message-ID, or the number of posts. */
  function PostOf(posts: seq<Post>, mid: string): (i: nat)
    ensures i <= |posts|
    ensures i < |posts| ==> posts[i].mid == mid
    ensures forall j :: 0 <= j < i ==> posts[j].mid != mid
  {
    FirstWith(posts, (p: Post) => p.mid, mid)
  }

  lemma FirstIsPost(log: Log, posts: seq<Post>, key: string)
    requires |log.entries| == |posts| && forall i :: 0 <= i < |posts| ==> IndexedAt(log, posts, i)
    ensures First(log.entries, key) == PostOf(posts, key)
  {
    hide Lines;
    var i, j := First(log.entries, key), PostOf(posts, key);
    if i < |posts| { assert IndexedAt(log, posts, i); }
    if j < |posts| { assert IndexedAt(log, posts, j); }
    assert !(i < j) && !(j < i);
  }

  /** What HISfilesfor makes of the text at an offset: the rest of the line after its first tab. */
  function FilesAt(base: string, v: int): Answer
    requires 0 <= v <= |base|
  {
    var chunk := if v + LEN - 1 <= |base| then base[v..v + LEN - 1] else base[v..];
    var newline := Find(chunk, '\n');
    var line := chunk[..newline];
    var tab := Find(line, '\t');
    if newline == |chunk| || tab == |line| then NoFiles else Files(line[tab + 1..])
  }

  datatype Answer = NoFiles | Files(text: string)

  lemma FindAt(s: string, c: char, p: nat)
    requires p < |s| && s[p] == c && c !in s[..p]
    ensures Find(s, c) == p
  {
    forall i | 0 <= i < p ensures s[i] != c { assert s[i] == s[..p][i]; }
    FindUnique(s, c, p);
  }

  lemma PrefixParts(head: string, c: char, chunk: string, text: string)
    requires head + [c] <= text && chunk <= text && |head| < |chunk|
    ensures chunk[..|head|] == head && chunk[|head|] == c
  {
    assert forall i :: 0 <= i <= |head| ==> (head + [c])[i] == text[i] == chunk[i];
  }

  /** At the start of a good line HISfilesfor finds the rest of that line. */
  lemma FilesAtLine(base: string, v: nat, p: Post)
    requires v <= |base| && Good(p) && Line(p) <= base[v..]
    ensures FilesAt(base, v) == Files(p.rest)
  {
    var chunk := if v + LEN - 1 <= |base| then base[v..v + LEN - 1] else base[v..];
    var head := p.mid + "\t" + p.rest;
    assert Line(p) == head + "\n";
    assert chunk <= base[v..];
    PrefixParts(head, '\n', chunk, base[v..]);
    assert '\n' !in head;
    FindAt(chunk, '\n', |head|);
    assert head[..|p.mid|] == p.mid;
    FindAt(head, '\t', |p.mid|);
    assert head[|p.mid| + 1..] == p.rest;
  }

  lemma FilesAtPost(posts: seq<Post>, i: nat)
    requires i < |posts| && Good(posts[i])
    ensures var v := |Lines(posts[..i])|;
      v <= |Lines(posts)| && FilesAt(Lines(posts), v) == Files(posts[i].rest)
  {
    LineAt(posts, i);
    var v, n := |Lines(posts[..i])|, |Line(posts[i])|;
    hide Lines, Line, FilesAt, Good;
    assert Lines(posts)[v..][..n] == Lines(posts)[v..v + n];
    FilesAtLine(Lines(posts), v, posts[i]);
  }

  /** In an orderly history a lookup yields exactly what was stored under the Message-ID. */
  lemma Lookup(s: Scheme, slots: Slots, base: string, log: Log, posts: seq<Post>, mid: string)
    requires Plain(s) && Orderly(s, slots, base, log, posts)
    requires 0 < |mid| < DBZMAXKEY && '\0' !in mid && (Known(posts, mid) || New(posts, mid))
    ensures var i := PostOf(posts, mid);
      if i < |posts| then
        var v := |Lines(posts[..i])|;
        Fetch(s, slots, base, mid) == Found(v) && v <= |base| && FilesAt(base, v) == Files(posts[i].rest)
      else !Fetch(s, slots, base, mid).Found?
  {
    hide Lines, Fetch, FilesAt, Good, Built;
    PlainMap(s);
    hide Plain, Scheme.Valid, Scheme.Faithful;
    OrderlyDistinct(s, slots, base, log, posts, mid);
    OrderlyGrowing(s, slots, base, log, posts);
    FetchFirst(s, slots, log, base, mid);
    FirstIsPost(log, posts, mid);
    var i := PostOf(posts, mid);
    if i < |posts| {
      assert IndexedAt(log, posts, i);
      FilesAtPost(posts, i);
    }
  }

  lemma LinesAppended(posts: seq<Post>, p: Post)
    ensures Lines(posts + [p]) == Lines(posts) + Line(p)
    ensures forall i :: 0 <= i <= |posts| ==> Lines((posts + [p])[..i]) == Lines(posts[..i])
  {
    assert (posts + [p])[..|posts|] == posts;
    forall i | 0 <= i <= |posts| ensures (posts + [p])[..i] == posts[..i] {}
  }

  lemma PrefixFreeAppended(posts: seq<Post>, p: Post)
    requires PrefixFree(posts) && New(posts, p.mid)
    ensures PrefixFree(posts + [p])
  {
  }

  /** Appending a line and storing its offset keeps the history orderly. */
  lemma AppendOrderly(s: Scheme, slots: Slots, base: string, log: Log, posts: seq<Post>, p: Post)
    requires Plain(s) && Orderly(s, slots, base, log, posts)
    requires Good(p) && New(posts, p.mid) && |base| < TWO63
    ensures Orderly(s, Store(s, slots, p.mid, |base|), base + Line(p), LogStore(s, slots, log, p.mid, |base|),
                    posts + [p])
  {
    assert s.okay(|base|);
    PlainMap(s);
    StoreBuilt(s, slots, log, p.mid, |base|);
    hide Built, Plain, Good, Line, Lines, Scheme.Valid, Scheme.Faithful, Store, PrefixFree, New, Loc;
    PrefixFreeAppended(posts, p);
    LinesAppended(posts, p);
    var log' := LogStore(s, slots, log, p.mid, |base|);
    forall i | 0 <= i < |posts + [p]| ensures IndexedAt(log', posts + [p], i) {
      if i < |posts| { assert IndexedAt(log, posts, i); }
      else { assert posts[..|posts|] == posts; }
    }
  }

  // ------------------------------------------------------------------ reading lines, and expiry

  /** fgets(): at most `max` characters, up to a newline. */
  function FirstLine(t: string, max: nat): string {
    if t == "" || max == 0 then ""
    else if t[0] == '\n' then "\n"
    else [t[0]] + FirstLine(t[1..], max - 1)
  }

  /** What fgets() returns from v on: up to the first newline, the room or the end of the file. */
  predicate LineFrom(t: string, v: nat, line: string, room: nat) {
    && |line| <= room && v + |line| <= |t| && line == t[v..v + |line|]
    && (forall i :: 0 <= i < |line| - 1 ==> line[i] != '\n')
    && (|line| == room || v + |line| == |t| || (line != "" && line[|line| - 1] == '\n'))
  }

  lemma {:induction false} FirstLineIs(t: string, v: nat, max: nat)
    requires v <= |t|
    ensures LineFrom(t, v, FirstLine(t[v..], max), max)
    decreases max
  {
    if v < |t| && max > 0 && t[v] != '\n' {
      FirstLineIs(t, v + 1, max - 1);
      assert t[v..][1..] == t[v + 1..];
    }
  }

  lemma {:induction false} FirstLineOf(head: string, tail: string, max: nat)
    requires '\n' !in head && |head| < max
    ensures FirstLine(head + "\n" + tail, max) == head + "\n"
    decreases |head|
  {
    var t := head + "\n" + tail;
    if head == "" {
      assert t[0] == '\n';
    } else {
      assert head[0] in head && t[0] == head[0];
      assert t[1..] == head[1..] + "\n" + tail;
      FirstLineOf(head[1..], tail, max - 1);
      assert [head[0]] + (head[1..] + "\n") == head + "\n";
    }
  }

  /** Reading on from the start of a post yields its line. */
  lemma FirstLineAt(posts: seq<Post>, i: nat, max: nat)
    requires i < |posts| && Good(posts[i]) && max >= LEN
    ensures var v := |Lines(posts[..i])|;
      v <= |Lines(posts)| && FirstLine(Lines(posts)[v..], max) == Line(posts[i])
      && |Lines(posts[..i + 1])| == v + |Line(posts[i])|
  {
    LineAt(posts, i);
    assert posts[..i + 1][..i] == posts[..i];
    var v, n := |Lines(posts[..i])|, |Line(posts[i])|;
    var head := posts[i].mid + "\t" + posts[i].rest;
    var t := Lines(posts)[v..];
    hide Lines;
    assert t[..n] == Line(posts[i]) == head + "\n";
    assert t == head + "\n" + t[n..];
    assert '\n' !in head;
    FirstLineOf(head, t[n..], max);
  }

  /** At the end there is nothing more to read. */
  lemma FirstLineEnd(posts: seq<Post>, max: nat)
    ensures FirstLine(Lines(posts)[|Lines(posts)|..], max) == ""
    ensures posts[..|posts|] == posts
  {
  }

  function DateOf(p: Post): int { Decimal.Atol(p.rest) }

  lemma DateWritten(date: int, paths: string)
    ensures Decimal.Atol(RestOf(date, paths)) == date
  {
    Decimal.AtolText(date, "\t" + paths);
    hide Decimal.Text, Decimal.Atol;
    assert Decimal.Text(date) + "\t" + paths == Decimal.Text(date) + ("\t" + paths);
  }

  /** What stands behind the Message-ID: up to the first tab the date, and behind it the paths. */
  lemma TextParts(date: int, paths: string)
    ensures var text := RestOf(date, paths); var tab := Find(text, '\t');
      tab < |text| && Decimal.Atol(text[..tab]) == date && text[tab + 1..] == paths
  {
    var number := Decimal.Text(date);
    var text := number + "\t" + paths;
    hide Decimal.Text, Decimal.Atol;
    assert '\t' !in number;
    assert text[..|number|] == number && text[|number|] == '\t';
    FindAt(text, '\t', |number|);
    Decimal.AtolText(date, "");
    assert number + "" == number;
  }

  /** The age test on the first line, and the test each other line must pass to be kept. */
  predicate Aged(p: Post, now: int, expiredays: int) { DateOf(p) + 86400 * expiredays * 2 < now }

  predicate Keeps(p: Post, now: int, expiredays: int) { DateOf(p) + 99600 * expiredays >= now }

  /** The posts that expiry keeps, in order. */
  function Kept(posts: seq<Post>, now: int, expiredays: int): seq<Post> {
    if posts == [] then []
    else
      var rest := Kept(posts[..|posts| - 1], now, expiredays);
      if Keeps(posts[|posts| - 1], now, expiredays) then rest + [posts[|posts| - 1]] else rest
  }

  /** The posts after an expiry: all of them, if the first is not old enough. */
  function Expired(posts: seq<Post>, now: int, days: int): seq<Post> {
    if posts != [] && Aged(posts[0], now, days) then Kept(posts, now, days) else posts
  }

  /** The first line is consumed by the age test; the keep rule would have dropped it anyway. */
  lemma {:induction false} FirstDropped(posts: seq<Post>, now: int, expiredays: int)
    requires posts != [] && Aged(posts[0], now, expiredays) && expiredays >= 0
    ensures Kept(posts[1..], now, expiredays) == Kept(posts, now, expiredays)
    decreases |posts|
  {
    hide DateOf;
    if |posts| > 1 {
      var n := |posts| - 1;
      assert posts[1..][..n - 1] == posts[..n][1..];
      FirstDropped(posts[..n], now, expiredays);
    }
  }

  lemma {:induction false} KeptSubset(posts: seq<Post>, now: int, expiredays: int)
    ensures forall i :: 0 <= i < |Kept(posts, now, expiredays)| ==> Kept(posts, now, expiredays)[i] in posts
    ensures |Lines(Kept(posts, now, expiredays))| <= |Lines(posts)|
    decreases |posts|
  {
    hide Keeps, Line;
    if posts != [] {
      var n := |posts| - 1;
      KeptSubset(posts[..n], now, expiredays);
      var rest := Kept(posts[..n], now, expiredays);
      assert (rest + [posts[n]])[..|rest|] == rest;
    }
  }

  lemma NewAfterKept(posts: seq<Post>, i: nat, now: int, expiredays: int)
    requires PrefixFree(posts) && i < |posts|
    ensures New(Kept(posts[..i], now, expiredays), posts[i].mid)
  {
    KeptSubset(posts[..i], now, expiredays);
    var kept := Kept(posts[..i], now, expiredays);
    forall j | 0 <= j < |kept| ensures Apart(kept[j].mid, posts[i].mid) {
      assert kept[j] in posts[..i];
    }
  }

  lemma OrderlyEmpty(s: Scheme)
    ensures s.Valid() ==> Orderly(s, map[], "", Log([], map[]), [])
  {
    if s.Valid() { BuiltEmpty(s); }
  }

  lemma NewNotKnown(posts: seq<Post>, mid: string)
    ensures New(posts, mid) ==> PostOf(posts, mid) == |posts|
    ensures Known(posts, mid) <==> PostOf(posts, mid) < |posts|
  {
    var i := PostOf(posts, mid);
    assert mid <= mid;
  }

  /** The answer HISfilesfor gives in a database with these contents. */
  ghost function FilesFor(s: Scheme, slots: Slots, base: string, key: string): Answer
    requires s.Valid() && 0 < |key|
  {
    match Fetch(s, slots, base, key)
    case Found(v) => if 0 <= v <= |base| then FilesAt(base, v) else NoFiles
    case _ => NoFiles
  }

  lemma FoundInside(s: Scheme, slots: Slots, base: string, key: string)
    requires s.Valid() && 0 < |key|
    ensures match Fetch(s, slots, base, key) case Found(v) => 0 <= v <= |base| case _ => true
  {
    FoundInsideFrom(s, slots, base, key, 0);
  }

  lemma {:induction false} FoundInsideFrom(s: Scheme, slots: Slots, base: string, key: string, k: nat)
    requires s.Valid() && 0 < |key|
    ensures match FetchFrom(s, slots, base, key, k) case Found(v) => !TooShort(base, v, key) case _ => true
    decreases Height(slots) * MAXRUN - k
  {
    hide TextMatches, Loc;
    if Loc(s.tsize, s.hash(key), k) in slots {
      BeyondHeight(slots, s.tsize, s.hash(key), k);
      FoundInsideFrom(s, slots, base, key, k + 1);
    }
  }

  /** The text at v has its newline within one read of LEN - 1 bytes, or the file ends there. */
  predicate Fits(base: string, v: int) {
    0 <= v <= |base| && (v + LEN - 1 >= |base| || '\n' in base[v..v + LEN - 1])
  }

  /** ... which is what HISfilesfor needs of the text it is led to. */
  ghost predicate FitsFor(s: Scheme, slots: Slots, base: string, key: string)
    requires s.Valid() && 0 < |key|
  {
    match Fetch(s, slots, base, key) case Found(v) => Fits(base, v) case _ => true
  }

  /** Message-IDs for which the history promises something: stored, or apart from all that are. */
  predicate Askable(posts: seq<Post>, mid: string) {
    0 < |mid| < DBZMAXKEY && '\0' !in mid && (Known(posts, mid) || New(posts, mid))
  }

  function AnswerOf(posts: seq<Post>, mid: string): Answer {
    var i := PostOf(posts, mid);
    if i < |posts| then Files(posts[i].rest) else NoFiles
  }

  /** The posts after an attempt to store one more: the first for a Message-ID wins. */
  function Posted(posts: seq<Post>, p: Post): seq<Post> {
    if PostOf(posts, p.mid) < |posts| then posts else posts + [p]
  }

  /** Looking up a Message-ID in an orderly history. */
  lemma FilesForPost(s: Scheme, slots: Slots, base: string, log: Log, posts: seq<Post>, mid: string)
    requires Plain(s) && Orderly(s, slots, base, log, posts)
    requires Askable(posts, mid)
    ensures FilesFor(s, slots, base, mid) == AnswerOf(posts, mid)
  {
    PlainMap(s);
    hide FilesAt, Lines, Orderly, Plain, Fetch;
    Lookup(s, slots, base, log, posts, mid);
  }

  lemma FilesFit(base: string, v: int)
    requires 0 <= v <= |base| && FilesAt(base, v) != NoFiles
    ensures Fits(base, v)
  {
    var chunk := if v + LEN - 1 <= |base| then base[v..v + LEN - 1] else base[v..];
    assert Find(chunk, '\n') < |chunk|;
  }

  /** In an orderly history every lookup of a stored Message-ID, or of one apart from all, can be read in one go. */
  lemma AskableFits(s: Scheme, slots: Slots, base: string, log: Log, posts: seq<Post>, mid: string)
    requires Plain(s) && s.Valid() && Orderly(s, slots, base, log, posts) && Askable(posts, mid)
    ensures FitsFor(s, slots, base, mid)
  {
    hide FilesAt, Lines, Orderly, Plain, Fetch, Fits, Scheme.Valid;
    Lookup(s, slots, base, log, posts, mid);
    var i := PostOf(posts, mid);
    if i < |posts| { FilesFit(base, |Lines(posts[..i])|); }
  }

  /** What HISmaint reads off a line: the key before the first tab, the rest after it, and the date there. */
  lemma LineParsed(p: Post)
    requires Good(p)
    ensures var line, tab := Line(p), |p.mid|;
      && Find(line, '\t') == tab < |line| && line[..tab] == p.mid
      && line[tab + 1..] == p.rest + "\n" && Decimal.Atol(line[tab + 1..]) == DateOf(p)
  {
    var line, tab := Line(p), |p.mid|;
    assert line[..tab] == p.mid;
    FindAt(line, '\t', tab);
    assert line[tab + 1..] == p.rest + "\n";
    Decimal.AtolBeforeNewline(p.rest);
  }

  /** One line on, in the loop over the old history. */
  lemma KeptNext(posts: seq<Post>, i: nat, now: int, expiredays: int)
    requires i < |posts|
    ensures Kept(posts[..i + 1], now, expiredays) ==
      if Keeps(posts[i], now, expiredays) then Kept(posts[..i], now, expiredays) + [posts[i]]
      else Kept(posts[..i], now, expiredays)
  {
    assert posts[..i + 1][..i] == posts[..i];
  }

  /** The new history never grows beyond what was read of the old one. */
  lemma KeptShorter(posts: seq<Post>, i: nat, now: int, expiredays: int)
    requires i < |posts|
    ensures |Lines(Kept(posts[..i], now, expiredays))| + |Line(posts[i])| <= |Lines(posts)|
  {
    KeptSubset(posts[..i], now, expiredays);
    LineAt(posts, i);
  }

  lemma NoneKept(posts: seq<Post>, now: int, expiredays: int)
    requires posts != [] && Aged(posts[0], now, expiredays) && expiredays >= 0
    ensures Kept(posts[..1], now, expiredays) == [] && Expired(posts, now, expiredays) == Kept(posts, now, expiredays)
  {
    assert posts[..1][..0] == [];
  }

  /** xs takes its members from ys in the order they have there. */
  ghost predicate InOrderOf(xs: seq<Post>, ys: seq<Post>) {
    forall i, j, a, b ::
      0 <= i < j < |xs| && 0 <= a < |ys| && 0 <= b < |ys| && ys[a] == xs[i] && ys[b] == xs[j] ==> a < b
  }

  lemma ApartDiffer(posts: seq<Post>, i: int, j: int)
    requires PrefixFree(posts) && 0 <= i < |posts| && 0 <= j < |posts| && posts[i] == posts[j]
    ensures i == j
  {
    assert posts[i].mid <= posts[j].mid;
  }

  /** What expiry keeps, and in which order. */
  lemma {:induction false} KeptExactly(posts: seq<Post>, now: int, days: int)
    ensures forall p :: p in Kept(posts, now, days) <==> p in posts && Decimal.Atol(p.rest) + 99600 * days >= now
    ensures PrefixFree(posts) ==> InOrderOf(Kept(posts, now, days), posts)
    decreases |posts|
  {
    hide Decimal.Atol;
    if posts != [] {
      var n := |posts| - 1;
      var before, p := posts[..n], posts[n];
      assert posts == before + [p];
      KeptExactly(before, now, days);
      var rest, all := Kept(before, now, days), Kept(posts, now, days);
      assert all == if p in all && Keeps(p, now, days) then rest + [p] else rest;
      if PrefixFree(posts) {
        OrderNext(rest, before, p, all);
      }
    }
  }

  lemma OrderNext(rest: seq<Post>, before: seq<Post>, p: Post, all: seq<Post>)
    requires PrefixFree(before + [p]) && (all == rest || all == rest + [p])
    requires forall q :: q in rest ==> q in before
    requires PrefixFree(before) ==> InOrderOf(rest, before)
    ensures InOrderOf(all, before + [p])
  {
    var posts := before + [p];
    assert PrefixFree(before) by {
      forall i, j | 0 <= i < j < |before| ensures Apart(before[i].mid, before[j].mid) {
        assert posts[i] == before[i] && posts[j] == before[j];
      }
    }
    forall i, j, a, b |
      && 0 <= i < j < |all| && 0 <= a < |posts| && 0 <= b < |posts|
      && posts[a] == all[i] && posts[b] == all[j]
      ensures a < b
    {
      assert all[i] == rest[i] && all[i] in before;
      var c :| 0 <= c < |before| && before[c] == all[i];
      ApartDiffer(posts, a, c);
      if j < |rest| {
        assert all[j] == rest[j] && all[j] in before;
        var d :| 0 <= d < |before| && before[d] == all[j];
        ApartDiffer(posts, b, d);
      } else {
        ApartDiffer(posts, b, |before|);
      }
    }
  }

  /** What expiry leaves, in numbers. */
  lemma ExpiredExactly(posts: seq<Post>, now: int, days: int)
    ensures var rest := Expired(posts, now, days);
      if posts != [] && Decimal.Atol(posts[0].rest) + 86400 * days * 2 < now then
        && (forall p :: p in rest <==> p in posts && Decimal.Atol(p.rest) + 99600 * days >= now)
        && (PrefixFree(posts) ==> InOrderOf(rest, posts))
      else rest == posts
  {
    KeptExactly(posts, now, days);
    hide Kept, InOrderOf, PrefixFree, Decimal.Atol;
  }

  lemma NothingThere(now: int, expiredays: int)
    ensures Kept([], now, expiredays) == [] == Expired([], now, expiredays) && Lines([]) == ""
  {
  }

  /** Everything the loop of HISmaint() needs to know about its i-th line. */
  lemma RebuildStep(posts: seq<Post>, i: nat, now: int, expiredays: int, max: nat)
    requires PrefixFree(posts) && (forall j :: 0 <= j < |posts| ==> Good(posts[j])) && i <= |posts| && max >= LEN
    ensures |Lines(posts[..i])| <= |Lines(posts)|
    ensures var line := FirstLine(Lines(posts)[|Lines(posts[..i])|..], max);
      if i == |posts| then line == ""
      else (line == Line(posts[i]) != "" && |Lines(posts[..i + 1])| == |Lines(posts[..i])| + |line|)
    ensures i < |posts| ==> Good(posts[i]) && New(Kept(posts[..i], now, expiredays), posts[i].mid)
    ensures i < |posts| ==> |Lines(Kept(posts[..i], now, expiredays))| + |Line(posts[i])| <= |Lines(posts)|
    ensures i < |posts| ==> (Kept(posts[..i + 1], now, expiredays) ==
      Kept(posts[..i], now, expiredays) + if Keeps(posts[i], now, expiredays) then [posts[i]] else [])
  {
    hide Lines, Kept, FirstLine, Good, Keeps, New;
    if i == |posts| {
      FirstLineEnd(posts, max);
    } else {
      FirstLineAt(posts, i, max);
      NewAfterKept(posts, i, now, expiredays);
      KeptShorter(posts, i, now, expiredays);
      KeptNext(posts, i, now, expiredays);
    }
  }

  lemma LinesNone(posts: seq<Post>)
    ensures |Lines(posts[..0])| == 0 && Lines(posts)[0..] == Lines(posts)
  {
  }

  // ------------------------------------------------------------------ runs of storeDB

  datatype Hist = Hist(slots: Slots, base: string, log: Log, posts: seq<Post>)

  ghost function StoreOne(s: Scheme, h: Hist, p: Post): Hist
    requires s.Valid() && 0 < |p.mid|
  {
    if FilesFor(s, h.slots, h.base, p.mid) != NoFiles then h
    else
      Hist(Store(s, h.slots, p.mid, |h.base|), h.base + Line(p), LogStore(s, h.slots, h.log, p.mid, |h.base|),
           h.posts + [p])
  }

  predicate AllNamed(posts: seq<Post>) { forall i :: 0 <= i < |posts| ==> 0 < |posts[i].mid| }

  ghost function StoreAll(s: Scheme, requests: seq<Post>): Hist
    requires s.Valid() && AllNamed(requests)
  {
    if requests == [] then Hist(map[], "", Log([], map[]), [])
    else StoreOne(s, StoreAll(s, requests[..|requests| - 1]), requests[|requests| - 1])
  }

  /** Good lines whose Message-IDs are equal or apart, and a history file within the range of a long. */
  predicate CleanRun(requests: seq<Post>) {
    && (forall i :: 0 <= i < |requests| ==> Good(requests[i]))
    && (forall i, j :: 0 <= i < j < |requests| ==>
          requests[i].mid == requests[j].mid || Apart(requests[i].mid, requests[j].mid))
    && |Lines(requests)| < TWO63
  }

  /** The posts of a run: the first request for each Message-ID. */
  function Firsts(requests: seq<Post>): seq<Post> {
    if requests == [] then [] else Posted(Firsts(requests[..|requests| - 1]), requests[|requests| - 1])
  }

  lemma {:induction false} FirstsAre(requests: seq<Post>, mid: string)
    ensures AnswerOf(Firsts(requests), mid) == AnswerOf(requests, mid)
    ensures forall i :: 0 <= i < |Firsts(requests)| ==> Firsts(requests)[i] in requests
    ensures |Lines(Firsts(requests))| <= |Lines(requests)|
    decreases |requests|
  {
    hide Line, Lines;
    if requests != [] {
      var n := |requests| - 1;
      var before := requests[..n];
      FirstsAre(before, mid);
      FirstsAre(before, requests[n].mid);
      LinesAppended(before, requests[n]);
      LinesAppended(Firsts(before), requests[n]);
      assert before + [requests[n]] == requests;
      AnswerAppended(before, requests[n], mid);
      AnswerAppended(Firsts(before), requests[n], mid);
    }
  }

  lemma AnswerAppended(posts: seq<Post>, p: Post, mid: string)
    ensures AnswerOf(posts + [p], mid) ==
      if AnswerOf(posts, mid) != NoFiles then AnswerOf(posts, mid)
      else if p.mid == mid then Files(p.rest) else NoFiles
  {
    var i, j := PostOf(posts, mid), PostOf(posts + [p], mid);
    var expected := if i < |posts| || p.mid == mid then i else i + 1;
    PostUnique(posts + [p], mid, expected);
  }

  lemma PostUnique(posts: seq<Post>, mid: string, i: nat)
    requires i <= |posts| && (forall j :: 0 <= j < i ==> posts[j].mid != mid) && (i < |posts| ==> posts[i].mid == mid)
    ensures PostOf(posts, mid) == i
  {
  }

  lemma {:induction false} RunOrderly(s: Scheme, requests: seq<Post>)
    requires Plain(s) && CleanRun(requests)
    ensures var h := StoreAll(s, requests);
      Orderly(s, h.slots, h.base, h.log, h.posts) && h.posts == Firsts(requests)
    decreases |requests|
  {
    PlainMap(s);
    if requests == [] {
      OrderlyEmpty(s);
    } else {
      var n := |requests| - 1;
      var before, p := requests[..n], requests[n];
      assert |Lines(before)| <= |Lines(requests)|;
      hide Plain, Lines, Line, Orderly, Scheme.Valid, FilesFor, Posted, Store, LogStore;
      RunOrderly(s, before);
      RunStep(s, StoreAll(s, before), before, p);
    }
  }

  lemma RunStep(s: Scheme, h: Hist, before: seq<Post>, p: Post)
    requires Plain(s) && s.Valid() && Orderly(s, h.slots, h.base, h.log, h.posts) && h.posts == Firsts(before)
    requires Good(p) && |Lines(before)| < TWO63
    requires forall i :: 0 <= i < |before| ==> before[i].mid == p.mid || Apart(before[i].mid, p.mid)
    ensures var r := StoreOne(s, h, p); Orderly(s, r.slots, r.base, r.log, r.posts) && r.posts == Posted(h.posts, p)
  {
    FirstsAre(before, p.mid);
    assert h.base == Lines(h.posts);
    assert '\0' !in p.mid && 0 < |p.mid| < DBZMAXKEY;
    NewNotKnown(h.posts, p.mid);
    hide Plain, Lines, Line, Orderly, Good, FilesFor, Scheme.Valid, Store, LogStore, Apart, Firsts;
    forall i | 0 <= i < |h.posts| && h.posts[i].mid != p.mid ensures Apart(h.posts[i].mid, p.mid) {
      assert h.posts[i] in before;
    }
    FilesForPost(s, h.slots, h.base, h.log, h.posts, p.mid);
    if PostOf(h.posts, p.mid) == |h.posts| {
      AppendOrderly(s, h.slots, h.base, h.log, h.posts, p);
    }
  }

  /** After any clean run of storeDB calls, a lookup of any requested Message-ID yields its first request's text. */
  lemma RunFindsAll(s: Scheme, requests: seq<Post>, i: nat)
    requires Plain(s) && CleanRun(requests) && i < |requests|
    ensures var h := StoreAll(s, requests);
      FilesFor(s, h.slots, h.base, requests[i].mid) == AnswerOf(requests, requests[i].mid) != NoFiles
  {
    PlainMap(s);
    RunOrderly(s, requests);
    var h, mid := StoreAll(s, requests), requests[i].mid;
    FirstsAre(requests, mid);
    NewNotKnown(h.posts, mid);
    NewNotKnown(requests, mid);
    assert Known(requests, mid);
    assert '\0' !in mid && 0 < |mid| < DBZMAXKEY;
    hide Plain, Lines, Line, Orderly, Good, FilesFor, Scheme.Valid, StoreAll, Firsts;
    FilesForPost(s, h.slots, h.base, h.log, h.posts, mid);
  }

  /** What each call of a clean run finds. */
  lemma CleanStep(requests: seq<Post>, k: nat)
    requires CleanRun(requests) && k < |requests|
    ensures Good(requests[k]) && Askable(Firsts(requests[..k]), requests[k].mid)
    ensures |Lines(Firsts(requests[..k]))| + |Line(requests[k])| < TWO63
    ensures Firsts(requests[..k + 1]) == Posted(Firsts(requests[..k]), requests[k])
  {
    var before, p := requests[..k], requests[k];
    assert requests[..k + 1][..k] == before;
    assert '\0' !in p.mid && 0 < |p.mid| < DBZMAXKEY;
    FirstsAre(before, p.mid);
    OffsetsGrow(requests, k, k + 1);
    OffsetsGrow(requests, k + 1, |requests|);
    assert requests[..|requests|] == requests;
    hide Lines, Line, Good, Apart, Posted;
    forall i | 0 <= i < |Firsts(before)| ensures Firsts(before)[i].mid == p.mid || Apart(Firsts(before)[i].mid, p.mid) {
      assert Firsts(before)[i] in before;
    }
  }
}
