/** The user hash of util/uhash_loader.c: chains of record numbers, linked through an array shared by all of them. */
module UHash {

  const IDLEN: nat := 12

  predicate InRange(i: int, max: nat) { 0 <= i < max }

  predicate Nodes(xs: seq<int>, max: nat) {
    forall i :: 0 <= i < |xs| ==> 0 <= xs[i] < max
  }

  /** Following the links from a value visits xs and then meets a value that is no record number. */
  ghost predicate Path(next: seq<int>, start: int, xs: seq<int>, end: int)
    decreases |xs|
  {
    if xs == [] then start == end && !InRange(end, |next|)
    else start == xs[0] && InRange(start, |next|) && Path(next, next[start], xs[1..], end)
  }

  /** The chain from a value comes to an end. */
  ghost predicate Ends(next: seq<int>, start: int) {
    exists xs, end :: Path(next, start, xs, end)
  }

  ghost predicate AllEnd(head: seq<int>, next: seq<int>) {
    forall h :: 0 <= h < |head| ==> Ends(next, head[h])
  }

  // ------------------------------------------------------------------ paths

  lemma {:induction false} PathUnique(next: seq<int>, start: int, xs: seq<int>, end: int, ys: seq<int>, last: int)
    requires Path(next, start, xs, end) && Path(next, start, ys, last)
    ensures xs == ys && end == last
    decreases |xs|
  {
    if xs != [] && ys != [] {
      PathUnique(next, next[start], xs[1..], end, ys[1..], last);
      assert xs == [xs[0]] + xs[1..] && ys == [ys[0]] + ys[1..];
    }
  }

  /** The k-th value met on a path, and the path from there. */
  lemma {:induction false} PathAt(next: seq<int>, start: int, xs: seq<int>, end: int, k: nat)
    requires Path(next, start, xs, end) && k <= |xs|
    ensures start == At(xs, 0, end) && Nodes(xs, |next|)
    ensures Path(next, At(xs, k, end), xs[k..], end)
    ensures k > 0 ==> next[xs[k - 1]] == At(xs, k, end)
    ensures !InRange(end, |next|)
    decreases |xs|
  {
    if xs != [] {
      PathAt(next, next[start], xs[1..], end, if k > 0 then k - 1 else 0);
      NodesCons(xs, |next|);
      hide Path, Nodes;
      if k > 0 { assert xs[k..] == xs[1..][k - 1..]; }
    }
  }

  lemma NodesCons(xs: seq<int>, max: nat)
    requires xs != [] && InRange(xs[0], max) && Nodes(xs[1..], max)
    ensures Nodes(xs, max)
  {
    forall i | 0 <= i < |xs| ensures 0 <= xs[i] < max {
      if i > 0 { assert xs[i] == xs[1..][i - 1]; }
    }
  }

  function At(xs: seq<int>, k: nat, end: int): int { if k < |xs| then xs[k] else end }

  /** A path that ends visits nothing twice. */
  lemma PathDistinct(next: seq<int>, start: int, xs: seq<int>, end: int, i: nat, j: nat)
    requires Path(next, start, xs, end) && i < j < |xs|
    ensures xs[i] != xs[j]
  {
    PathAt(next, start, xs, end, i);
    PathAt(next, start, xs, end, j);
    if xs[i] == xs[j] {
      PathUnique(next, xs[i], xs[i..], end, xs[j..], end);
      assert false;
    }
  }

  lemma {:induction false} PathFrame(next: seq<int>, start: int, xs: seq<int>, end: int, j: int, v: int)
    requires Path(next, start, xs, end) && InRange(j, |next|) && j !in xs
    ensures Path(next[j := v], start, xs, end)
    decreases |xs|
  {
    if xs != [] {
      PathFrame(next, next[start], xs[1..], end, j, v);
    }
  }

  /** Changing the link of the k-th node of a path splices another path in behind it. */
  lemma {:induction false} PathSplice(next: seq<int>, start: int, xs: seq<int>, end: int, k: nat, v: int,
                                      ys: seq<int>, last: int)
    requires Path(next, start, xs, end) && k < |xs| && InRange(xs[k], |next|) && Path(next, v, ys, last) && xs[k] !in ys
    requires forall i :: 0 <= i < k ==> xs[i] != xs[k]
    ensures Path(next[xs[k] := v], start, xs[..k + 1] + ys, last)
    decreases k
  {
    var zs := xs[..k + 1] + ys;
    if k == 0 {
      PathFrame(next, v, ys, last, xs[0], v);
      assert zs[1..] == ys;
    } else {
      assert xs[1..][k - 1] == xs[k];
      PathSplice(next, next[start], xs[1..], end, k - 1, v, ys, last);
      assert zs[1..] == xs[1..][..k] + ys;
    }
  }

  // ------------------------------------------------------------------ edits of a path

  lemma Unlink(next: seq<int>, start: int, xs: seq<int>, end: int, k: nat)
    requires Path(next, start, xs, end) && 0 < k < |xs| && InRange(xs[k - 1], |next|) && InRange(xs[k], |next|)
    ensures Path(next[xs[k - 1] := next[xs[k]]], start, xs[..k] + xs[k + 1..], end)
  {
    PathAt(next, start, xs, end, k + 1);
    forall i | 0 <= i < |xs| && i != k - 1 ensures xs[i] != xs[k - 1] {
      PathDistinct(next, start, xs, end, if i < k - 1 then i else k - 1, if i < k - 1 then k - 1 else i);
    }
    PathSplice(next, start, xs, end, k - 1, next[xs[k]], xs[k + 1..], end);
  }

  lemma CutShort(next: seq<int>, start: int, xs: seq<int>, end: int)
    requires Path(next, start, xs, end) && xs != [] && InRange(xs[|xs| - 1], |next|)
    ensures Path(next[xs[|xs| - 1] := -1], start, xs, -1)
  {
    var k := |xs| - 1;
    forall i | 0 <= i < k ensures xs[i] != xs[k] {
      PathDistinct(next, start, xs, end, i, k);
    }
    PathSplice(next, start, xs, end, k, -1, [], -1);
    assert xs[..k + 1] + [] == xs;
  }

  lemma Append(next: seq<int>, start: int, xs: seq<int>, n: int)
    requires Path(next, start, xs, -1) && InRange(n, |next|) && n !in xs
    ensures xs == [] ==> Path(next[n := -1], n, xs + [n], -1)
    ensures xs != [] ==> InRange(xs[|xs| - 1], |next|) && Path(next[xs[|xs| - 1] := n][n := -1], start, xs + [n], -1)
  {
    var b := next[n := -1];
    assert Path(b, -1, [n][1..], -1) && Path(b, n, [n], -1);
    if xs == [] {
      assert xs + [n] == [n];
    } else {
      var k := |xs| - 1;
      PathAt(next, start, xs, -1, k);
      PathFrame(next, start, xs, -1, n, -1);
      forall i | 0 <= i < k ensures xs[i] != xs[k] {
        PathDistinct(next, start, xs, -1, i, k);
      }
      PathSplice(b, start, xs, -1, k, n, [n], -1);
      assert xs[..k + 1] == xs && b[xs[k] := n] == next[xs[k] := n][n := -1];
    }
  }

  /** Skipping a node leaves every chain with an end, even those that share it. */
  lemma SkipEnds(next: seq<int>, start: int, j: int)
    requires InRange(j, |next|) && InRange(next[j], |next|) && Ends(next, start)
    ensures Ends(next[j := next[next[j]]], start)
  {
    var xs, end :| Path(next, start, xs, end);
    if j in xs {
      var k :| 0 <= k < |xs| && xs[k] == j;
      PathAt(next, start, xs, end, k + 1);
      if k + 1 < |xs| {
        Unlink(next, start, xs, end, k + 1);
      }
    } else {
      PathFrame(next, start, xs, end, j, next[next[j]]);
    }
  }

  lemma CutEnds(next: seq<int>, start: int, j: int)
    requires InRange(j, |next|) && !InRange(next[j], |next|) && Ends(next, start)
    ensures Ends(next[j := -1], start)
  {
    var xs, end :| Path(next, start, xs, end);
    if j in xs {
      var k :| 0 <= k < |xs| && xs[k] == j;
      PathAt(next, start, xs, end, k + 1);
      assert k + 1 == |xs|;
      CutShort(next, start, xs, end);
    } else {
      PathFrame(next, start, xs, end, j, -1);
    }
  }

  // ------------------------------------------------------------------ the walk of checkhash

  /** The members of a chain whose userid hashes to h. */
  function Keep(cls: seq<int>, h: int, xs: seq<int>): (ys: seq<int>)
    requires Nodes(xs, |cls|)
    ensures forall x :: x in ys <==> x in xs && cls[x] == h
  {
    if xs == [] then []
    else
      var last := xs[|xs| - 1];
      assert xs == xs[..|xs| - 1] + [last];
      Keep(cls, h, xs[..|xs| - 1]) + if cls[last] == h then [last] else []
  }

  lemma KeepSnoc(cls: seq<int>, h: int, xs: seq<int>, x: int)
    requires Nodes(xs, |cls|) && InRange(x, |cls|)
    ensures Nodes(xs + [x], |cls|) && Keep(cls, h, xs + [x]) == Keep(cls, h, xs) + if cls[x] == h then [x] else []
  {
    assert (xs + [x])[..|xs + [x]| - 1] == xs;
  }

  lemma {:induction false} KeepAll(cls: seq<int>, h: int, xs: seq<int>)
    requires Nodes(xs, |cls|) && forall i :: 0 <= i < |xs| ==> cls[xs[i]] == h
    ensures Keep(cls, h, xs) == xs
    decreases |xs|
  {
    hide Keep;
    if xs == [] {
      KeepNone(cls, h);
    } else {
      var m := |xs| - 1;
      KeepAll(cls, h, xs[..m]);
      KeepSnoc(cls, h, xs[..m], xs[m]);
      assert xs[..m] + [xs[m]] == xs;
    }
  }

  lemma KeepNone(cls: seq<int>, h: int)
    ensures Keep(cls, h, []) == []
  {
  }

  lemma {:induction false} KeepSplit(cls: seq<int>, h: int, xs: seq<int>, ys: seq<int>)
    requires Nodes(xs, |cls|) && Nodes(ys, |cls|)
    ensures Nodes(xs + ys, |cls|) && Keep(cls, h, xs + ys) == Keep(cls, h, xs) + Keep(cls, h, ys)
    decreases |ys|
  {
    hide Keep;
    if ys == [] {
      KeepNone(cls, h);
      assert xs + ys == xs;
    } else {
      var m := |ys| - 1;
      KeepSplit(cls, h, xs, ys[..m]);
      KeepSnoc(cls, h, ys[..m], ys[m]);
      KeepSnoc(cls, h, xs + ys[..m], ys[m]);
      hide Nodes;
      assert ys[..m] + [ys[m]] == ys && xs + ys[..m] + [ys[m]] == xs + ys;
    }
  }

  lemma Around(xs: seq<int>, k: nat, max: nat)
    requires k < |xs| && Nodes(xs, max)
    ensures xs == xs[..k] + [xs[k]] + xs[k + 1..]
    ensures Nodes(xs[..k], max) && Nodes(xs[k + 1..], max) && InRange(xs[k], max)
  {
  }

  lemma KeepDrop(cls: seq<int>, h: int, xs: seq<int>, k: nat)
    requires k < |xs| && Nodes(xs, |cls|) && cls[xs[k]] != h
    ensures Nodes(xs[..k] + xs[k + 1..], |cls|)
    ensures Keep(cls, h, xs[..k] + xs[k + 1..]) == Keep(cls, h, xs)
  {
    hide Keep, Nodes;
    Around(xs, k, |cls|);
    KeepSplit(cls, h, xs[..k], xs[k + 1..]);
    KeepSnoc(cls, h, xs[..k], xs[k]);
    KeepSplit(cls, h, xs[..k] + [xs[k]], xs[k + 1..]);
    assert Keep(cls, h, xs[..k]) + [] == Keep(cls, h, xs[..k]);
  }

  /** Where the moving pointer points: at the head of the chain, or at the link of a node. */
  datatype Ptr = HeadSlot | LinkOf(node: int)

  predicate PtrOkay(head: seq<int>, next: seq<int>, h: int, p: Ptr) {
    0 <= h < |head| && (p.LinkOf? ==> 0 <= p.node < |next|)
  }

  function Deref(head: seq<int>, next: seq<int>, h: int, p: Ptr): int
    requires PtrOkay(head, next, h, p)
  {
    if p.HeadSlot? then head[h] else next[p.node]
  }

  function PutHead(head: seq<int>, h: int, p: Ptr, v: int): (r: seq<int>)
    requires 0 <= h < |head|
    ensures |r| == |head|
  {
    if p.HeadSlot? then head[h := v] else head
  }

  function PutNext(next: seq<int>, p: Ptr, v: int): (r: seq<int>)
    requires p.LinkOf? ==> 0 <= p.node < |next|
    ensures |r| == |next|
  {
    if p.LinkOf? then next[p.node := v] else next
  }

  /** The walk over chain h has passed its first k nodes, all of which belong there. */
  ghost predicate Walking(head: seq<int>, next: seq<int>, cls: seq<int>, h: int, p: Ptr, ys: seq<int>, end: int,
                          k: nat) {
    && 0 <= h < |head| && |cls| == |next| && k <= |ys| && Nodes(ys, |cls|) && Path(next, head[h], ys, end)
    && p == (if k == 0 then HeadSlot else LinkOf(ys[k - 1]))
    && (forall i :: 0 <= i < k ==> cls[ys[i]] == h)
  }

  lemma WalkCell(head: seq<int>, next: seq<int>, cls: seq<int>, h: int, p: Ptr, ys: seq<int>, end: int, k: nat)
    requires Walking(head, next, cls, h, p, ys, end, k)
    ensures PtrOkay(head, next, h, p) && Deref(head, next, h, p) == At(ys, k, end)
    ensures InRange(At(ys, k, end), |next|) <==> k < |ys|
    ensures p.LinkOf? ==> cls[p.node] == h
  {
    PathAt(next, head[h], ys, end, k);
  }

  lemma WalkStart(head: seq<int>, next: seq<int>, cls: seq<int>, h: int, xs: seq<int>, end: int)
    requires 0 <= h < |head| && |cls| == |next| && Path(next, head[h], xs, end)
    ensures Nodes(xs, |cls|) && Walking(head, next, cls, h, HeadSlot, xs, end, 0)
  {
    PathAt(next, head[h], xs, end, 0);
  }

  /** The pointer meets a node of this chain and moves on to its link. */
  lemma WalkOn(head: seq<int>, next: seq<int>, cls: seq<int>, h: int, p: Ptr, ys: seq<int>, end: int, k: nat)
    requires Walking(head, next, cls, h, p, ys, end, k) && k < |ys| && cls[ys[k]] == h
    ensures Walking(head, next, cls, h, LinkOf(ys[k]), ys, end, k + 1)
  {
  }

  /** The pointer meets -1: the walk is over. */
  lemma WalkDone(head: seq<int>, next: seq<int>, cls: seq<int>, h: int, p: Ptr, ys: seq<int>, end: int, k: nat)
    requires Walking(head, next, cls, h, p, ys, end, k) && At(ys, k, end) == -1
    ensures Nodes(ys, |cls|) && Keep(cls, h, ys) == ys && Path(next, head[h], ys, -1)
  {
    WalkCell(head, next, cls, h, p, ys, end, k);
    KeepAll(cls, h, ys);
  }

  /** The pointer meets a node of another chain and takes it out. */
  lemma WalkRemove(head: seq<int>, next: seq<int>, cls: seq<int>, h: int, p: Ptr, ys: seq<int>, end: int, k: nat)
    requires Walking(head, next, cls, h, p, ys, end, k) && k < |ys| && cls[ys[k]] != h
    ensures PtrOkay(head, next, h, p) && InRange(ys[k], |next|)
    ensures var zs := ys[..k] + ys[k + 1..];
      && Walking(PutHead(head, h, p, next[ys[k]]), PutNext(next, p, next[ys[k]]), cls, h, p, zs, end, k)
      && Keep(cls, h, zs) == Keep(cls, h, ys)
  {
    hide Keep;
    WalkCell(head, next, cls, h, p, ys, end, k);
    KeepDrop(cls, h, ys, k);
    if k == 0 {
      PathAt(next, head[h], ys, end, 1);
      assert ys[..0] + ys[1..] == ys[1..];
    } else {
      Unlink(next, head[h], ys, end, k);
    }
  }

  /** The pointer meets a link that leads nowhere and mends it. */
  lemma WalkMend(head: seq<int>, next: seq<int>, cls: seq<int>, h: int, p: Ptr, ys: seq<int>, end: int)
    requires Walking(head, next, cls, h, p, ys, end, |ys|)
    ensures PtrOkay(head, next, h, p)
    ensures Walking(PutHead(head, h, p, -1), PutNext(next, p, -1), cls, h, p, ys, -1, |ys|)
  {
    WalkCell(head, next, cls, h, p, ys, end, |ys|);
    if |ys| > 0 {
      CutShort(next, head[h], ys, end);
    }
  }

  /** Either edit leaves every chain with an end. */
  lemma EditEnds(head: seq<int>, next: seq<int>, h: int, p: Ptr, v: int)
    requires PtrOkay(head, next, h, p) && AllEnd(head, next)
    requires var x := Deref(head, next, h, p);
      if InRange(x, |next|) then v == next[x] else v == -1
    ensures AllEnd(PutHead(head, h, p, v), PutNext(next, p, v))
  {
    var x := Deref(head, next, h, p);
    var a, b := PutHead(head, h, p, v), PutNext(next, p, v);
    forall g | 0 <= g < |a| ensures Ends(b, a[g]) {
      if p.LinkOf? {
        if InRange(x, |next|) { SkipEnds(next, head[g], p.node); } else { CutEnds(next, head[g], p.node); }
      } else if g == h {
        HeadEnds(next, head[h], v);
      }
    }
  }

  lemma HeadEnds(next: seq<int>, x: int, v: int)
    requires Ends(next, x) && if InRange(x, |next|) then v == next[x] else v == -1
    ensures Ends(next, v)
  {
    if InRange(x, |next|) {
      var xs, end :| Path(next, x, xs, end);
      assert Path(next, v, xs[1..], end);
    } else {
      assert Path(next, -1, [], -1);
    }
  }

  // ------------------------------------------------------------------ the shared table

  /** The chain that each userid hashes to. */
  function Classes(hash: string -> int, ids: seq<string>): (cls: seq<int>)
    ensures |cls| == |ids| && forall i :: 0 <= i < |ids| ==> cls[i] == hash(ids[i])
  {
    seq(|ids|, i requires 0 <= i < |ids| => hash(ids[i]))
  }

  /** Work on chain h touches its head and the links of its own nodes, and no others. */
  ghost predicate Local(head: seq<int>, next: seq<int>, a: seq<int>, b: seq<int>, cls: seq<int>, h: int) {
    && |a| == |head| && |b| == |next| == |cls|
    && (forall g :: 0 <= g < |head| && g != h ==> a[g] == head[g])
    && (forall i :: 0 <= i < |next| && cls[i] != h ==> b[i] == next[i])
  }

  lemma LocalRefl(head: seq<int>, next: seq<int>, cls: seq<int>, h: int)
    requires |cls| == |next|
    ensures Local(head, next, head, next, cls, h)
  {
  }

  lemma LocalEdit(head: seq<int>, next: seq<int>, a: seq<int>, b: seq<int>, cls: seq<int>, h: int, p: Ptr, v: int)
    requires Local(head, next, a, b, cls, h) && PtrOkay(a, b, h, p) && (p.LinkOf? ==> cls[p.node] == h)
    ensures Local(head, next, PutHead(a, h, p, v), PutNext(b, p, v), cls, h)
  {
  }

  // ------------------------------------------------------------------ all the chains

  /** Chain h ends with -1, holds xs, and nothing that belongs elsewhere. */
  ghost predicate ChainOkay(head: seq<int>, next: seq<int>, cls: seq<int>, h: int, xs: seq<int>) {
    && 0 <= h < |head| && |cls| == |next| && Nodes(xs, |cls|) && Path(next, head[h], xs, -1)
    && (forall i :: 0 <= i < |xs| ==> cls[xs[i]] == h)
  }

  ghost predicate Chains(head: seq<int>, next: seq<int>, cls: seq<int>, chains: seq<seq<int>>) {
    |chains| <= |head| && forall h :: 0 <= h < |chains| ==> ChainOkay(head, next, cls, h, chains[h])
  }

  /** Every chain is in order. */
  ghost predicate Healthy(head: seq<int>, next: seq<int>, cls: seq<int>, chains: seq<seq<int>>) {
    |chains| == |head| && Chains(head, next, cls, chains)
  }

  /** Some chain holds a node of another, or does not end with -1. */
  ghost predicate Ruined(head: seq<int>, next: seq<int>, cls: seq<int>) {
    forall chains :: !Healthy(head, next, cls, chains)
  }

  /** In healthy chains a node stands once, and only in the chain of its own userid. */
  lemma StandsOnce(head: seq<int>, next: seq<int>, cls: seq<int>, chains: seq<seq<int>>, g: int, h: int, i: int, j: int)
    requires Healthy(head, next, cls, chains)
    requires 0 <= g < |chains| && 0 <= h < |chains| && 0 <= i < |chains[g]| && 0 <= j < |chains[h]|
    requires chains[g][i] == chains[h][j]
    ensures g == h && i == j && cls[chains[g][i]] == g
  {
    assert ChainOkay(head, next, cls, g, chains[g]) && ChainOkay(head, next, cls, h, chains[h]);
    if i < j {
      PathDistinct(next, head[g], chains[g], -1, i, j);
    } else if j < i {
      PathDistinct(next, head[g], chains[g], -1, j, i);
    }
  }

  /** The chains are determined by the arrays. */
  lemma HealthyUnique(head: seq<int>, next: seq<int>, cls: seq<int>, c: seq<seq<int>>, d: seq<seq<int>>)
    requires Healthy(head, next, cls, c) && Healthy(head, next, cls, d)
    ensures c == d
  {
    forall h | 0 <= h < |head| ensures c[h] == d[h] {
      PathUnique(next, head[h], c[h], -1, d[h], -1);
    }
  }

  lemma {:induction false} PathAgree(next: seq<int>, b: seq<int>, start: int, xs: seq<int>, end: int)
    requires Path(next, start, xs, end) && |b| == |next| && Nodes(xs, |b|)
    requires forall i :: 0 <= i < |xs| ==> b[xs[i]] == next[xs[i]]
    ensures Path(b, start, xs, end)
    decreases |xs|
  {
    if xs != [] {
      PathAgree(next, b, next[start], xs[1..], end);
    }
  }

  /** Work on one chain leaves the others in order. */
  lemma OthersOkay(head: seq<int>, next: seq<int>, a: seq<int>, b: seq<int>, cls: seq<int>, h: int, g: int,
                   xs: seq<int>)
    requires Local(head, next, a, b, cls, h) && g != h && ChainOkay(head, next, cls, g, xs)
    ensures ChainOkay(a, b, cls, g, xs)
  {
    PathAgree(next, b, head[g], xs, -1);
  }

  lemma ChainsAfter(head: seq<int>, next: seq<int>, a: seq<int>, b: seq<int>, cls: seq<int>, h: int,
                    chains: seq<seq<int>>, xs: seq<int>)
    requires Local(head, next, a, b, cls, h) && Chains(head, next, cls, chains) && 0 <= h <= |chains| && h < |head|
    requires ChainOkay(a, b, cls, h, xs)
    ensures Chains(a, b, cls, if h < |chains| then chains[h := xs] else chains + [xs])
  {
    hide ChainOkay, Local;
    assert |a| == |head| by { LocalLength(head, next, a, b, cls, h); }
    forall g | 0 <= g < |chains| && g != h ensures ChainOkay(a, b, cls, g, chains[g]) {
      OthersOkay(head, next, a, b, cls, h, g, chains[g]);
    }
  }

  lemma LocalLength(head: seq<int>, next: seq<int>, a: seq<int>, b: seq<int>, cls: seq<int>, h: int)
    requires Local(head, next, a, b, cls, h)
    ensures |a| == |head| && |b| == |next|
  {
  }

  lemma KeptOkay(head: seq<int>, next: seq<int>, cls: seq<int>, h: int, xs: seq<int>)
    requires 0 <= h < |head| && |cls| == |next| && Nodes(xs, |cls|) && Path(next, head[h], Keep(cls, h, xs), -1)
    ensures ChainOkay(head, next, cls, h, Keep(cls, h, xs))
  {
    var ys := Keep(cls, h, xs);
    PathAt(next, head[h], ys, -1, 0);
    forall i | 0 <= i < |ys| ensures cls[ys[i]] == h {
      assert ys[i] in ys;
    }
  }

  /** Checking a chain in order finds nothing to remove. */
  lemma KeepOkay(head: seq<int>, next: seq<int>, cls: seq<int>, h: int, xs: seq<int>, ys: seq<int>, last: int)
    requires ChainOkay(head, next, cls, h, ys) && Path(next, head[h], xs, last)
    ensures Nodes(xs, |cls|) && Keep(cls, h, xs) == ys
  {
    PathUnique(next, head[h], xs, last, ys, -1);
    KeepAll(cls, h, ys);
  }

  // ------------------------------------------------------------------ adding the records

  /** Adding a record number to the chain of its hash, unless it is there. */
  function Added(chains: seq<seq<int>>, h: int, n: int): (r: seq<seq<int>>)
    ensures |r| == |chains|
    ensures 0 <= h < |chains| ==> n in r[h]
    ensures forall g :: 0 <= g < |chains| ==> chains[g] <= r[g]
    ensures forall g, x :: 0 <= g < |chains| && x in r[g] ==> x in chains[g] || (g == h && x == n)
  {
    if 0 <= h < |chains| && n !in chains[h] then
      var more := chains[h] + [n];
      assert more[|chains[h]|] == n;
      chains[h := more]
    else chains
  }

  /** Adding the first n records in turn. */
  function AddedAll(hash: string -> int, chains: seq<seq<int>>, users: seq<string>, n: nat): (r: seq<seq<int>>)
    requires n <= |users|
    ensures |r| == |chains|
  {
    if n == 0 then chains else Added(AddedAll(hash, chains, users, n - 1), hash(users[n - 1]), n - 1)
  }

  /** The record numbers below n that hash to h, in increasing order. */
  function Numbers(hash: string -> int, users: seq<string>, n: nat, h: int): (r: seq<int>)
    requires n <= |users|
    ensures forall x :: x in r <==> 0 <= x < n && hash(users[x]) == h
    ensures forall i, j :: 0 <= i < j < |r| ==> r[i] < r[j]
  {
    if n == 0 then []
    else
      var before := Numbers(hash, users, n - 1, h);
      assert forall i :: 0 <= i < |before| ==> before[i] in before;
      before + if hash(users[n - 1]) == h then [n - 1] else []
  }

  /** Built fresh, every chain has just its own record numbers, in increasing order. */
  lemma {:induction false} AddedFresh(hash: string -> int, users: seq<string>, n: nat, chains: seq<seq<int>>, h: int)
    requires n <= |users| && 0 <= h < |chains| && (forall g :: 0 <= g < |chains| ==> chains[g] == [])
    ensures AddedAll(hash, chains, users, n)[h] == Numbers(hash, users, n, h)
    decreases n
  {
    if n > 0 {
      AddedFresh(hash, users, n - 1, chains, h);
    }
  }

  /** Every record gets into the chain of its hash, and what was in a chain stays there, first. */
  lemma {:induction false} AddedHas(hash: string -> int, users: seq<string>, n: nat, chains: seq<seq<int>>, m: nat)
    requires m < n <= |users| && 0 <= hash(users[m]) < |chains|
    ensures m in AddedAll(hash, chains, users, n)[hash(users[m])]
    decreases n
  {
    if m < n - 1 {
      AddedHas(hash, users, n - 1, chains, m);
    }
  }

  lemma AddedNone(hash: string -> int, users: seq<string>, chains: seq<seq<int>>)
    ensures AddedAll(hash, chains, users, 0) == chains
  {
  }

  /** When every record is in its chain already, adding changes nothing. */
  lemma {:induction false} AddedNothing(hash: string -> int, users: seq<string>, n: nat, chains: seq<seq<int>>)
    requires n <= |users|
    requires forall m :: 0 <= m < n ==> 0 <= hash(users[m]) < |chains| && m in chains[hash(users[m])]
    ensures AddedAll(hash, chains, users, n) == chains
    decreases n
  {
    if n > 0 {
      AddedNothing(hash, users, n - 1, chains);
    }
  }

  /** Where the last link of a chain is. */
  function EndPtr(xs: seq<int>): Ptr { if xs == [] then HeadSlot else LinkOf(xs[|xs| - 1]) }

  /** The arrays once n is linked at the end of chain h, unless it stood there. */
  function LinkedHead(head: seq<int>, h: int, xs: seq<int>, n: int): (a: seq<int>)
    requires 0 <= h < |head|
    ensures |a| == |head|
  {
    if n in xs then head else PutHead(head, h, EndPtr(xs), n)
  }

  function LinkedNext(next: seq<int>, xs: seq<int>, n: int): (b: seq<int>)
    requires InRange(n, |next|) && (EndPtr(xs).LinkOf? ==> 0 <= EndPtr(xs).node < |next|)
    ensures |b| == |next|
  {
    if n in xs then next else PutNext(next, EndPtr(xs), n)[n := -1]
  }

  lemma EndOkay(head: seq<int>, next: seq<int>, cls: seq<int>, h: int, xs: seq<int>)
    requires ChainOkay(head, next, cls, h, xs)
    ensures PtrOkay(head, next, h, EndPtr(xs))
  {
  }

  lemma AddChain(head: seq<int>, next: seq<int>, cls: seq<int>, h: int, xs: seq<int>, n: int)
    requires ChainOkay(head, next, cls, h, xs) && InRange(n, |next|)
    ensures PtrOkay(head, next, h, EndPtr(xs))
    ensures var a, b := LinkedHead(head, h, xs, n), LinkedNext(next, xs, n);
      && Path(b, a[h], if n in xs then xs else xs + [n], -1)
      && (cls[n] == h ==> ChainOkay(a, b, cls, h, if n in xs then xs else xs + [n]) && Local(head, next, a, b, cls, h))
  {
    if n !in xs {
      Append(next, head[h], xs, n);
    }
  }

  lemma OkayStart(head: seq<int>, next: seq<int>, cls: seq<int>, h: int, xs: seq<int>)
    requires ChainOkay(head, next, cls, h, xs)
    ensures PtrOkay(head, next, h, HeadSlot) && Walking(head, next, cls, h, HeadSlot, xs, -1, 0) && Nodes(xs, |cls|)
  {
  }

  lemma AnyChain(head: seq<int>, next: seq<int>, cls: seq<int>, h: int, xs: seq<int>)
    requires 0 <= h < |head| && |cls| == |next| && (forall i :: 0 <= i < |cls| ==> cls[i] == h)
    requires Path(next, head[h], xs, -1)
    ensures ChainOkay(head, next, cls, h, xs)
  {
    PathAt(next, head[h], xs, -1, 0);
  }

  lemma OkayOn(head: seq<int>, next: seq<int>, cls: seq<int>, h: int, p: Ptr, xs: seq<int>, k: nat)
    requires ChainOkay(head, next, cls, h, xs) && Walking(head, next, cls, h, p, xs, -1, k) && k < |xs|
    ensures Walking(head, next, cls, h, LinkOf(xs[k]), xs, -1, k + 1)
    ensures PtrOkay(head, next, h, LinkOf(xs[k])) && xs[..k + 1] == xs[..k] + [xs[k]]
  {
  }

  lemma AddedHealthy(head: seq<int>, next: seq<int>, a: seq<int>, b: seq<int>, cls: seq<int>, chains: seq<seq<int>>,
                     h: int, n: int)
    requires Healthy(head, next, cls, chains) && 0 <= h < |head| && Local(head, next, a, b, cls, h)
    requires ChainOkay(a, b, cls, h, if n in chains[h] then chains[h] else chains[h] + [n])
    ensures Healthy(a, b, cls, Added(chains, h, n))
  {
    hide ChainOkay, Local;
    LocalLength(head, next, a, b, cls, h);
    var xs := if n in chains[h] then chains[h] else chains[h] + [n];
    ChainsAfter(head, next, a, b, cls, h, chains, xs);
    assert chains[h := xs] == Added(chains, h, n);
  }

  lemma HealthyAt(head: seq<int>, next: seq<int>, cls: seq<int>, chains: seq<seq<int>>, h: int)
    requires Healthy(head, next, cls, chains) && 0 <= h < |head|
    ensures |chains| == |head| && ChainOkay(head, next, cls, h, chains[h])
  {
  }

  lemma StaysHealthy(head: seq<int>, next: seq<int>, a: seq<int>, b: seq<int>, cls: seq<int>, h: int,
                     c: seq<seq<int>>, xs: seq<int>, last: int)
    requires Healthy(head, next, cls, c) && 0 <= h < |head| && Local(head, next, a, b, cls, h)
    requires Path(next, head[h], xs, last) && Nodes(xs, |cls|) && ChainOkay(a, b, cls, h, Keep(cls, h, xs))
    ensures Healthy(a, b, cls, c)
  {
    hide ChainOkay, Local, Path, Keep, Chains;
    LocalLength(head, next, a, b, cls, h);
    HealthyAt(head, next, cls, c, h);
    KeepOkay(head, next, cls, h, xs, c[h], last);
    ChainsAfter(head, next, a, b, cls, h, c, c[h]);
    assert c[h := c[h]] == c;
  }

  lemma AllEmpty(head: seq<int>, next: seq<int>, cls: seq<int>, chains: seq<seq<int>>)
    requires |cls| == |next| && |chains| == |head|
    requires forall h :: 0 <= h < |head| ==> head[h] == -1 && chains[h] == []
    ensures Healthy(head, next, cls, chains)
  {
  }

  /** The shared userids hash as those of the records do. */
  predicate Agreeing(hash: string -> int, ids: seq<string>, users: seq<string>, n: nat)
    requires n <= |users| && n <= |ids|
  {
    forall i :: 0 <= i < n ==> hash(ids[i]) == hash(users[i])
  }

  /** Every record may be added when its turn comes. */
  predicate AllFit(hash: string -> int, onfly: bool, ids: seq<string>, users: seq<string>, count: nat,
                   chains: seq<seq<int>>, n: nat)
    requires count <= |users| && count <= |ids|
  {
    forall i :: n <= i < count ==> Fits(hash, onfly, ids[i], users[i], chains, i)
  }

  /** Before fill_uhash(1), every record has a shared userid that hashes like its own, or its number is named by no link
      and its shared userid will be replaced. */
  ghost predicate Loadable(hash: string -> int, head: seq<int>, next: seq<int>, ids: seq<string>, users: seq<string>,
                           count: nat)
    requires count <= |users| && count <= |ids|
  {
    forall i :: 0 <= i < count ==>
      hash(ids[i]) == hash(users[i]) || (Free(head, next, i) && !SameId(ids[i], users[i]))
  }

  lemma LoadableFits(hash: string -> int, head: seq<int>, next: seq<int>, a: seq<int>, b: seq<int>, cls: seq<int>,
                     ids: seq<string>, users: seq<string>, count: nat, chains: seq<seq<int>>)
    requires count <= |users| && count <= |ids| && Loadable(hash, head, next, ids, users, count)
    requires NamesFewer(head, next, a, b) && Healthy(a, b, cls, chains)
    ensures AllFit(hash, true, ids, users, count, chains, 0)
  {
    hide Healthy, Free, SameId, Unlinked;
    forall i | 0 <= i < count ensures Fits(hash, true, ids[i], users[i], chains, i) {
      if Free(head, next, i) { FreeUnlinked(a, b, cls, chains, i); }
    }
  }

  lemma EmptyFits(hash: string -> int, ids: seq<string>, users: seq<string>, count: nat, chains: seq<seq<int>>)
    requires count <= |users| && count <= |ids| && forall h :: 0 <= h < |chains| ==> chains[h] == []
    ensures AllFit(hash, false, ids, users, count, chains, 0)
  {
  }

  lemma {:induction false} AddedUnlinked(hash: string -> int, users: seq<string>, n: nat, chains: seq<seq<int>>, x: int)
    requires n <= |users| && n <= x && Unlinked(chains, x)
    ensures Unlinked(AddedAll(hash, chains, users, n), x)
    decreases n
  {
    if n > 0 {
      AddedUnlinked(hash, users, n - 1, chains, x);
    }
  }

  /** Records added earlier make no difference. */
  lemma FitsSame(hash: string -> int, onfly: bool, id: string, user: string, users: seq<string>, chains: seq<seq<int>>,
                 n: nat)
    requires n <= |users|
    ensures Fits(hash, onfly, id, user, AddedAll(hash, chains, users, n), n) <==> Fits(hash, onfly, id, user, chains, n)
  {
    if Unlinked(chains, n) {
      AddedUnlinked(hash, users, n, chains, n);
    } else {
      AddedKeeps(hash, users, n, chains);
    }
  }

  lemma {:induction false} AddedKeeps(hash: string -> int, users: seq<string>, n: nat, chains: seq<seq<int>>)
    requires n <= |users|
    ensures forall g :: 0 <= g < |chains| ==> chains[g] <= AddedAll(hash, chains, users, n)[g]
    decreases n
  {
    if n > 0 {
      AddedKeeps(hash, users, n - 1, chains);
    }
  }

  lemma ClassesAgree(hash: string -> int, ids: seq<string>, users: seq<string>, n: nat)
    requires n <= |users| && n <= |ids| && forall i :: 0 <= i < n ==> Classes(hash, ids)[i] == hash(users[i])
    ensures Agreeing(hash, ids, users, n)
  {
    forall i | 0 <= i < n ensures hash(ids[i]) == hash(users[i]) {
      assert Classes(hash, ids)[i] == hash(users[i]);
    }
  }

  /** Records beyond the size of the table are not loaded. */
  function Count(users: seq<string>, max: nat): (n: nat)
    ensures n <= |users| && n <= max
  {
    if |users| > max then max else |users|
  }

  /** n stands in chain h, once, and in no other. */
  ghost predicate Once(chains: seq<seq<int>>, h: int, n: int) {
    && 0 <= h < |chains|
    && exists i :: StandsAt(chains, h, i, n)
  }

  ghost predicate StandsAt(chains: seq<seq<int>>, h: int, i: int, n: int) {
    && 0 <= h < |chains| && 0 <= i < |chains[h]| && chains[h][i] == n
    && forall g, j :: 0 <= g < |chains| && 0 <= j < |chains[g]| && chains[g][j] == n ==> g == h && j == i
  }

  lemma PartitionedOnce(hash: string -> int, users: seq<string>, count: nat, chains: seq<seq<int>>, n: nat)
    requires Partitioned(hash, users, count, chains) && n < count
    ensures Once(chains, hash(users[n]), n)
  {
    var h := hash(users[n]);
    var i :| 0 <= i < |chains[h]| && chains[h][i] == n;
    forall g, j | 0 <= g < |chains| && 0 <= j < |chains[g]| && chains[g][j] == n ensures g == h && j == i {
      assert g == hash(users[chains[g][j]]);
      assert !(j < i) && !(i < j);
    }
    assert StandsAt(chains, h, i, n);
  }

  /** Every record number stands in the chain of its own hash, once, and in no other. */
  ghost predicate Partitioned(hash: string -> int, users: seq<string>, count: nat, chains: seq<seq<int>>) {
    && count <= |users|
    && (forall n :: 0 <= n < count ==> 0 <= hash(users[n]) < |chains| && n in chains[hash(users[n])])
    && (forall h, i :: 0 <= h < |chains| && 0 <= i < |chains[h]| && 0 <= chains[h][i] < count ==>
          h == hash(users[chains[h][i]]))
    && (forall h, i, j :: 0 <= h < |chains| && 0 <= i < j < |chains[h]| ==> chains[h][i] != chains[h][j])
  }

  lemma FilledPartition(hash: string -> int, users: seq<string>, count: nat, head: seq<int>, next: seq<int>,
                        ids: seq<string>,
                        checked: seq<seq<int>>)
    requires count <= |users| && count <= |ids| && |checked| == |head|
    requires forall s: string :: 0 <= hash(s) < |head|
    requires Healthy(head, next, Classes(hash, ids), AddedAll(hash, checked, users, count))
    requires Agreeing(hash, ids, users, count)
    ensures Partitioned(hash, users, count, AddedAll(hash, checked, users, count))
  {
    var cls, chains := Classes(hash, ids), AddedAll(hash, checked, users, count);
    hide Classes, AddedAll, Path;
    forall n | 0 <= n < count ensures n in chains[hash(users[n])] {
      AddedHas(hash, users, count, checked, n);
    }
    forall h, i, j | 0 <= h < |chains| && 0 <= i < j < |chains[h]| ensures chains[h][i] != chains[h][j] {
      HealthyAt(head, next, cls, chains, h);
      PathDistinct(next, head[h], chains[h], -1, i, j);
    }
    forall h, i | 0 <= h < |chains| && 0 <= i < |chains[h]| && 0 <= chains[h][i] < count
      ensures h == hash(users[chains[h][i]]) {
      HealthyAt(head, next, cls, chains, h);
    }
  }

  /** The first character of a C string, and its first characters up to a limit. */
  function First(s: string): char { if s == "" then '\0' else s[0] }

  function Prefix(s: string, n: nat): string { if |s| <= n then s else s[..n] }

  predicate SameId(a: string, b: string) { Prefix(a, IDLEN - 1) == Prefix(b, IDLEN - 1) }

  lemma WalkEnds(head: seq<int>, next: seq<int>, cls: seq<int>, h: int, p: Ptr, xs: seq<int>, k: nat)
    requires Walking(head, next, cls, h, p, xs, -1, k) && k == |xs|
    ensures p == EndPtr(xs)
  {
  }

  /** Linking a node that another chain still holds cuts that chain short behind it. */
  lemma CutsOther(head: seq<int>, next: seq<int>, cls: seq<int>, h: int, g: int, ys: seq<int>, xs: seq<int>, k: nat)
    requires ChainOkay(head, next, cls, h, ys) && ChainOkay(head, next, cls, g, xs) && g != h && k < |xs|
    ensures PtrOkay(head, next, h, EndPtr(ys))
    ensures Path(LinkedNext(next, ys, xs[k]), LinkedHead(head, h, ys, xs[k])[g], xs[..k + 1], -1)
  {
    var p, n := EndPtr(ys), xs[k];
    var b := PutNext(next, p, n);
    if ys != [] {
      PathFrame(next, head[g], xs, -1, ys[|ys| - 1], n);
    }
    assert Path(b, head[g], xs, -1);
    forall i | 0 <= i < k ensures xs[i] != xs[k] {
      PathDistinct(b, head[g], xs, -1, i, k);
    }
    PathSplice(b, head[g], xs, -1, k, -1, [], -1);
    assert xs[..k + 1] + [] == xs[..k + 1];
  }

  /** In healthy arrays every node met from head h belongs there. */
  lemma OnChain(head: seq<int>, next: seq<int>, cls: seq<int>, chains: seq<seq<int>>, h: int, xs: seq<int>, k: nat)
    requires Healthy(head, next, cls, chains) && 0 <= h < |head| && Path(next, head[h], xs, -1) && k < |xs|
    ensures InRange(xs[k], |cls|) && cls[xs[k]] == h
  {
    HealthyAt(head, next, cls, chains, h);
    PathUnique(next, head[h], xs, -1, chains[h], -1);
  }

  /** What adding a record does, case by case; v is what its shared userid hashes to when it is linked. */
  lemma AddOutcome(head: seq<int>, next: seq<int>, cls: seq<int>, chains: seq<seq<int>>, h: int, n: int, v: int)
    requires Healthy(head, next, cls, chains) && 0 <= h < |head| && InRange(n, |cls|) && (v == cls[n] || v == h)
    ensures PtrOkay(head, next, h, EndPtr(chains[h]))
    ensures var a, b := LinkedHead(head, h, chains[h], n), LinkedNext(next, chains[h], n);
      if v == h && (cls[n] == h || Unlinked(chains, n))
      then Healthy(a, b, cls[n := h], Added(chains, h, n))
      else Ruined(a, b, cls[n := v])
  {
    hide Healthy, Local, ChainOkay, LinkedHead, LinkedNext, Unlinked, Path;
    HealthyAt(head, next, cls, chains, h);
    EndOkay(head, next, cls, h, chains[h]);
    var a, b := LinkedHead(head, h, chains[h], n), LinkedNext(next, chains[h], n);
    if v != h {
      assert cls[n := v] == cls;
      forall c ensures !Healthy(a, b, cls, c) { Misplaced(head, next, cls, chains, h, n, c); }
    } else if cls[n] == h || Unlinked(chains, n) {
      Reclass(head, next, cls, chains, n, h);
      HealthyAt(head, next, cls[n := h], chains, h);
      AddChain(head, next, cls[n := h], h, chains[h], n);
      AddedHealthy(head, next, a, b, cls[n := h], chains, h, n);
    } else {
      var later := cls[n := h];
      forall c ensures !Healthy(a, b, later, c) { Disagreeing(head, next, cls, chains, h, n, c); }
    }
  }

  /** No chain holds n. */
  predicate Unlinked(chains: seq<seq<int>>, n: int) {
    forall g :: 0 <= g < |chains| ==> n !in chains[g]
  }

  /** A record whose userid moved to another chain cannot be linked there without damage: the old chain still leads
      to it. */
  lemma Disagreeing(head: seq<int>, next: seq<int>, cls: seq<int>, chains: seq<seq<int>>, h: int, n: int,
                    c: seq<seq<int>>)
    requires Healthy(head, next, cls, chains) && 0 <= h < |head| && !Unlinked(chains, n) && InRange(n, |cls|)
    requires cls[n] != h
    ensures PtrOkay(head, next, h, EndPtr(chains[h]))
    ensures !Healthy(LinkedHead(head, h, chains[h], n), LinkedNext(next, chains[h], n), cls[n := h], c)
  {
    hide Path;
    var g :| 0 <= g < |chains| && n in chains[g];
    var k :| 0 <= k < |chains[g]| && chains[g][k] == n;
    var xs := chains[g][..k + 1];
    HealthyAt(head, next, cls, chains, g);
    HealthyAt(head, next, cls, chains, h);
    CutsOther(head, next, cls, h, g, chains[h], chains[g], k);
    var a, b := LinkedHead(head, h, chains[h], n), LinkedNext(next, chains[h], n);
    if Healthy(a, b, cls[n := h], c) {
      OnChain(a, b, cls[n := h], c, g, xs, k);
      assert false;
    }
  }

  /** Nor can one whose shared userid, left as it was, hashes elsewhere. */
  lemma Misplaced(head: seq<int>, next: seq<int>, cls: seq<int>, chains: seq<seq<int>>, h: int, n: int,
                  c: seq<seq<int>>)
    requires Healthy(head, next, cls, chains) && 0 <= h < |head| && InRange(n, |cls|) && cls[n] != h
    ensures PtrOkay(head, next, h, EndPtr(chains[h]))
    ensures !Healthy(LinkedHead(head, h, chains[h], n), LinkedNext(next, chains[h], n), cls, c)
  {
    hide Path, LinkedHead, LinkedNext;
    var ys := chains[h] + [n];
    HealthyAt(head, next, cls, chains, h);
    AddChain(head, next, cls, h, chains[h], n);
    var a, b := LinkedHead(head, h, chains[h], n), LinkedNext(next, chains[h], n);
    if Healthy(a, b, cls, c) {
      OnChain(a, b, cls, c, h, ys, |ys| - 1);
      assert false;
    }
  }

  lemma UnlinkedAt(chains: seq<seq<int>>, n: int, h: int)
    requires 0 <= h < |chains|
    ensures Unlinked(chains, n) ==> n !in chains[h]
  {
  }

  /** When a record may be added. */
  predicate Fits(hash: string -> int, onfly: bool, id: string, user: string, chains: seq<seq<int>>, n: int) {
    hash(id) == hash(user) || (Unlinked(chains, n) && (!onfly || !SameId(id, user)))
  }

  /** The i-th character of a C string, NUL at its end and beyond. */
  function CharAt(s: string, i: nat): char { if i < |s| then s[i] else '\0' }

  /** strncmp over 11 characters. */
  lemma SameIdCompares(a: string, b: string)
    requires '\0' !in a && '\0' !in b
    ensures SameId(a, b) <==> forall i :: 0 <= i < 11 ==> CharAt(a, i) == CharAt(b, i)
  {
    var p, q := Prefix(a, 11), Prefix(b, 11);
    forall i | 0 <= i < 11 ensures CharAt(a, i) == CharAt(p, i) && CharAt(b, i) == CharAt(q, i) {
    }
    if forall i :: 0 <= i < 11 ==> CharAt(a, i) == CharAt(b, i) {
      SameLength(p, q);
      assert forall i :: 0 <= i < |p| ==> p[i] == CharAt(p, i) == CharAt(q, i) == q[i];
      assert p == q;
    }
  }

  lemma SameLength(p: string, q: string)
    requires |p| <= 11 && |q| <= 11 && '\0' !in p && '\0' !in q
    requires forall i :: 0 <= i < 11 ==> CharAt(p, i) == CharAt(q, i)
    ensures |p| == |q|
  {
    if |p| < |q| {
      Shorter(p, q);
    } else if |q| < |p| {
      Shorter(q, p);
    }
  }

  lemma Shorter(p: string, q: string)
    requires |p| < |q| && '\0' !in q
    ensures CharAt(p, |p|) != CharAt(q, |p|)
  {
    assert q[|p|] in q;
  }

  /** A number that stands in no chain may be given another userid. */
  lemma Reclass(head: seq<int>, next: seq<int>, cls: seq<int>, chains: seq<seq<int>>, n: int, h: int)
    requires Healthy(head, next, cls, chains) && 0 <= n < |cls| && (cls[n] == h || Unlinked(chains, n))
    ensures Healthy(head, next, cls[n := h], chains)
  {
    if cls[n] == h {
      assert cls[n := h] == cls;
    } else {
      forall g | 0 <= g < |chains| ensures ChainOkay(head, next, cls[n := h], g, chains[g]) {
        assert ChainOkay(head, next, cls, g, chains[g]) && n !in chains[g];
      }
    }
  }

  /** No head and no link names n. */
  ghost predicate Free(head: seq<int>, next: seq<int>, n: int) {
    (forall h :: 0 <= h < |head| ==> head[h] != n) && (forall i :: 0 <= i < |next| ==> next[i] != n)
  }

  /** What nothing named before, nothing names after. */
  ghost predicate NamesFewer(head: seq<int>, next: seq<int>, a: seq<int>, b: seq<int>) {
    forall n :: 0 <= n && Free(head, next, n) ==> Free(a, b, n)
  }

  lemma EditFree(head: seq<int>, next: seq<int>, a: seq<int>, b: seq<int>, h: int, p: Ptr, v: int)
    requires NamesFewer(head, next, a, b) && PtrOkay(a, b, h, p)
    requires var x := Deref(a, b, h, p);
      if InRange(x, |b|) then v == b[x] else v == -1
    ensures NamesFewer(head, next, PutHead(a, h, p, v), PutNext(b, p, v))
  {
  }

  lemma FreeUnlinked(head: seq<int>, next: seq<int>, cls: seq<int>, chains: seq<seq<int>>, n: int)
    requires Healthy(head, next, cls, chains) && Free(head, next, n)
    ensures Unlinked(chains, n)
  {
    forall g | 0 <= g < |chains| ensures n !in chains[g] {
      HealthyAt(head, next, cls, chains, g);
      if n in chains[g] {
        var k :| 0 <= k < |chains[g]| && chains[g][k] == n;
        PathAt(next, head[g], chains[g], -1, k);
        assert false;
      }
    }
  }

  // ------------------------------------------------------------------ once a record does not fit

  /** Every chain ends with -1, whatever it holds. */
  ghost predicate EndWell(head: seq<int>, next: seq<int>) {
    forall g :: 0 <= g < |head| ==> EndsWell(next, head[g])
  }

  ghost predicate EndsWell(next: seq<int>, start: int) {
    exists xs :: Path(next, start, xs, -1)
  }

  /** The k-th node of chain g, a number below n, belongs elsewhere. */
  ghost predicate Stray(head: seq<int>, next: seq<int>, cls: seq<int>, n: int, g: int, xs: seq<int>, k: int) {
    && 0 <= g < |head| && Path(next, head[g], xs, -1) && 0 <= k < |xs|
    && 0 <= xs[k] < |cls| && xs[k] < n && cls[xs[k]] != g
  }

  /** A record below n stands in a chain where it does not belong. */
  ghost predicate Spoiled(head: seq<int>, next: seq<int>, cls: seq<int>, n: int) {
    exists g, xs, k :: Stray(head, next, cls, n, g, xs, k)
  }

  lemma SpoiledRuins(head: seq<int>, next: seq<int>, cls: seq<int>, n: int)
    requires Spoiled(head, next, cls, n)
    ensures Ruined(head, next, cls)
  {
    var g, xs, k :| Stray(head, next, cls, n, g, xs, k);
    forall chains ensures !Healthy(head, next, cls, chains) {
      if Healthy(head, next, cls, chains) {
        OnChain(head, next, cls, chains, g, xs, k);
        assert false;
      }
    }
  }

  lemma HealthyPath(head: seq<int>, next: seq<int>, cls: seq<int>, chains: seq<seq<int>>, h: int)
    requires Healthy(head, next, cls, chains) && 0 <= h < |head|
    ensures |chains| == |head| && Path(next, head[h], chains[h], -1)
  {
    HealthyAt(head, next, cls, chains, h);
  }

  lemma HealthyEnds(head: seq<int>, next: seq<int>, cls: seq<int>, chains: seq<seq<int>>)
    requires Healthy(head, next, cls, chains)
    ensures EndWell(head, next)
  {
    forall g | 0 <= g < |head| ensures EndsWell(next, head[g]) {
      HealthyAt(head, next, cls, chains, g);
    }
  }

  /** Only the last link of a chain is -1. */
  lemma LastOnly(next: seq<int>, start: int, xs: seq<int>, k: nat)
    requires Path(next, start, xs, -1) && k < |xs| && InRange(xs[k], |next|) && next[xs[k]] == -1
    ensures k == |xs| - 1
  {
    PathAt(next, start, xs, -1, k + 1);
  }

  /** The last link of a chain that ends well. */
  lemma EndOfPath(head: seq<int>, next: seq<int>, h: int, ys: seq<int>)
    requires 0 <= h < |head| && Path(next, head[h], ys, -1)
    ensures PtrOkay(head, next, h, EndPtr(ys))
    ensures ys != [] ==> next[ys[|ys| - 1]] == -1
  {
    PathAt(next, head[h], ys, -1, |ys|);
  }

  /** Making n the last node of whatever chain holds it. */
  lemma CutAt(next: seq<int>, start: int, xs: seq<int>, n: int)
    returns (zs: seq<int>)
    requires Path(next, start, xs, -1) && InRange(n, |next|)
    ensures Path(next[n := -1], start, zs, -1) && zs <= xs
    ensures zs == xs || (zs != [] && zs[|zs| - 1] == n)
    ensures n in zs ==> zs[|zs| - 1] == n
  {
    if n in xs {
      var k :| 0 <= k < |xs| && xs[k] == n;
      forall i | 0 <= i < |xs| && i != k ensures xs[i] != n {
        PathDistinct(next, start, xs, -1, if i < k then i else k, if i < k then k else i);
      }
      PathSplice(next, start, xs, -1, k, -1, [], -1);
      zs := xs[..k + 1];
      assert xs[..k + 1] + [] == zs;
    } else {
      PathFrame(next, start, xs, -1, n, -1);
      zs := xs;
    }
  }

  /** Where the chains go once n is linked behind the chain ys: chain g is cut behind n or kept, and perhaps goes on
      to n. */
  lemma LinkPath(head: seq<int>, next: seq<int>, h: int, ys: seq<int>, n: int, g: int, xs: seq<int>)
    returns (zs: seq<int>)
    requires 0 <= h < |head| && 0 <= g < |head| && Path(next, head[h], ys, -1) && Path(next, head[g], xs, -1)
    requires InRange(n, |next|) && n !in ys
    ensures PtrOkay(head, next, h, EndPtr(ys))
    ensures Path(LinkedNext(next, ys, n), LinkedHead(head, h, ys, n)[g], zs, -1)
    ensures xs <= zs || (zs <= xs && zs != [] && zs[|zs| - 1] == n)
    ensures g == h ==> zs == xs + [n]
  {
    EndOfPath(head, next, h, ys);
    Append(next, head[h], ys, n);
    if g == h {
      PathUnique(next, head[h], ys, -1, xs, -1);
      zs := ys + [n];
    } else {
      var ws := CutAt(next, head[g], xs, n);
      zs := ws;
      if ys != [] {
        zs := LinkBehind(next, head[g], ws, ys[|ys| - 1], n);
      }
    }
  }

  lemma LinkBehind(next: seq<int>, start: int, ws: seq<int>, last: int, n: int)
    returns (zs: seq<int>)
    requires InRange(n, |next|) && InRange(last, |next|) && last != n && Path(next[n := -1], start, ws, -1)
    requires next[last] == -1 && (n in ws ==> ws[|ws| - 1] == n)
    ensures Path(next[last := n][n := -1], start, zs, -1)
    ensures zs == ws || (zs == ws + [n] && n !in ws)
  {
    var b := next[n := -1];
    assert next[last := n][n := -1] == b[last := n] && |b| == |next|;
    if last in ws {
      var k :| 0 <= k < |ws| && ws[k] == last;
      LastOnly(b, start, ws, k);
      forall i | 0 <= i < k ensures ws[i] != ws[k] {
        PathDistinct(b, start, ws, -1, i, k);
      }
      assert Path(b, -1, [n][1..], -1) && Path(b, n, [n], -1);
      PathSplice(b, start, ws, -1, k, n, [n], -1);
      zs := ws + [n];
      assert ws[..k + 1] == ws;
    } else {
      PathFrame(b, start, ws, -1, last, n);
      zs := ws;
    }
  }

  /** Linking leaves every chain with its end. */
  lemma LinkEnds(head: seq<int>, next: seq<int>, h: int, ys: seq<int>, n: int)
    requires 0 <= h < |head| && Path(next, head[h], ys, -1) && InRange(n, |next|) && EndWell(head, next)
    ensures PtrOkay(head, next, h, EndPtr(ys))
    ensures EndWell(LinkedHead(head, h, ys, n), LinkedNext(next, ys, n))
  {
    EndOfPath(head, next, h, ys);
    var a, b := LinkedHead(head, h, ys, n), LinkedNext(next, ys, n);
    if n !in ys {
      hide LinkedHead, LinkedNext;
      forall g | 0 <= g < |a| ensures EndsWell(b, a[g]) {
        assert EndsWell(next, head[g]);
        var xs :| Path(next, head[g], xs, -1);
        var zs := LinkPath(head, next, h, ys, n, g, xs);
      }
    }
  }

  /** What is spoiled stays so, whatever later records are linked; v is what the userid of n hashes to by then. */
  lemma SpoiledStays(head: seq<int>, next: seq<int>, cls: seq<int>, h: int, ys: seq<int>, n: int, v: int)
    requires 0 <= h < |head| && Path(next, head[h], ys, -1) && InRange(n, |next|) && |cls| == |next|
    requires Spoiled(head, next, cls, n)
    ensures PtrOkay(head, next, h, EndPtr(ys))
    ensures Spoiled(LinkedHead(head, h, ys, n), LinkedNext(next, ys, n), cls[n := v], n + 1)
  {
    EndOfPath(head, next, h, ys);
    var a, b, later := LinkedHead(head, h, ys, n), LinkedNext(next, ys, n), cls[n := v];
    var g, xs, k :| Stray(head, next, cls, n, g, xs, k);
    if n in ys {
      assert Stray(a, b, later, n + 1, g, xs, k);
    } else {
      hide LinkedHead, LinkedNext;
      var zs := LinkPath(head, next, h, ys, n, g, xs);
      if k < |zs| {
        assert zs[k] == xs[k];
        assert Stray(a, b, later, n + 1, g, zs, k);
      } else {
        var ws := LinkPath(head, next, h, ys, n, h, ys);
        if v != h {
          assert Stray(a, b, later, n + 1, h, ws, |ys|);
        } else {
          assert Stray(a, b, later, n + 1, g, zs, |zs| - 1);
        }
      }
    }
  }

  /** The first record that does not fit spoils the chains. */
  lemma FirstSpoils(head: seq<int>, next: seq<int>, cls: seq<int>, chains: seq<seq<int>>, h: int, n: int, v: int)
    requires Healthy(head, next, cls, chains) && 0 <= h < |head| && InRange(n, |cls|) && (v == cls[n] || v == h)
    requires !(v == h && (cls[n] == h || Unlinked(chains, n)))
    ensures PtrOkay(head, next, h, EndPtr(chains[h]))
    ensures Spoiled(LinkedHead(head, h, chains[h], n), LinkedNext(next, chains[h], n), cls[n := v], n + 1)
  {
    HealthyAt(head, next, cls, chains, h);
    var ys := chains[h];
    EndOfPath(head, next, h, ys);
    assert n !in ys;
    var a, b, later := LinkedHead(head, h, ys, n), LinkedNext(next, ys, n), cls[n := v];
    hide LinkedHead, LinkedNext, Healthy, Path;
    if v != h {
      var ws := LinkPath(head, next, h, ys, n, h, ys);
      assert Stray(a, b, later, n + 1, h, ws, |ys|);
    } else {
      var g :| 0 <= g < |chains| && n in chains[g];
      var k :| 0 <= k < |chains[g]| && chains[g][k] == n;
      HealthyAt(head, next, cls, chains, g);
      CutsOther(head, next, cls, h, g, ys, chains[g], k);
      assert Stray(a, b, later, n + 1, g, chains[g][..k + 1], k);
    }
  }

  /** After n records: the chains are in order if all of them fitted, and spoiled if one did not. */
  ghost predicate Progress(hash: string -> int, onfly: bool, ids: seq<string>, users: seq<string>,
                           chains: seq<seq<int>>, head: seq<int>, next: seq<int>, cls: seq<int>, n: nat)
    requires n <= |users| && n <= |ids| && |cls| == |ids|
  {
    if AllFit(hash, onfly, ids, users, n, chains, 0) then
      && Healthy(head, next, cls, AddedAll(hash, chains, users, n))
      && forall i :: 0 <= i < n ==> cls[i] == hash(users[i])
    else Spoiled(head, next, cls, n)
  }

  /** What the shared userid hashes to once a record is linked. */
  function HashAfter(hash: string -> int, onfly: bool, id: string, user: string): int {
    hash(if onfly && SameId(id, user) then id else user)
  }

  lemma RecordOutcome(hash: string -> int, onfly: bool, ids: seq<string>, users: seq<string>, chains: seq<seq<int>>,
                      head: seq<int>, next: seq<int>, cls: seq<int>, n: nat, ys: seq<int>)
    requires n < |users| && n < |ids| && |cls| == |ids| == |next| && cls[n] == hash(ids[n])
    requires Progress(hash, onfly, ids, users, chains, head, next, cls, n)
    requires 0 <= hash(users[n]) < |head| && Path(next, head[hash(users[n])], ys, -1)
    ensures PtrOkay(head, next, hash(users[n]), EndPtr(ys))
    ensures var h, v := hash(users[n]), HashAfter(hash, onfly, ids[n], users[n]);
      Progress(hash, onfly, ids, users, chains, LinkedHead(head, h, ys, n), LinkedNext(next, ys, n), cls[n := v], n + 1)
  {
    hide Healthy, Spoiled, Path, LinkedHead, LinkedNext, Unlinked, SameId;
    var h, v := hash(users[n]), HashAfter(hash, onfly, ids[n], users[n]);
    EndOfPath(head, next, h, ys);
    if AllFit(hash, onfly, ids, users, n, chains, 0) {
      var now := AddedAll(hash, chains, users, n);
      HealthyPath(head, next, cls, now, h);
      PathUnique(next, head[h], ys, -1, now[h], -1);
      FitsSame(hash, onfly, ids[n], users[n], users, chains, n);
      if Fits(hash, onfly, ids[n], users[n], chains, n) {
        AddOutcome(head, next, cls, now, h, n, v);
      } else {
        FirstSpoils(head, next, cls, now, h, n, v);
        assert !AllFit(hash, onfly, ids, users, n + 1, chains, 0);
      }
    } else {
      SpoiledStays(head, next, cls, h, ys, n, v);
      assert !AllFit(hash, onfly, ids, users, n + 1, chains, 0);
    }
  }

  lemma ProgressStart(hash: string -> int, onfly: bool, ids: seq<string>, users: seq<string>, chains: seq<seq<int>>,
                      head: seq<int>, next: seq<int>, cls: seq<int>)
    requires |cls| == |ids| && Healthy(head, next, cls, chains)
    ensures Progress(hash, onfly, ids, users, chains, head, next, cls, 0) && EndWell(head, next)
  {
    AddedNone(hash, users, chains);
    HealthyEnds(head, next, cls, chains);
    hide Healthy, EndWell;
  }

  lemma ProgressEnd(hash: string -> int, onfly: bool, ids: seq<string>, users: seq<string>, chains: seq<seq<int>>,
                    head: seq<int>, next: seq<int>, later: seq<string>, n: nat)
    requires n <= |users| && n <= |ids| == |later|
    requires Progress(hash, onfly, ids, users, chains, head, next, Classes(hash, later), n)
    ensures if AllFit(hash, onfly, ids, users, n, chains, 0) then
        && Healthy(head, next, Classes(hash, later), AddedAll(hash, chains, users, n))
        && Agreeing(hash, later, users, n)
      else Ruined(head, next, Classes(hash, later))
  {
    hide Healthy, Spoiled, AllFit, Ruined;
    if AllFit(hash, onfly, ids, users, n, chains, 0) {
      ClassesAgree(hash, later, users, n);
    } else {
      SpoiledRuins(head, next, Classes(hash, later), n);
    }
  }

  /** Building fresh, every record fits and is in no chain when its turn comes. */
  lemma FreshFits(hash: string -> int, ids: seq<string>, users: seq<string>, chains: seq<seq<int>>,
                  head: seq<int>, next: seq<int>, cls: seq<int>, n: nat, ys: seq<int>)
    requires n < |users| && n < |ids| && |cls| == |ids| && (forall h :: 0 <= h < |chains| ==> chains[h] == [])
    requires Progress(hash, false, ids, users, chains, head, next, cls, n)
    requires 0 <= hash(users[n]) < |head| && Path(next, head[hash(users[n])], ys, -1)
    ensures n !in ys
  {
    hide Healthy, Spoiled, Path;
    EmptyFits(hash, ids, users, n, chains);
    var now := AddedAll(hash, chains, users, n);
    HealthyPath(head, next, cls, now, hash(users[n]));
    PathUnique(next, head[hash(users[n])], ys, -1, now[hash(users[n])], -1);
    AddedUnlinked(hash, users, n, chains, n);
  }

  // ------------------------------------------------------------------ what the check leaves

  /** Only links of the first k nodes of ys differ. */
  ghost predicate Touches(next: seq<int>, b: seq<int>, ys: seq<int>, k: nat) {
    |b| == |next| && k <= |ys| && forall i :: 0 <= i < |b| && b[i] != next[i] ==> i in ys[..k]
  }

  lemma TouchEdit(next: seq<int>, b: seq<int>, head: seq<int>, cls: seq<int>, h: int, p: Ptr, ys: seq<int>, end: int,
                  k: nat, v: int)
    requires Touches(next, b, ys, k) && Walking(head, b, cls, h, p, ys, end, k) && PtrOkay(head, b, h, p)
    ensures Touches(next, PutNext(b, p, v), ys, k)
  {
    hide Path;
    if k > 0 { assert ys[..k][k - 1] == ys[k - 1]; }
  }

  lemma NothingTouched(head: seq<int>, next: seq<int>, ys: seq<int>)
    ensures Touches(next, next, ys, 0) && NamesFewer(head, next, head, next)
  {
  }

  lemma TouchSame(next: seq<int>, b: seq<int>, ys: seq<int>, zs: seq<int>, k: nat, m: nat)
    requires Touches(next, b, ys, k) && k <= m <= |zs| && ys[..k] == zs[..k]
    ensures Touches(next, b, zs, m)
  {
    assert forall x :: x in zs[..k] ==> x in zs[..m] by {
      forall x | x in zs[..k] ensures x in zs[..m] {
        var i :| 0 <= i < k && zs[..k][i] == x;
        assert zs[..m][i] == x;
      }
    }
  }

  /** The nodes met from a value, in a table whose chains end. */
  ghost function Trail(next: seq<int>, start: int): (xs: seq<int>)
    requires Ends(next, start)
    ensures Nodes(xs, |next|) && exists end :: Path(next, start, xs, end)
  {
    var xs, end :| Path(next, start, xs, end);
    PathAt(next, start, xs, end, 0);
    xs
  }

  /** x stands in the chain of its own userid, among the chains given. */
  predicate Taken(cls: seq<int>, chains: seq<seq<int>>, x: int) {
    0 <= x < |cls| && 0 <= cls[x] < |chains| && x in chains[cls[x]]
  }

  /** The nodes before the first that is taken. */
  function Open(cls: seq<int>, chains: seq<seq<int>>, xs: seq<int>): (r: seq<int>)
    ensures forall x :: x in r ==> x in xs
    decreases |xs|
  {
    if xs == [] || Taken(cls, chains, xs[0]) then [] else [xs[0]] + Open(cls, chains, xs[1..])
  }

  lemma OpenNodes(cls: seq<int>, chains: seq<seq<int>>, xs: seq<int>)
    requires Nodes(xs, |cls|)
    ensures Nodes(Open(cls, chains, xs), |cls|)
  {
    var r := Open(cls, chains, xs);
    forall i | 0 <= i < |r| ensures 0 <= r[i] < |cls| { assert r[i] in xs; }
  }

  /** The chains 0 to n - 1 as checkhash() leaves them, from the table as it was: chain h keeps the nodes that hash
      to h, in the order of the old links, up to the first node that an earlier chain has kept. */
  ghost function Left(head: seq<int>, next: seq<int>, cls: seq<int>, n: nat): (chains: seq<seq<int>>)
    requires n <= |head| && AllEnd(head, next) && |cls| == |next|
    ensures |chains| == n
  {
    if n == 0 then []
    else
      var before := Left(head, next, cls, n - 1);
      var trail := Trail(next, head[n - 1]);
      OpenNodes(cls, before, trail);
      before + [Keep(cls, n - 1, Open(cls, before, trail))]
  }

  /** Links of nodes that no checked chain has kept are as they were. */
  ghost predicate Preserved(next: seq<int>, b: seq<int>, cls: seq<int>, chains: seq<seq<int>>) {
    |b| == |next| == |cls| && forall x :: 0 <= x < |b| && !Taken(cls, chains, x) ==> b[x] == next[x]
  }

  lemma {:induction false} KeepOthers(cls: seq<int>, h: int, xs: seq<int>)
    requires Nodes(xs, |cls|) && forall i :: 0 <= i < |xs| ==> cls[xs[i]] != h
    ensures Keep(cls, h, xs) == []
    decreases |xs|
  {
    hide Keep;
    if xs == [] {
      KeepNone(cls, h);
    } else {
      var m := |xs| - 1;
      KeepOthers(cls, h, xs[..m]);
      KeepSnoc(cls, h, xs[..m], xs[m]);
      assert xs[..m] + [xs[m]] == xs;
    }
  }

  lemma KeepCons(cls: seq<int>, h: int, x: int, xs: seq<int>)
    requires InRange(x, |cls|) && Nodes(xs, |cls|)
    ensures Nodes([x] + xs, |cls|)
    ensures Keep(cls, h, [x] + xs) == (if cls[x] == h then [x] else []) + Keep(cls, h, xs)
  {
    hide Keep;
    KeepNone(cls, h);
    KeepSnoc(cls, h, [], x);
    assert [] + [x] == [x];
    KeepSplit(cls, h, [x], xs);
  }

  lemma NextLeft(a: seq<int>, b: seq<int>, cls: seq<int>, chains: seq<seq<int>>, head: seq<int>, next: seq<int>, h: nat,
                 xs: seq<int>, last: int)
    requires h < |a| == |head| && AllEnd(a, b) && |cls| == |b| && chains == Left(a, b, cls, h) && head[h] == a[h]
    requires Preserved(b, next, cls, chains) && Chains(head, next, cls, chains) && Path(next, head[h], xs, last)
    ensures Nodes(xs, |cls|) && Left(a, b, cls, h + 1) == chains + [Keep(cls, h, xs)]
  {
    hide Keep, Chains, Path, Open, Preserved;
    assert Ends(b, a[h]);
    var trail := Trail(b, a[h]);
    var end :| Path(b, a[h], trail, end);
    SameKept(b, head, next, cls, chains, h, a[h], trail, end, xs, last);
  }

  lemma NextPreserved(b: seq<int>, next: seq<int>, later: seq<int>, cls: seq<int>, chains: seq<seq<int>>,
                      kept: seq<int>)
    requires Preserved(b, next, cls, chains) && Touches(next, later, kept, |kept|)
    requires Nodes(kept, |cls|) && forall i :: 0 <= i < |kept| ==> cls[kept[i]] == |chains|
    ensures Preserved(b, later, cls, chains + [kept])
  {
    forall x | 0 <= x < |later| && later[x] != b[x] ensures Taken(cls, chains + [kept], x) {
      if x in kept {
        KeptTaken(cls, chains, kept, x);
      } else {
        assert kept[..|kept|] == kept;
        assert (chains + [kept])[cls[x]] == chains[cls[x]];
      }
    }
  }

  lemma KeptTaken(cls: seq<int>, chains: seq<seq<int>>, kept: seq<int>, x: int)
    requires Nodes(kept, |cls|) && (forall i :: 0 <= i < |kept| ==> cls[kept[i]] == |chains|) && x in kept
    ensures Taken(cls, chains + [kept], x)
  {
    var i :| 0 <= i < |kept| && kept[i] == x;
    assert (chains + [kept])[|chains|] == kept;
  }

  lemma FewerStill(a: seq<int>, b: seq<int>, head: seq<int>, next: seq<int>, later: seq<int>, links: seq<int>)
    requires NamesFewer(a, b, head, next) && NamesFewer(head, next, later, links)
    ensures NamesFewer(a, b, later, links)
  {
    hide Free;
  }

  lemma HeadsBeyond(head: seq<int>, next: seq<int>, a: seq<int>, b: seq<int>, cls: seq<int>, h: nat)
    requires Local(head, next, a, b, cls, h) && h < |head|
    ensures |a| == |head| && a[h + 1..] == head[h + 1..]
  {
  }

  lemma OkayClass(head: seq<int>, next: seq<int>, cls: seq<int>, h: int, xs: seq<int>)
    requires ChainOkay(head, next, cls, h, xs)
    ensures Nodes(xs, |cls|) && forall i :: 0 <= i < |xs| ==> cls[xs[i]] == h
  {
  }

  /** ... and a table in order stays so. */
  lemma AllStayHealthy(head: seq<int>, next: seq<int>, a: seq<int>, b: seq<int>, cls: seq<int>, h: int,
                       xs: seq<int>, last: int)
    requires 0 <= h < |head| && Local(head, next, a, b, cls, h) && Path(next, head[h], xs, last) && Nodes(xs, |cls|)
    requires ChainOkay(a, b, cls, h, Keep(cls, h, xs))
    ensures forall c :: Healthy(head, next, cls, c) ==> Healthy(a, b, cls, c)
  {
    hide Healthy, Local, Path, Keep, ChainOkay;
    forall c | Healthy(head, next, cls, c) ensures Healthy(a, b, cls, c) {
      StaysHealthy(head, next, a, b, cls, h, c, xs, last);
    }
  }

  lemma CheckStart(head: seq<int>, next: seq<int>, cls: seq<int>)
    requires AllEnd(head, next) && |cls| == |next|
    ensures Left(head, next, cls, 0) == [] && Preserved(next, next, cls, []) && Chains(head, next, cls, [])
    ensures NamesFewer(head, next, head, next)
  {
  }

  lemma ChainsHealthy(head: seq<int>, next: seq<int>, cls: seq<int>, chains: seq<seq<int>>)
    requires Chains(head, next, cls, chains) && |chains| == |head|
    ensures Healthy(head, next, cls, chains)
  {
  }

  lemma SomePath(head: seq<int>, next: seq<int>, h: int) returns (xs: seq<int>, last: int)
    requires AllEnd(head, next) && 0 <= h < |head|
    ensures Path(next, head[h], xs, last)
  {
    assert Ends(next, head[h]);
    xs, last :| Path(next, head[h], xs, last);
  }

  /** From a node that is taken, the links lead through its own chain only. */
  lemma TakenTail(head: seq<int>, b: seq<int>, cls: seq<int>, chains: seq<seq<int>>, h: int, s: int, ws: seq<int>,
                  we: int)
    requires Chains(head, b, cls, chains) && |cls| == |b| && h >= |chains|
    requires Taken(cls, chains, s) && Path(b, s, ws, we)
    ensures Nodes(ws, |cls|) && Keep(cls, h, ws) == []
  {
    hide Path, Keep;
    var g := cls[s];
    assert ChainOkay(head, b, cls, g, chains[g]);
    var k :| 0 <= k < |chains[g]| && chains[g][k] == s;
    PathAt(b, head[g], chains[g], -1, k);
    PathUnique(b, s, ws, we, chains[g][k..], -1);
    KeepOthers(cls, h, ws);
  }

  /** What chain h keeps of the links as they now are is what it keeps of the old ones before a node that is taken. */
  lemma {:induction false} SameKept(next: seq<int>, head: seq<int>, b: seq<int>, cls: seq<int>, chains: seq<seq<int>>,
                                    h: int, s: int, os: seq<int>, e: int, ws: seq<int>, we: int)
    requires Preserved(next, b, cls, chains) && Chains(head, b, cls, chains) && h >= |chains|
    requires Path(next, s, os, e) && Path(b, s, ws, we)
    ensures Nodes(ws, |cls|) && Nodes(Open(cls, chains, os), |cls|)
    ensures Keep(cls, h, ws) == Keep(cls, h, Open(cls, chains, os))
    decreases |os|
  {
    hide Keep, Chains;
    if os == [] {
      KeepNone(cls, h);
    } else if Taken(cls, chains, s) {
      TakenTail(head, b, cls, chains, h, s, ws, we);
      KeepNone(cls, h);
    } else {
      assert ws[0] == s && Path(b, next[s], ws[1..], we);
      SameKept(next, head, b, cls, chains, h, next[s], os[1..], e, ws[1..], we);
      KeepCons(cls, h, s, ws[1..]);
      KeepCons(cls, h, s, Open(cls, chains, os[1..]));
      assert ws == [s] + ws[1..];
    }
  }

  class Table {
    const hash: string -> int          // fnv1a_32_strcase modulo 1 << HASH_BITS
    const hashHead: array<int>
    const nextInHash: array<int>       // MAX_USERS links
    const userid: array<string>
    var number: int

    /** The shared segment, once attached. */
    constructor (hash: string -> int, hashHead: array<int>, nextInHash: array<int>, userid: array<string>)
      requires hashHead != nextInHash && userid.Length == nextInHash.Length
      requires forall s: string :: 0 <= hash(s) < hashHead.Length
      ensures Valid() && this.hash == hash
      ensures this.hashHead == hashHead && this.nextInHash == nextInHash && this.userid == userid
    {
      this.hash, this.hashHead, this.nextInHash, this.userid, this.number := hash, hashHead, nextInHash, userid, 0;
    }

    ghost predicate Valid()
      reads this
    {
      && hashHead != nextInHash && userid.Length == nextInHash.Length
      && (forall s: string :: 0 <= hash(s) < hashHead.Length)
    }

    ghost function Cls(): (cls: seq<int>)
      reads this, userid
    {
      Classes(hash, userid[..])
    }

    function Cell(h: int, p: Ptr): int
      requires PtrOkay(hashHead[..], nextInHash[..], h, p)
      reads hashHead, nextInHash
    {
      if p.HeadSlot? then hashHead[h] else nextInHash[p.node]
    }

    method Put(h: int, p: Ptr, v: int)
      requires Valid() && PtrOkay(hashHead[..], nextInHash[..], h, p)
      modifies hashHead, nextInHash
      ensures hashHead[..] == PutHead(old(hashHead[..]), h, p, v)
      ensures nextInHash[..] == PutNext(old(nextInHash[..]), p, v)
    {
      match p {
        case HeadSlot => hashHead[h] := v;
        case LinkOf(i) => nextInHash[i] := v;
      }
    }

    /** checkhash(): afterwards chain h ends properly and holds just those of its old nodes that belong there, in
        order. */
    method CheckHash(h: int, ghost xs: seq<int>, ghost last: int)
      requires Valid() && 0 <= h < hashHead.Length && AllEnd(hashHead[..], nextInHash[..])
      requires Path(nextInHash[..], hashHead[h], xs, last)
      modifies hashHead, nextInHash
      ensures Nodes(xs, |Cls()|) && Path(nextInHash[..], hashHead[h], Keep(Cls(), h, xs), -1)
      ensures AllEnd(hashHead[..], nextInHash[..])
      ensures Local(old(hashHead[..]), old(nextInHash[..]), hashHead[..], nextInHash[..], Cls(), h)
      ensures NamesFewer(old(hashHead[..]), old(nextInHash[..]), hashHead[..], nextInHash[..])
      ensures Touches(old(nextInHash[..]), nextInHash[..], Keep(Cls(), h, xs), |Keep(Cls(), h, xs)|)
    {
      hide Keep, AllEnd, Local, Path, Classes, Walking, Free, NamesFewer, Touches;
      ghost var cls, ys, end, k := Cls(), xs, last, 0;
      ghost var a, b := hashHead[..], nextInHash[..];
      WalkStart(a, b, cls, h, xs, last);
      LocalRefl(a, b, cls, h);
      NothingTouched(a, b, xs);
      var p := HeadSlot;
      while Cell(h, p) != -1
        invariant Walking(hashHead[..], nextInHash[..], cls, h, p, ys, end, k)
        invariant PtrOkay(hashHead[..], nextInHash[..], h, p) && k <= |ys|
        invariant Nodes(xs, |cls|) && Nodes(ys, |cls|) && Keep(cls, h, ys) == Keep(cls, h, xs)
        invariant AllEnd(hashHead[..], nextInHash[..])
        invariant Local(a, b, hashHead[..], nextInHash[..], cls, h) && NamesFewer(a, b, hashHead[..], nextInHash[..])
        invariant Touches(b, nextInHash[..], ys, k)
        decreases |ys| - k
      {
        var x := Cell(h, p);
        WalkCell(hashHead[..], nextInHash[..], cls, h, p, ys, end, k);
        if x < -1 || x >= nextInHash.Length {
          WalkMend(hashHead[..], nextInHash[..], cls, h, p, ys, end);
          EditEnds(hashHead[..], nextInHash[..], h, p, -1);
          LocalEdit(a, b, hashHead[..], nextInHash[..], cls, h, p, -1);
          EditFree(a, b, hashHead[..], nextInHash[..], h, p, -1);
          TouchEdit(b, nextInHash[..], hashHead[..], cls, h, p, ys, end, k, -1);
          Put(h, p, -1);
          k, end := |ys|, -1;
          break;
        }
        var ch := hash(userid[x]);
        if ch != h {
          WalkRemove(hashHead[..], nextInHash[..], cls, h, p, ys, end, k);
          EditEnds(hashHead[..], nextInHash[..], h, p, nextInHash[x]);
          LocalEdit(a, b, hashHead[..], nextInHash[..], cls, h, p, nextInHash[x]);
          EditFree(a, b, hashHead[..], nextInHash[..], h, p, nextInHash[x]);
          TouchEdit(b, nextInHash[..], hashHead[..], cls, h, p, ys, end, k, nextInHash[x]);
          Put(h, p, nextInHash[x]);
          TouchSame(b, nextInHash[..], ys, ys[..k] + ys[k + 1..], k, k);
          ys := ys[..k] + ys[k + 1..];
        } else {
          WalkOn(hashHead[..], nextInHash[..], cls, h, p, ys, end, k);
          TouchSame(b, nextInHash[..], ys, ys, k, k + 1);
          p, k := LinkOf(x), k + 1;
        }
      }
      WalkCell(hashHead[..], nextInHash[..], cls, h, p, ys, end, k);
      WalkDone(hashHead[..], nextInHash[..], cls, h, p, ys, end, k);
      TouchSame(b, nextInHash[..], ys, ys, k, |ys|);
    }

    /** Where userec_add_to_uhash() brings the shared userid up to date. */
    method CopyId(n: int, user: string, onfly: bool)
      requires Valid() && 0 <= n < userid.Length
      modifies userid
      ensures userid[..] == old(userid[..])[n := if onfly && SameId(old(userid[n]), user) then old(userid[n]) else user]
    {
      if !onfly || First(userid[n]) != First(user) || Prefix(userid[n], IDLEN - 1) != Prefix(user, IDLEN - 1) {
        userid[n] := user;
      }
    }

    /** Where userec_add_to_uhash() looks for the end of the chain and links the number there. */
    method LinkId(n: int, h: int, onfly: bool, ghost xs: seq<int>)
      requires Valid() && 0 <= n < userid.Length && 0 <= h < hashHead.Length
      requires Path(nextInHash[..], hashHead[h], xs, -1) && (!onfly ==> n !in xs)
      modifies hashHead, nextInHash
      ensures PtrOkay(old(hashHead[..]), old(nextInHash[..]), h, EndPtr(xs))
      ensures hashHead[..] == LinkedHead(old(hashHead[..]), h, xs, n)
      ensures nextInHash[..] == LinkedNext(old(nextInHash[..]), xs, n)
    {
      hide ChainOkay, Local, Walking, Path;
      ghost var a, b, k := hashHead[..], nextInHash[..], 0;
      ghost var cls := seq(|b|, i => h);      // the walk does not look at the userids
      AnyChain(a, b, cls, h, xs);
      OkayStart(a, b, cls, h, xs);
      var p := HeadSlot;
      while Cell(h, p) != -1
        invariant hashHead[..] == a && nextInHash[..] == b
        invariant PtrOkay(a, b, h, p) && k <= |xs| && Walking(a, b, cls, h, p, xs, -1, k)
        invariant n !in xs[..k] || !onfly
        decreases |xs| - k
      {
        WalkCell(a, b, cls, h, p, xs, -1, k);
        if onfly && Cell(h, p) == n {
          EndOkay(a, b, cls, h, xs);
          return;
        }
        OkayOn(a, b, cls, h, p, xs, k);
        p, k := LinkOf(Cell(h, p)), k + 1;
      }
      WalkCell(a, b, cls, h, p, xs, -1, k);
      WalkEnds(a, b, cls, h, p, xs, k);
      assert k == |xs| && xs[..k] == xs;
      EndOkay(a, b, cls, h, xs);
      Put(h, p, n);
      nextInHash[n] := -1;
    }

    /** userec_add_to_uhash() on chains that all end, in order or not; v is what the shared userid hashes to by then. */
    method AddAnywhere(n: int, user: string, onfly: bool, ghost xs: seq<int>) returns (ghost v: int)
      requires Valid() && 0 <= n < userid.Length
      requires Path(nextInHash[..], hashHead[hash(user)], xs, -1) && (!onfly ==> n !in xs)
      modifies hashHead, nextInHash, userid
      ensures v == hash(if onfly && SameId(old(userid[n]), user) then old(userid[n]) else user)
      ensures Cls() == old(Cls())[n := v]
      ensures userid[n] == if onfly && SameId(old(userid[n]), user) then old(userid[n]) else user
      ensures forall i :: 0 <= i < userid.Length && i != n ==> userid[i] == old(userid[i])
      ensures PtrOkay(old(hashHead[..]), old(nextInHash[..]), hash(user), EndPtr(xs))
      ensures hashHead[..] == LinkedHead(old(hashHead[..]), hash(user), xs, n)
      ensures nextInHash[..] == LinkedNext(old(nextInHash[..]), xs, n)
    {
      hide Path, LinkedHead, LinkedNext, SameId;
      ghost var cls := Cls();
      CopyId(n, user, onfly);
      v := hash(userid[n]);
      assert Cls() == cls[n := v];
      LinkId(n, hash(user), onfly, xs);
    }

    /** userec_add_to_uhash(): the chains stay in order, with n in the chain of its record, exactly when the shared
        userid hashes as the record does, or no chain holds n and the userid is replaced. */
    method Add(n: int, user: string, onfly: bool, ghost chains: seq<seq<int>>)
      requires Valid() && 0 <= n < userid.Length && (!onfly ==> Unlinked(chains, n))
      requires Healthy(hashHead[..], nextInHash[..], Cls(), chains)
      modifies hashHead, nextInHash, userid
      ensures var h := hash(user);
        if Fits(hash, onfly, old(userid[n]), user, chains, n)
        then Cls() == old(Cls())[n := h] && Healthy(hashHead[..], nextInHash[..], Cls(), Added(chains, h, n))
        else Ruined(hashHead[..], nextInHash[..], Cls())
      ensures userid[n] == if onfly && SameId(old(userid[n]), user) then old(userid[n]) else user
      ensures forall i :: 0 <= i < userid.Length && i != n ==> userid[i] == old(userid[i])
    {
      hide Healthy, Path, LinkedHead, LinkedNext, Unlinked, SameId;
      ghost var a, b, cls, h := hashHead[..], nextInHash[..], Cls(), hash(user);
      HealthyPath(a, b, cls, chains, h);
      UnlinkedAt(chains, n, h);
      ghost var v := AddAnywhere(n, user, onfly, chains[h]);
      AddOutcome(a, b, cls, chains, h, n, v);
    }

    /** The first loop of fill_uhash(1): every chain is checked in turn, and chains in order are left as they are. */
    method CheckAll() returns (ghost chains: seq<seq<int>>)
      requires Valid() && AllEnd(hashHead[..], nextInHash[..])
      modifies hashHead, nextInHash
      ensures Healthy(hashHead[..], nextInHash[..], Cls(), chains)
      ensures forall c :: Healthy(old(hashHead[..]), old(nextInHash[..]), Cls(), c) ==> chains == c
      ensures NamesFewer(old(hashHead[..]), old(nextInHash[..]), hashHead[..], nextInHash[..])
      ensures chains == Left(old(hashHead[..]), old(nextInHash[..]), Cls(), hashHead.Length)
    {
      hide Healthy, Chains, AllEnd, NamesFewer, Preserved, Left;
      ghost var a, b, cls := hashHead[..], nextInHash[..], Cls();
      chains := [];
      CheckStart(a, b, cls);
      var h := 0;
      while h < hashHead.Length
        invariant 0 <= h <= hashHead.Length && |chains| == h
        invariant AllEnd(hashHead[..], nextInHash[..]) && Chains(hashHead[..], nextInHash[..], cls, chains)
        invariant forall c :: Healthy(a, b, cls, c) ==> Healthy(hashHead[..], nextInHash[..], cls, c)
        invariant NamesFewer(a, b, hashHead[..], nextInHash[..])
        invariant AllEnd(a, b) && chains == Left(a, b, cls, h) && Preserved(b, nextInHash[..], cls, chains)
        invariant hashHead[h..] == a[h..]
      {
        assert hashHead[h] == hashHead[h..][0] == a[h];
        chains := CheckNext(h, chains, a, b);
        h := h + 1;
      }
      ChainsHealthy(hashHead[..], nextInHash[..], cls, chains);
      forall c | Healthy(a, b, cls, c) ensures chains == c {
        HealthyUnique(hashHead[..], nextInHash[..], cls, chains, c);
      }
    }

    /** One chain more; a and b are the table as it was before the first. */
    method CheckNext(h: int, ghost chains: seq<seq<int>>, ghost a: seq<int>, ghost b: seq<int>)
        returns (ghost more: seq<seq<int>>)
      requires Valid() && 0 <= h < hashHead.Length && AllEnd(hashHead[..], nextInHash[..])
      requires Chains(hashHead[..], nextInHash[..], Cls(), chains) && |chains| == h
      requires |a| == hashHead.Length && hashHead[h] == a[h] && AllEnd(a, b) && |b| == nextInHash.Length
      requires chains == Left(a, b, Cls(), h) && Preserved(b, nextInHash[..], Cls(), chains)
      requires NamesFewer(a, b, hashHead[..], nextInHash[..])
      modifies hashHead, nextInHash
      ensures AllEnd(hashHead[..], nextInHash[..])
      ensures |more| == h + 1 && Chains(hashHead[..], nextInHash[..], Cls(), more)
      ensures forall c ::
        (Healthy(old(hashHead[..]), old(nextInHash[..]), Cls(), c) ==> Healthy(hashHead[..], nextInHash[..], Cls(), c))
      ensures NamesFewer(a, b, hashHead[..], nextInHash[..])
      ensures more == Left(a, b, Cls(), h + 1) && Preserved(b, nextInHash[..], Cls(), more)
      ensures hashHead[h + 1..] == old(hashHead[h + 1..])
    {
      hide Healthy, Chains, Local, Path, Keep, Classes, ChainOkay, AllEnd, Left, Preserved, NamesFewer, Touches;
      ghost var head, next, cls := hashHead[..], nextInHash[..], Cls();
      ghost var xs, last := SomePath(head, next, h);
      NextLeft(a, b, cls, chains, head, next, h, xs, last);
      CheckHash(h, xs, last);
      ghost var kept := Keep(cls, h, xs);
      KeptOkay(hashHead[..], nextInHash[..], cls, h, xs);
      OkayClass(hashHead[..], nextInHash[..], cls, h, kept);
      ChainsAfter(head, next, hashHead[..], nextInHash[..], cls, h, chains, kept);
      AllStayHealthy(head, next, hashHead[..], nextInHash[..], cls, h, xs, last);
      NextPreserved(b, next, nextInHash[..], cls, chains, kept);
      FewerStill(a, b, head, next, hashHead[..], nextInHash[..]);
      HeadsBeyond(head, next, hashHead[..], nextInHash[..], cls, h);
      more := chains + [kept];
    }

    /** The first loop of fill_uhash(0). */
    method ResetAll() returns (ghost chains: seq<seq<int>>)
      requires Valid()
      modifies hashHead
      ensures Healthy(hashHead[..], nextInHash[..], Cls(), chains) && forall h :: 0 <= h < |chains| ==> chains[h] == []
    {
      var h := 0;
      while h < hashHead.Length
        invariant 0 <= h <= hashHead.Length && forall g :: 0 <= g < h ==> hashHead[g] == -1
      {
        hashHead[h] := -1;
        h := h + 1;
      }
      chains := seq(hashHead.Length, i => []);
      AllEmpty(hashHead[..], nextInHash[..], Cls(), chains);
    }

    method AddRecord(n: nat, onfly: bool, users: seq<string>, ghost ids: seq<string>, ghost chains: seq<seq<int>>)
      requires Valid() && n < |users| && n < userid.Length == |ids| && userid[n] == ids[n]
      requires !onfly ==> forall h :: 0 <= h < |chains| ==> chains[h] == []
      requires EndWell(hashHead[..], nextInHash[..])
      requires Progress(hash, onfly, ids, users, chains, hashHead[..], nextInHash[..], Cls(), n)
      modifies hashHead, nextInHash, userid
      ensures EndWell(hashHead[..], nextInHash[..])
      ensures Progress(hash, onfly, ids, users, chains, hashHead[..], nextInHash[..], Cls(), n + 1)
      ensures userid[n] == if onfly && SameId(old(userid[n]), users[n]) then old(userid[n]) else users[n]
      ensures forall i :: 0 <= i < userid.Length && i != n ==> userid[i] == old(userid[i])
    {
      hide Path, LinkedHead, LinkedNext, SameId, Progress, AllFit;
      ghost var a, b, cls, h := hashHead[..], nextInHash[..], Cls(), hash(users[n]);
      assert EndsWell(b, a[h]);
      ghost var ys :| Path(b, a[h], ys, -1);
      hide EndWell, EndsWell;
      if !onfly { FreshFits(hash, ids, users, chains, a, b, cls, n, ys); }
      ghost var v := AddAnywhere(n, users[n], onfly, ys);
      RecordOutcome(hash, onfly, ids, users, chains, a, b, cls, n, ys);
      LinkEnds(a, b, h, ys, n);
    }

    /** The second loop of fill_uhash(): the records in turn. */
    method AddAll(onfly: bool, users: seq<string>, count: nat, ghost chains: seq<seq<int>>)
      requires Valid() && count <= |users| && count <= userid.Length
      requires Healthy(hashHead[..], nextInHash[..], Cls(), chains)
      requires !onfly ==> forall h :: 0 <= h < |chains| ==> chains[h] == []
      modifies hashHead, nextInHash, userid
      ensures if AllFit(hash, onfly, old(userid[..]), users, count, chains, 0) then
          && Healthy(hashHead[..], nextInHash[..], Cls(), AddedAll(hash, chains, users, count))
          && Agreeing(hash, userid[..], users, count)
        else Ruined(hashHead[..], nextInHash[..], Cls())
      ensures forall i :: count <= i < userid.Length ==> userid[i] == old(userid[i])
      ensures forall i :: 0 <= i < count ==>
        userid[i] == if onfly && SameId(old(userid[i]), users[i]) then old(userid[i]) else users[i]
    {
      hide Healthy, Progress, EndWell, AllFit, AddedAll, Agreeing, Ruined, Classes, SameId;
      ghost var ids := userid[..];
      ProgressStart(hash, onfly, ids, users, chains, hashHead[..], nextInHash[..], Cls());
      var n := 0;
      while n < count
        invariant 0 <= n <= count && EndWell(hashHead[..], nextInHash[..])
        invariant Progress(hash, onfly, ids, users, chains, hashHead[..], nextInHash[..], Cls(), n)
        invariant forall i :: n <= i < userid.Length ==> userid[i] == ids[i]
        invariant forall i :: 0 <= i < n ==>
          userid[i] == if onfly && SameId(ids[i], users[i]) then ids[i] else users[i]
      {
        AddRecord(n, onfly, users, ids, chains);
        n := n + 1;
      }
      ProgressEnd(hash, onfly, ids, users, chains, hashHead[..], nextInHash[..], userid[..], count);
    }

    /** fill_uhash(): users are the records of the password file. The chains end up in order, with each record once
        and in the chain of its hash, if and only if every record fits what the check left: its shared userid hashes
        as it does, or no chain holds its number and the userid is replaced. */
    method FillUHash(onfly: bool, users: seq<string>)
        returns (ghost checked: seq<seq<int>>, ghost chains: seq<seq<int>>)
      requires Valid()
      requires onfly ==> AllEnd(hashHead[..], nextInHash[..])
      modifies this, hashHead, nextInHash, userid
      ensures number <= |users| && number <= userid.Length && (number == |users| || number == userid.Length)
      ensures |checked| == |chains| && chains == AddedAll(hash, checked, users, number)
      ensures if AllFit(hash, onfly, old(userid[..]), users, number, checked, 0)
        then
          && Healthy(hashHead[..], nextInHash[..], Cls(), chains)
          && forall n :: 0 <= n < |users| && n < userid.Length ==> Once(chains, hash(users[n]), n)
        else Ruined(hashHead[..], nextInHash[..], Cls())
      ensures forall n :: 0 <= n < userid.Length ==>
        (userid[n] == if n < |users| && !(onfly && SameId(old(userid[n]), users[n])) then users[n] else old(userid[n]))
      ensures !onfly
          || old(Loadable(hash, hashHead[..], nextInHash[..], userid[..], users, Count(users, userid.Length)))
        ==> AllFit(hash, onfly, old(userid[..]), users, number, checked, 0)
      ensures !onfly ==> forall h :: 0 <= h < |chains| ==> chains[h] == Numbers(hash, users, number, h)
      ensures onfly ==> checked == Left(old(hashHead[..]), old(nextInHash[..]), old(Cls()), hashHead.Length)
      ensures onfly ==> forall c :: Healthy(old(hashHead[..]), old(nextInHash[..]), old(Cls()), c) ==> checked == c
      ensures !onfly ==> forall h :: 0 <= h < |checked| ==> checked[h] == []
    {
      hide Healthy, Classes, AllEnd, Agreeing, Partitioned, AddedAll, Numbers, AllFit, Loadable, NamesFewer, Ruined;
      hide Left, Once, SameId;
      var count := Count(users, userid.Length);
      ghost var a, b, ids := hashHead[..], nextInHash[..], userid[..];
      if onfly {
        checked := CheckAll();
        if Loadable(hash, a, b, ids, users, count) {
          LoadableFits(hash, a, b, hashHead[..], nextInHash[..], Cls(), ids, users, count, checked);
        }
      } else {
        checked := ResetAll();
        EmptyFits(hash, ids, users, count, checked);
      }
      AddAll(onfly, users, count, checked);
      chains := AddedAll(hash, checked, users, count);
      number := count;
      if AllFit(hash, onfly, ids, users, count, checked, 0) {
        FilledPartition(hash, users, count, hashHead[..], nextInHash[..], userid[..], checked);
        forall n | 0 <= n < |users| && n < userid.Length ensures Once(chains, hash(users[n]), n) {
          PartitionedOnce(hash, users, count, chains, n);
        }
      }
      if !onfly {
        forall h | 0 <= h < |chains| ensures chains[h] == Numbers(hash, users, count, h) {
          AddedFresh(hash, users, count, checked, h);
        }
      }
    }
  }
}
