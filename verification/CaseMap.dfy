/** Case mapping of message-IDs: `cipoint`, `casencmp` and `mapcase` of innbbsd/dbz.c. */
module CaseMap {

  const POSTMASTER := "postmaster"

  /** TOLOW: only the 26 ASCII capitals change. */
  function Low(c: char): char {
    if 'A' <= c <= 'Z' then (c as int + 32) as char else c
  }

  function Lower(s: string): (r: string)
    ensures |r| == |s|
    ensures forall i :: 0 <= i < |s| ==> r[i] == Low(s[i])
  {
    seq(|s|, i requires 0 <= i < |s| => Low(s[i]))
  }

  /** memchr: the first place of c in s, or |s|. */
  function Find(s: string, c: char): (p: nat)
    ensures p <= |s|
    ensures forall i :: 0 <= i < p ==> s[i] != c
    ensures p < |s| ==> s[p] == c
  {
    if s == [] || s[0] == c then 0
    else
      1 + Find(s[1..], c)
  }

  /** The local part (everything before the '@') is one character, normally '<', and "postmaster" up to case. */
  predicate IsPostmaster(local: string) {
    |local| == |POSTMASTER| + 1 && Lower(local[1..]) == POSTMASTER
  }

  /** cipoint: from where on the message-ID is case-insensitive; |s| stands for "nowhere". */
  function CiPoint(casemap: char, s: string): (p: nat)
    ensures p <= |s|
  {
    if casemap == 'C' then
      var p := Find(s, '@');
      if p < |s| && IsPostmaster(s[..p]) then 0 else p
    else if casemap == '=' then 0
    else |s|
  }

  function MapCase(casemap: char, s: string): (r: string)
    ensures |r| == |s|
  {
    s[..CiPoint(casemap, s)] + Lower(s[CiPoint(casemap, s)..])
  }

  // ------------------------------------------------------------------ the code

  /** casencmp(s1, s2, n) == 0, for an s2 without NUL. */
  method CaseEqual(s1: string, s2: string) returns (equal: bool)
    requires |s1| == |s2| && '\0' !in s2
    ensures equal <==> Lower(s1) == Lower(s2)
  {
    var i := 0;
    while i < |s1| && s1[i] != '\0' && Low(s1[i]) == Low(s2[i])
      invariant 0 <= i <= |s1|
      invariant forall j :: 0 <= j < i ==> Low(s1[j]) == Low(s2[j])
    {
      i := i + 1;
    }
    equal := i == |s1|;
    if !equal {
      assert s2[i] in s2;
      assert Lower(s1)[i] != Lower(s2)[i];
    }
  }

  /** cipoint: -1 is the source's NULL. */
  method FindCiPoint(casemap: char, s: string) returns (p: int)
    ensures p == -1 ==> CiPoint(casemap, s) == |s|
    ensures p != -1 ==> 0 <= p && p == CiPoint(casemap, s)
  {
    if casemap == '0' { return -1; }
    if casemap == 'C' {
      var at := 0;
      while at < |s| && s[at] != '@'
        invariant 0 <= at <= |s| && forall i :: 0 <= i < at ==> s[i] != '@'
      {
        at := at + 1;
      }
      FindUnique(s, '@', at);
      if at == |s| { return -1; }
      if at - 1 == |POSTMASTER| {
        var post := CaseEqual(s[1..at], POSTMASTER);
        assert s[..at][1..] == s[1..at];
        assert Lower(POSTMASTER) == POSTMASTER;
        if post { return 0; }
      }
      return at;
    }
    if casemap == '=' { return 0; }
    return -1;
  }

  /** mapcase: copy, lower-casing from the case break on. */
  method MapCaseCopy(casemap: char, src: string) returns (dst: string)
    ensures dst == MapCase(casemap, src)
  {
    var c := FindCiPoint(casemap, src);
    if c == -1 {
      assert src[..|src|] == src;
      return src;
    }
    var i := 0;
    dst := [];
    while i < c
      invariant 0 <= i <= c && dst == src[..i]
    {
      dst := dst + [src[i]];
      i := i + 1;
    }
    while i < |src|
      invariant c <= i <= |src|
      invariant dst == src[..c] + Lower(src[c..i])
    {
      dst := dst + [Low(src[i])];
      i := i + 1;
    }
    assert src[c..i] == src[c..];
  }

  // ------------------------------------------------------------------ lemmas

  lemma FindUnique(s: string, c: char, p: nat)
    requires p <= |s| && (forall i :: 0 <= i < p ==> s[i] != c) && (p < |s| ==> s[p] == c)
    ensures Find(s, c) == p
  {
  }

  lemma LowerSlice(s: string, i: nat)
    requires i <= |s|
    ensures Lower(s)[..i] == Lower(s[..i]) && Lower(s)[i..] == Lower(s[i..])
  {
  }

  lemma LowerTwice(s: string)
    ensures Lower(Lower(s)) == Lower(s)
  {
  }

  /** Lower-casing from some place up to the first '@' on leaves the '@' the first one, and both parts in place. */
  lemma LowerFrom(s: string, c: nat, p: nat)
    requires c <= p < |s|
    ensures var r := s[..c] + Lower(s[c..]); r[p..] == Lower(s[p..]) && r[..p] == s[..c] + Lower(s[c..p])
  {
  }

  lemma LowerFromFind(s: string, c: nat, p: nat)
    requires c <= p < |s|
    requires (forall i :: 0 <= i < p ==> s[i] != '@') && s[p] == '@'
    ensures Find(s[..c] + Lower(s[c..]), '@') == p
  {
    var r := s[..c] + Lower(s[c..]);
    assert forall i :: 0 <= i < p ==> r[i] != '@';
    FindUnique(r, '@', p);
  }

  /** What a mapped id consists of, by the case of its local part. */
  lemma MappedCases(s: string)
    ensures var p := Find(s, '@');
      MapCase('C', s) == if p == |s| then s
        else if IsPostmaster(s[..p]) then s[..0] + Lower(s[0..]) else s[..p] + Lower(s[p..])
  {
    hide IsPostmaster, Lower, Find;
  }

  /** The '@' stays where it is, and neither part of the id crosses it. */
  lemma MappedParts(s: string)
    ensures var (p, r) := (Find(s, '@'), MapCase('C', s));
      && Find(r, '@') == p
      && (p < |s| ==> r[p..] == Lower(s[p..]) && r[..p] == MappedLocal(s[..p]))
      && (p == |s| ==> r == s)
  {
    hide IsPostmaster, Find, MapCase;
    MappedCases(s);
    var p := Find(s, '@');
    if p < |s| {
      var c := if IsPostmaster(s[..p]) then 0 else p;
      LowerFrom(s, c, p);
      LowerFromFind(s, c, p);
      LowerEnds(s, p);
      hide Lower;
    }
  }

  lemma LowerEnds(s: string, p: nat)
    requires p <= |s|
    ensures s[..0] + Lower(s[0..p]) == Lower(s[..p]) && s[..p] + Lower(s[p..p]) == s[..p]
  {
    assert s[0..p] == s[..p];
  }

  function MappedLocal(local: string): string {
    if IsPostmaster(local) then Lower(local) else local
  }

  lemma PostmasterMapped(local: string)
    ensures IsPostmaster(Lower(local)) == IsPostmaster(local)
  {
    if |local| == |POSTMASTER| + 1 {
      LowerSlice(local, 1);
      LowerTwice(local[1..]);
    }
  }

  /** Mapping again changes nothing, whatever the case map. */
  lemma MapCaseIdempotent(casemap: char, s: string)
    ensures MapCase(casemap, MapCase(casemap, s)) == MapCase(casemap, s)
  {
    var r := MapCase(casemap, s);
    if casemap == 'C' {
      MappedParts(s);
      MappedParts(r);
      var p := Find(s, '@');
      if p < |s| {
        PostmasterMapped(s[..p]);
        LowerTwice(s[p..]);
        LowerTwice(s[..p]);
        var rr := MapCase('C', r);
        assert rr == rr[..p] + rr[p..] && r == r[..p] + r[p..];
      }
    } else if casemap == '=' {
      assert s[0..] == s && s[..0] == [] && r[0..] == r && r[..0] == [];
      LowerTwice(s);
    }
  }

  /** Under `C`: two ids with a domain map alike exactly when they name the same mailbox. */
  lemma SameMailbox(a: string, b: string)
    requires '@' in a && '@' in b
    ensures var (p, q) := (Find(a, '@'), Find(b, '@'));
      MapCase('C', a) == MapCase('C', b) <==>
        && Lower(a[p..]) == Lower(b[q..])
        && (a[..p] == b[..q]
            || (IsPostmaster(a[..p]) && IsPostmaster(b[..q]) && Low(a[0]) == Low(b[0])))
  {
    hide IsPostmaster;
    hide MapCase;
    hide MappedLocal;
    hide Lower;
    var p, q := Find(a, '@'), Find(b, '@');
    MappedParts(a);
    MappedParts(b);
    SameLocal(a[..p], b[..q]);
    SameHalves(MapCase('C', a), MapCase('C', b), p, q);
    if Lower(a[p..]) == Lower(b[q..]) {
      assert p == q || MappedLocal(a[..p]) != MappedLocal(b[..q]);
    }
  }

  lemma SameHalves(a: string, b: string, p: nat, q: nat)
    requires p <= |a| && q <= |b|
    requires p == q || a != b
    ensures a == b <==> a[..p] == b[..q] && a[p..] == b[q..]
  {
    if a[..p] == b[..q] && a[p..] == b[q..] {
      assert a == a[..p] + a[p..];
    }
  }

  lemma SameLocal(a: string, b: string)
    ensures MappedLocal(a) == MappedLocal(b) <==>
              a == b || (IsPostmaster(a) && IsPostmaster(b) && Low(a[0]) == Low(b[0]))
  {
    PostmasterMapped(a);
    PostmasterMapped(b);
    if IsPostmaster(a) && IsPostmaster(b) {
      assert Lower(a) == [Low(a[0])] + Lower(a[1..]);
      assert Lower(b) == [Low(b[0])] + Lower(b[1..]);
    }
  }

  /** A last character that is neither '@' nor a capital is mapped to itself and has no effect on the rest. */
  lemma MapCaseSnoc(casemap: char, s: string, c: char)
    requires c != '@' && Low(c) == c
    ensures MapCase(casemap, s + [c]) == MapCase(casemap, s) + [c]
  {
    hide IsPostmaster;
    var n, p, t := CiPoint(casemap, s), Find(s, '@'), s + [c];
    if casemap == 'C' && p == |s| {
      FindUnique(t, '@', p + 1);
      assert t[..p + 1] == t && t[p + 1..] == [] && s[..p] == s && s[p..] == [];
    } else if casemap == 'C' || casemap == '=' {
      assert t[..p] == s[..p];
      if casemap == 'C' { FindUnique(t, '@', p); }
      assert CiPoint(casemap, t) == n;
      assert t[..n] == s[..n] && t[n..] == s[n..] + [c];
      assert Lower(t[n..]) == Lower(s[n..]) + [c];
    }
  }

  // ------------------------------------------------------------------ which ids are the same

  /** The part of an id before its first '@' is one character and "postmaster", up to case. */
  predicate Postmaster(local: string) { |local| == 11 && Lower(local[1..]) == "postmaster" }

  /** Two ids that every lookup must treat alike: under `=` up to case; under `C`, if both have an '@', up to case
      behind it and, before it, only if both are postmaster; and otherwise only if they are equal. */
  predicate SameName(casemap: char, a: string, b: string) {
    if casemap == '=' then Lower(a) == Lower(b)
    else if casemap == 'C' && '@' in a && '@' in b then
      var p, q := Find(a, '@'), Find(b, '@');
      && Lower(a[p..]) == Lower(b[q..])
      && (a[..p] == b[..q] || (Postmaster(a[..p]) && Postmaster(b[..q]) && Low(a[0]) == Low(b[0])))
    else a == b
  }

  const CAPITALS: string := "ABCDEFGHIJKLMNOPQRSTUVWXYZ"

  /** TOLOW, letter by letter. */
  lemma LowLetters()
    ensures Lower(CAPITALS) == "abcdefghijklmnopqrstuvwxyz"
  {
  }

  lemma LowOthers(c: char)
    ensures c !in CAPITALS ==> Low(c) == c
  {
    if 'A' <= c <= 'Z' { assert CAPITALS[c as int - 65] == c; }
  }

  /** Under `=` everything is mapped. */
  lemma AllMapped(s: string)
    ensures MapCase('=', s) == Lower(s)
  {
    assert s[..0] == [] && s[0..] == s;
  }

  /** Without a case map, with one that is not known, and under `C` without an '@', nothing is. */
  lemma NothingMapped(casemap: char, s: string)
    requires casemap != '=' && (casemap == 'C' ==> '@' !in s)
    ensures MapCase(casemap, s) == s
  {
    if casemap == 'C' {
      hide IsPostmaster, Lower;
      FindUnique(s, '@', |s|);
      LowerNone();
      assert s[..|s|] == s && s[|s|..] == [];
    }
  }

  lemma LowerNone()
    ensures Lower([]) == []
  {
  }

  /** Ids are mapped alike exactly if they are the same. */
  lemma MapSame(casemap: char, a: string, b: string)
    ensures MapCase(casemap, a) == MapCase(casemap, b) <==> SameName(casemap, a, b)
  {
    hide MapCase, IsPostmaster;
    if casemap == '=' {
      AllMapped(a);
      AllMapped(b);
    } else if casemap == 'C' {
      if '@' in a && '@' in b {
        SameMailbox(a, b);
        PostmasterIs(a[..Find(a, '@')]);
        PostmasterIs(b[..Find(b, '@')]);
      } else {
        if '@' in a { AtKept(a); } else { NothingMapped('C', a); }
        if '@' in b { AtKept(b); } else { NothingMapped('C', b); }
      }
    } else {
      NothingMapped(casemap, a);
      NothingMapped(casemap, b);
    }
  }

  lemma PostmasterIs(local: string)
    ensures IsPostmaster(local) <==> Postmaster(local)
  {
  }

  lemma AtKept(s: string)
    requires '@' in s
    ensures '@' in MapCase('C', s)
  {
    hide MapCase, IsPostmaster, Lower;
    MappedParts(s);
    var p := Find(s, '@');
    assert p < |s| by { FindIn(s, '@'); }
    assert MapCase('C', s)[Find(MapCase('C', s), '@')] == '@';
  }

  lemma FindIn(s: string, c: char)
    requires c in s
    ensures Find(s, c) < |s|
  {
    var i :| 0 <= i < |s| && s[i] == c;
  }
}
