/** The text of a .dir file: `getconf`, `getno` and `putconf` of innbbsd/dbz.c. */
module DirFile {
  import opened Decimal

  const DBZVERSION: int := 3
  const SOF: nat := 8
  const NUSEDS: nat := 11
  const MAXN: nat := 50

  /** struct dbzconfig; fieldsep is the number printed for a (signed) char. */
  datatype Conf = Conf(
    tsize: int, fieldsep: int, casemap: char,
    tagenb: int, tagmask: int, tagshift: int, valuesize: int,
    bytemap: seq<int>, used: seq<int>)

  datatype Option<T> = None | Some(value: T)

  // ------------------------------------------------------------------ what is written

  /** Numbers separated by single blanks. */
  function Numbers(ns: seq<int>): string {
    if ns == [] then ""
    else if |ns| == 1 then Text(ns[0])
    else Text(ns[0]) + " " + Numbers(ns[1..])
  }

  function ConfText(c: Conf): string {
    "dbz" + " " + Numbers([DBZVERSION, c.tsize, c.fieldsep]) + " " + [c.casemap]
    + " " + Numbers([c.tagenb, c.tagmask, c.tagshift, c.valuesize]) + " " + Numbers(c.bytemap) + "\n"
    + Numbers(c.used) + "\n"
  }

  /** What a file holds after `text` was written at its start: it is not truncated. */
  function Overwritten(file: string, text: string): string {
    text + (if |text| <= |file| then file[|text|..] else "")
  }

  /** putconf() */
  method PutConf(file: string, c: Conf) returns (file': string)
    ensures file' == Overwritten(file, ConfText(c))
    ensures ConfText(c) <= file' && (|ConfText(c)| >= |file| ==> file' == ConfText(c))
    ensures |ConfText(c)| < |file| ==>
      |file'| == |file| && forall i :: |ConfText(c)| <= i < |file| ==> file'[i] == file[i]
  {
    var out := "dbz" + " " + Numbers([DBZVERSION, c.tsize, c.fieldsep]) + " " + [c.casemap]
      + " " + Numbers([c.tagenb, c.tagmask, c.tagshift, c.valuesize]);
    out := out + " " + Numbers(c.bytemap);
    out := out + "\n";
    out := out + Numbers(c.used) + "\n";
    assert out == ConfText(c);
    file' := out + if |out| <= |file| then file[|out|..] else "";
  }

  // ------------------------------------------------------------------ what is read

  datatype Read<T> = Bad | Got(value: T, rest: string)

  function SkipBlanks(t: string): (r: string)
    ensures |r| <= |t| && r == t[|t| - |r|..] && (r != "" ==> r[0] != ' ')
  {
    if t != "" && t[0] == ' ' then SkipBlanks(t[1..]) else t
  }

  predicate Ends(c: char) { c == ' ' || c == '\n' }

  /** The length of the token at the start of t. */
  function TokenLength(t: string): (n: nat)
    ensures n <= |t| && (forall i :: 0 <= i < n ==> !Ends(t[i])) && (n < |t| ==> Ends(t[n]))
  {
    if t == "" || Ends(t[0]) then 0 else 1 + TokenLength(t[1..])
  }

  predicate Numeric(s: string) { forall i :: 0 <= i < |s| ==> s[i] == '-' || IsDigit(s[i]) }

  /** The first MAXN - 1 characters of a token are kept. */
  function Kept(token: string): string {
    if |token| < MAXN then token else token[..MAXN - 1]
  }

  /** getno(), on the rest of the file. */
  function ReadNumber(t: string): Read<int> {
    var t := SkipBlanks(t);
    var n := TokenLength(t);
    if n == 0 || n == |t| || !Numeric(Kept(t[..n])) then Bad
    else Got(Atol(Kept(t[..n])), t[n..])
  }

  function ReadNumbers(t: string, n: nat): (r: Read<seq<int>>)
    ensures r.Got? ==> |r.value| == n
  {
    if n == 0 then Got([], t)
    else
      match ReadNumber(t)
      case Bad => Bad
      case Got(x, rest) =>
        match ReadNumbers(rest, n - 1)
        case Bad => Bad
        case Got(xs, rest) => Got([x] + xs, rest)
  }

  predicate IsLine(t: string) { t != "" && t[0] == '\n' }

  function ReadLine(t: string, n: nat): (r: Read<seq<int>>)
    ensures r.Got? ==> |r.value| == n
  {
    match ReadNumbers(t, n)
    case Bad => Bad
    case Got(xs, rest) => if IsLine(rest) then Got(xs, rest[1..]) else Bad
  }

  /** getconf() on a file that is not empty. */
  function ParseConf(t: string): Option<Conf> {
    if |t| < 3 || t[..3] != "dbz" then None
    else
      match ReadNumbers(t[3..], 3)
      case Bad => None
      case Got(head, t) => if head[0] != DBZVERSION then None else ParseTail(head[1], head[2], SkipBlanks(t))
  }

  /** From the case map on. */
  function ParseTail(tsize: int, fieldsep: int, t: string): Option<Conf> {
    if t == "" then None
    else
      match ReadNumbers(t[1..], 4)
      case Bad => None
      case Got(tags, t1) =>
        match ReadLine(t1, SOF)
        case Bad => None
        case Got(bytemap, t2) =>
          match ReadLine(t2, NUSEDS)
          case Bad => None
          case Got(used, _) =>
            if tags[3] != SOF then None
            else Some(Conf(tsize, fieldsep, t[0], tags[0], tags[1], tags[2], tags[3], bytemap, used))
  }

  /** What getconf() refuses: no file is read without the magic, the version 3 and the size 8 of a value. */
  lemma ParseRefuses(t: string)
    ensures ParseConf(t).Some? ==>
      |t| >= 3 && t[..3] == "dbz" && ReadNumber(t[3..]).Got? && ReadNumber(t[3..]).value == 3
    ensures match ParseConf(t) case Some(c) => c.valuesize == 8 && |c.bytemap| == 8 && |c.used| == 11 case None => true
  {
    hide ReadNumber;
  }

  lemma TokenUnique(t: string, n: nat)
    requires n <= |t| && (forall i :: 0 <= i < n ==> !Ends(t[i])) && (n < |t| ==> Ends(t[n]))
    ensures TokenLength(t) == n
  {
  }

  lemma KeptShort(token: string)
    ensures |token| < MAXN ==> Kept(token) == token
  {
  }

  lemma KeptNext(token: string, c: char)
    ensures Kept(token + [c]) == if |Kept(token)| < MAXN - 1 then Kept(token) + [c] else Kept(token)
  {
  }

  lemma SliceStep(t: string, n: nat, c: char, rest: string)
    requires n <= |t| && t[n..] == [c] + rest
    ensures n < |t| && t[n] == c && t[..n + 1] == t[..n] + [c] && rest == t[n + 1..]
  {
    assert t[n] == t[n..][0];
    assert rest == t[n..][1..];
  }

  function Pushed(c: Option<char>, rest: string): string {
    if c == None then rest else [c.value] + rest
  }

  /** The .dir file as getconf() reads it: what is still unread, and the sticky error flag. */
  class Reader {
    var rest: string
    var err: bool

    constructor (text: string)
      ensures rest == text && !err
    {
      rest, err := text, false;
    }

    /** getc(); None is EOF. */
    method GetC() returns (c: Option<char>)
      modifies `rest
      ensures old(rest) == "" ==> c == None && rest == ""
      ensures old(rest) != "" ==> c == Some(old(rest)[0]) && rest == old(rest)[1..]
      ensures Pushed(c, rest) == old(rest)
    {
      if rest == "" { return None; }
      c := Some(rest[0]);
      rest := rest[1..];
    }

    /** The first character that is not a blank. */
    method GetNonBlank() returns (c: Option<char>)
      modifies `rest
      ensures Pushed(c, rest) == SkipBlanks(old(rest)) && (c == None ==> rest == "")
      ensures c != Some(' ')
    {
      c := GetC();
      while c == Some(' ')
        invariant SkipBlanks(Pushed(c, rest)) == SkipBlanks(old(rest))
        invariant c == None ==> rest == ""
        decreases |rest|, c != None
      {
        assert Pushed(c, rest)[1..] == rest;
        c := GetC();
      }
    }

    /** The second loop of getno(): the characters up to a blank, which is put back, a newline or EOF. */
    method GetToken(first: char) returns (buf: string, eof: bool)
      requires !Ends(first)
      modifies `rest
      ensures var t := [first] + old(rest); var n := TokenLength(t);
        n > 0 && buf == Kept(t[..n]) && rest == t[n..] && (eof <==> n == |t|)
    {
      hide TokenLength, Kept, Ends;
      ghost var t := [first] + rest;
      ghost var n := 1;
      buf := [first];
      KeptShort(buf);
      var c := GetC();
      while c != None && !Ends(c.value)
        invariant 0 < n <= |t| && Pushed(c, rest) == t[n..]
        invariant c == None ==> rest == ""
        invariant forall i :: 0 <= i < n ==> !Ends(t[i])
        invariant buf == Kept(t[..n])
        decreases |rest|, c != None
      {
        SliceStep(t, n, c.value, rest);
        KeptNext(t[..n], c.value);
        n := n + 1;
        if |buf| < MAXN - 1 {
          buf := buf + [c.value];
        }
        c := GetC();
      }
      TokenUnique(t, n);
      eof := c == None;
      if c != None {
        rest := [c.value] + rest;
      }
    }

    /** getno() */
    method GetNo() returns (n: int)
      modifies `rest, `err
      ensures old(err) ==> err
      ensures match ReadNumber(old(rest))
        case Bad => err
        case Got(x, left) => err == old(err) && n == x && rest == left
    {
      hide SkipBlanks, TokenLength, Atol, Kept;
      var c := GetNonBlank();
      if c == None || c.value == '\n' {
        err := true;
        return 0;
      }
      var buf, eof := GetToken(c.value);
      if eof || exists i :: 0 <= i < |buf| && buf[i] != '-' && !IsDigit(buf[i]) {
        err := true;
      }
      n := Atol(buf);
    }

    /** The loops over bytemap[] and used[], and the runs of getno() calls. */
    method GetNumbers(n: nat) returns (ns: seq<int>)
      modifies `rest, `err
      ensures |ns| == n && (old(err) ==> err)
      ensures match ReadNumbers(old(rest), n)
        case Bad => err
        case Got(xs, left) => err == old(err) && ns == xs && rest == left
    {
      hide ReadNumber;
      ns := [];
      for i := 0 to n
        invariant |ns| == i && (old(err) ==> err)
        invariant ReadNumbers(old(rest), n).Bad? ==> err || ReadNumbers(rest, n - i).Bad?
        invariant ReadNumbers(old(rest), n).Got? ==> err == old(err) && ReadNumbers(rest, n - i).Got?
        invariant ReadNumbers(old(rest), n).Got? ==>
          ReadNumbers(old(rest), n).value == ns + ReadNumbers(rest, n - i).value
        invariant ReadNumbers(old(rest), n).Got? ==> ReadNumbers(old(rest), n).rest == ReadNumbers(rest, n - i).rest
      {
        ghost var before := rest;
        assert ReadNumbers(before, n - i).Got? ==>
          ReadNumbers(before, n - i).value ==
            [ReadNumber(before).value] + ReadNumbers(ReadNumber(before).rest, n - i - 1).value;
        var x := GetNo();
        ns := ns + [x];
      }
    }

    /** A line must end here. */
    method GetNewline()
      modifies `rest, `err
      ensures err == (old(err) || !IsLine(old(rest)))
      ensures IsLine(old(rest)) ==> rest == old(rest)[1..]
    {
      var c := GetC();
      if c != Some('\n') { err := true; }
    }

    /** The "dbz" at the start of the file. */
    method GetMagic()
      modifies `rest, `err
      ensures var t := old(rest);
        if |t| < 3 || t[..3] != "dbz" then err else err == old(err) && rest == t[3..]
    {
      var d := GetC();
      var b := GetC();
      var z := GetC();
      if d != Some('d') || b != Some('b') || z != Some('z') {
        err := true;
      }
    }

    /** getconf() from the case map on. */
    method GetTail(tsize: int, fieldsep: int) returns (conf: Conf)
      modifies `rest, `err
      ensures old(err) ==> err
      ensures match ParseTail(tsize, fieldsep, SkipBlanks(old(rest)))
        case None => err
        case Some(c) => err == old(err) && conf == c
    {
      hide ReadNumbers, SkipBlanks;
      var c := GetNonBlank();
      var casemap := if c == None then '\0' else c.value;
      if c == None { err := true; }
      var tags := GetNumbers(4);
      if tags[3] != SOF { err := true; }
      var bytemap := GetNumbers(SOF);
      GetNewline();
      var used := GetNumbers(NUSEDS);
      GetNewline();
      conf := Conf(tsize, fieldsep, casemap, tags[0], tags[1], tags[2], tags[3], bytemap, used);
    }
  }

  const DEFSIZE: int := 120011

  function DefaultConf(mine: seq<int>): Conf {
    Conf(DEFSIZE, '\t' as int, 'C', 0x80, 0x7f, 24, SOF, mine, seq(NUSEDS, _ => 0))
  }

  /** getconf(), on a machine with the byte map `mine`; None is the error return. */
  method GetConf(text: string, mine: seq<int>) returns (r: Option<Conf>)
    ensures r == if text == "" then Some(DefaultConf(mine)) else ParseConf(text)
    ensures text == "" ==> r == Some(Conf(120011, 9, 'C', 128, 127, 24, 8, mine, [0, 0, 0, 0, 0, 0, 0, 0, 0, 0, 0]))
  {
    if text == "" {
      assert DefaultConf(mine).used == [0, 0, 0, 0, 0, 0, 0, 0, 0, 0, 0];
      return Some(DefaultConf(mine));
    }
    hide ReadNumbers, SkipBlanks, ParseTail;
    var df := new Reader(text);
    df.GetMagic();
    var head := df.GetNumbers(3);
    if head[0] != DBZVERSION { df.err := true; }
    var conf := df.GetTail(head[1], head[2]);
    r := if df.err then None else Some(conf);
  }

  /** The two lines of a .dir file, field by field. */
  lemma ConfLines(c: Conf)
    ensures ConfText(c) ==
      "dbz 3 " + Text(c.tsize) + " " + Text(c.fieldsep) + " " + [c.casemap] + " " + Text(c.tagenb) + " "
      + Text(c.tagmask) + " " + Text(c.tagshift) + " " + Text(c.valuesize) + " " + Numbers(c.bytemap) + "\n"
      + Numbers(c.used) + "\n"
  {
    ThreeNumbers(3, c.tsize, c.fieldsep);
    FourNumbers(c.tagenb, c.tagmask, c.tagshift, c.valuesize);
    assert Text(3) == "3";
    hide Numbers, Text;
    HeadGroup(Text(c.tsize), Text(c.fieldsep));
    var head := "dbz 3 " + Text(c.tsize) + " " + Text(c.fieldsep) + " " + [c.casemap];
    assert ConfText(c) == head + " " + Numbers([c.tagenb, c.tagmask, c.tagshift, c.valuesize]) + " "
      + Numbers(c.bytemap) + "\n" + Numbers(c.used) + "\n";
    TagsGroup(head, Text(c.tagenb), Text(c.tagmask), Text(c.tagshift), Text(c.valuesize));
  }

  lemma HeadGroup(a: string, b: string)
    ensures "dbz" + " " + ("3" + " " + a + " " + b) == "dbz 3 " + a + " " + b
  {
  }

  lemma TagsGroup(x: string, a: string, b: string, c: string, d: string)
    ensures x + " " + (a + " " + b + " " + c + " " + d) == x + " " + a + " " + b + " " + c + " " + d
  {
  }

  lemma ThreeNumbers(a: int, b: int, c: int)
    ensures Numbers([a, b, c]) == Text(a) + " " + Text(b) + " " + Text(c)
  {
    hide Text;
    NumbersSplit([a], [b, c]);
    NumbersSplit([b], [c]);
    NumbersSplit([c], [c]);
    assert [a] + [b, c] == [a, b, c] && [b] + [c] == [b, c];
    hide Numbers;
  }

  lemma FourNumbers(a: int, b: int, c: int, d: int)
    ensures Numbers([a, b, c, d]) == Text(a) + " " + Text(b) + " " + Text(c) + " " + Text(d)
  {
    hide Text, Numbers;
    NumbersSplit([a], [b, c, d]);
    ThreeNumbers(b, c, d);
    assert [a] + [b, c, d] == [a, b, c, d];
  }

  /** Numbers stand one behind the other with single blanks between them. */
  lemma {:induction false} NumbersSplit(ms: seq<int>, ns: seq<int>)
    requires ms != [] && ns != []
    ensures Numbers(ms + ns) == Numbers(ms) + " " + Numbers(ns)
    ensures |ms| == 1 ==> Numbers(ms) == Text(ms[0])
  {
    hide Text;
    assert (ms + ns)[0] == ms[0] && (ms + ns)[1..] == ms[1..] + ns;
    if |ms| > 1 { NumbersSplit(ms[1..], ns); }
  }

  // ------------------------------------------------------------------ reading back what was written

  predicate Longs(ns: seq<int>) { forall i :: 0 <= i < |ns| ==> IsLong(ns[i]) }

  /** A configuration as the program holds it: C longs, and arrays of their C sizes. */
  predicate Storable(c: Conf) {
    && IsLong(c.tsize) && IsLong(c.fieldsep) && IsLong(c.tagenb) && IsLong(c.tagmask) && IsLong(c.tagshift)
    && c.valuesize == SOF && |c.bytemap| == SOF && |c.used| == NUSEDS && Longs(c.bytemap) && Longs(c.used)
  }

  predicate Blanks(lead: string) { lead == "" || lead == " " }

  lemma ReadNumberText(lead: string, n: int, rest: string)
    requires IsLong(n) && rest != "" && Ends(rest[0]) && Blanks(lead)
    ensures ReadNumber(lead + Text(n) + rest) == Got(n, rest)
  {
    TextLength(n);
    AtolText(n, "");
    hide Text, Atol, ReadNumber;
    assert Text(n) + "" == Text(n);
    ReadBehind(lead, Text(n), rest);
  }

  lemma ReadBehind(lead: string, token: string, rest: string)
    requires 0 < |token| < MAXN && Numeric(token) && rest != "" && Ends(rest[0]) && Blanks(lead)
    ensures ReadNumber(lead + token + rest) == Got(Atol(token), rest)
  {
    hide *;
    TokenFirst(token, rest);
    assert lead + token + rest == lead + (token + rest);
    SkipBoth(lead, token + rest);
    ReadToken(token, rest);
  }

  lemma TokenFirst(token: string, rest: string)
    requires token != "" && Numeric(token)
    ensures (token + rest)[0] != ' '
  {
  }

  lemma SkipBoth(lead: string, t: string)
    requires Blanks(lead) && t != "" && t[0] != ' '
    ensures ReadNumber(lead + t) == ReadNumber(t)
  {
    SkipLead(lead, t);
    assert SkipBlanks(t) == t;
    hide SkipBlanks, ReadNumber;
    BlanksSkipped(lead + t, t);
  }

  lemma BlanksSkipped(t: string, u: string)
    requires SkipBlanks(t) == SkipBlanks(u)
    ensures ReadNumber(t) == ReadNumber(u)
  {
    hide SkipBlanks, TokenLength, Atol, Kept;
  }

  lemma ReadToken(token: string, rest: string)
    requires 0 < |token| < MAXN && Numeric(token) && rest != "" && Ends(rest[0])
    ensures ReadNumber(token + rest) == Got(Atol(token), rest)
  {
    var t := token + rest;
    assert t[0] != ' ';
    assert forall i :: 0 <= i < |token| ==> t[i] == token[i];
    TokenUnique(t, |token|);
    assert t[..|token|] == token && t[|token|..] == rest;
    KeptShort(token);
    hide Atol, TokenLength, Kept;
  }

  lemma SkipLead(lead: string, t: string)
    requires Blanks(lead) && t != "" && t[0] != ' '
    ensures SkipBlanks(lead + t) == t
  {
    if lead == "" {
      assert lead + t == t;
    } else {
      assert (lead + t)[1..] == t;
    }
  }

  lemma {:induction false} ReadNumbersText(lead: string, ns: seq<int>, rest: string)
    requires ns != [] && Longs(ns) && rest != "" && Ends(rest[0]) && Blanks(lead)
    ensures ReadNumbers(lead + Numbers(ns) + rest, |ns|) == Got(ns, rest)
    decreases |ns|
  {
    hide ReadNumber, Text;
    if |ns| == 1 {
      ReadNumberText(lead, ns[0], rest);
      assert ReadNumbers(rest, 0) == Got([], rest);
      assert [ns[0]] + [] == ns;
    } else {
      var more := " " + Numbers(ns[1..]) + rest;
      assert Numbers(ns) == Text(ns[0]) + " " + Numbers(ns[1..]);
      Regroup(lead, Text(ns[0]), " ", Numbers(ns[1..]), rest);
      ReadNumberText(lead, ns[0], more);
      ReadNumbersText(" ", ns[1..], rest);
      assert [ns[0]] + ns[1..] == ns;
    }
  }

  lemma Regroup(a: string, b: string, c: string, d: string, e: string)
    ensures a + (b + c + d) + e == a + b + (c + d + e)
  {
  }

  /** What follows the case map reads back. */
  lemma TailText(c: Conf, rest: string)
    requires Storable(c)
    ensures ParseTail(c.tsize, c.fieldsep,
      [c.casemap] + (" " + Numbers([c.tagenb, c.tagmask, c.tagshift, c.valuesize])
        + (" " + Numbers(c.bytemap) + ("\n" + ("" + Numbers(c.used) + ("\n" + rest)))))) == Some(c)
  {
    hide ReadNumbers, Numbers;
    var tags := [c.tagenb, c.tagmask, c.tagshift, c.valuesize];
    var r3 := "\n" + rest;
    var r2 := "\n" + ("" + Numbers(c.used) + r3);
    var r1 := " " + Numbers(c.bytemap) + r2;
    var r0 := " " + Numbers(tags) + r1;
    assert ([c.casemap] + r0)[1..] == r0;
    ReadNumbersText(" ", tags, r1);
    ReadNumbersText(" ", c.bytemap, r2);
    assert r2[1..] == "" + Numbers(c.used) + r3;
    ReadNumbersText("", c.used, r3);
    assert r3[1..] == rest;
  }

  /** getconf reads back what putconf wrote, whatever stands after it, exactly when the case map is not a blank. */
  lemma ConfRoundTrip(c: Conf, rest: string)
    requires Storable(c)
    ensures ParseConf(ConfText(c) + rest) == Some(c) <==> c.casemap != ' '
  {
    hide ReadNumbers, Numbers, ParseTail, Storable, SkipBlanks, Longs;
    StorableHead(c);
    var head := [DBZVERSION, c.tsize, c.fieldsep];
    var tail := [c.casemap] + (" " + Numbers([c.tagenb, c.tagmask, c.tagshift, c.valuesize])
        + (" " + Numbers(c.bytemap) + ("\n" + ("" + Numbers(c.used) + ("\n" + rest)))));
    var t := ConfText(c) + rest;
    assert t == "dbz" + (" " + Numbers(head) + (" " + tail));
    assert t[..3] == "dbz" && t[3..] == " " + Numbers(head) + (" " + tail);
    ReadNumbersText(" ", head, " " + tail);
    if c.casemap != ' ' {
      SkipLead(" ", tail);
      TailText(c, rest);
    } else {
      TailCase(c.tsize, c.fieldsep, SkipBlanks(" " + tail));
    }
  }

  lemma StorableHead(c: Conf)
    requires Storable(c)
    ensures Longs([DBZVERSION, c.tsize, c.fieldsep])
  {
  }

  lemma TailCase(tsize: int, fieldsep: int, t: string)
    ensures match ParseTail(tsize, fieldsep, t) case Some(c) => t != "" && c.casemap == t[0] case None => true
  {
    hide ReadNumbers;
  }

  /** ... also over a longer text that is not truncated. */
  lemma PutGetConf(file: string, c: Conf)
    requires Storable(c) && c.casemap != ' '
    ensures ParseConf(Overwritten(file, ConfText(c))) == Some(c) && Overwritten(file, ConfText(c)) != ""
  {
    var rest := if |ConfText(c)| <= |file| then file[|ConfText(c)|..] else "";
    ConfRoundTrip(c, rest);
    hide ConfText;
  }
}
