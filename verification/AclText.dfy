/** Access list files as they are written: what each kind of line does, and what a file of such lines leaves. */
module AclText {
  import opened Seqs
  import opened Macs
  import opened Text
  import opened TextForms
  import opened AclModel

  /** A line before it is parsed. What `rest` holds does not matter, as long as it does not go on with the number. */
  datatype Written =
    | Comment(text: string)
    | Empty
    | Removal(addr: Mac, rest: string)
    | Plain(addr: Mac)
    | Addition(addr: Mac, blanks: string, vlanId: Int32, rest: string)

  function LineText(w: Written): string {
    match w
    case Comment(text) => "#" + text + "\n"
    case Empty => "\n"
    case Removal(a, rest) => "-" + MacText(a) + rest + "\n"
    case Plain(a) => MacText(a) + "\n"
    case Addition(a, blanks, v, rest) => MacText(a) + blanks + IntText(v) + rest + "\n"
  }

  predicate OneLine(s: string) {
    '\n' !in s && |s| < LINE_SIZE - 1
  }

  predicate AllBlank(s: string) {
    s != [] && forall i :: 0 <= i < |s| ==> s[i] == ' ' || s[i] == '\t'
  }

  predicate Writable(w: Written) {
    && (w.Comment? ==> '\n' !in w.text) && (w.Removal? ==> '\n' !in w.rest)
    && (w.Addition? ==> AllBlank(w.blanks) && '\n' !in w.rest && (w.rest == [] || !IsDigit(w.rest[0])))
    && |LineText(w)| < LINE_SIZE
  }

  predicate About(w: Written, a: Mac) {
    (w.Removal? || w.Plain? || w.Addition?) && w.addr == a
  }

  /** The VLAN that a line gives its address. */
  function VlanIn(w: Written): Int32 {
    if w.Addition? then w.vlanId else 0
  }

  function FileText(ws: seq<Written>): string {
    if ws == [] then "" else LineText(ws[0]) + FileText(ws[1..])
  }

  // ---- One line ----

  lemma {:induction false} StripPrefix(s: string, t: string)
    requires '\n' !in s && '\0' !in s
    ensures Strip(s + t) == s + Strip(t)
  {
    if s == [] {
      assert s + t == t;
    } else {
      assert (s + t)[1..] == s[1..] + t;
      StripPrefix(s[1..], t);
    }
  }

  lemma MacIsClean(a: Mac)
    ensures '\n' !in MacText(a) && '\0' !in MacText(a) && MacText(a)[0] != '#' && MacText(a)[0] != '-'
    ensures forall c :: c in MacText(a) ==> !IsBlank(c)
  {
    OctetsAreHex(a);
    assert forall c :: HexNum(c).Some? || c == ':' ==> c != '\n' && c != '\0' && !IsBlank(c);
    assert HexNum('#').None? && HexNum('-').None?;
    hide HexNum, OctetsText;
  }

  lemma IntIsClean(n: int)
    ensures IntText(n) != [] && (IntText(n)[0] == '-' || IsDigit(IntText(n)[0]))
    ensures forall c :: c in IntText(n) ==> c == '-' || IsDigit(c)
  {
    NatReads(if n < 0 then -n else n);
    hide NatText;
  }

  /** A line that starts with a number sign, or is empty, is skipped. */
  lemma CommentLine(text: string)
    ensures ParseLine("#" + text + "\n") == Skip && ParseLine("\n") == Skip
  {
    assert ("#" + text + "\n")[0] == '#';
  }

  /** A minus and an address remove it, whatever follows. */
  lemma RemovalLine(a: Mac, rest: string)
    ensures ParseLine("-" + MacText(a) + rest) == Del(a)
  {
    var m := "-" + MacText(a);
    MacIsClean(a);
    StripPrefix(m, rest);
    var s := m + Strip(rest);
    assert s[1..1 + MAC_TEXT_LEN] == MacText(a);
    MacReads(s, 1, a);
    assert s[0] == '-' && (m + rest)[0] == '-';
    hide MacText, HwaddrAton, Strip;
  }

  lemma {:induction false} WordDropped(s: string, t: string)
    requires (forall c :: c in s ==> !IsBlank(c)) && (t == [] || IsBlank(t[0]))
    ensures DropWord(s + t) == t
  {
    if s == [] {
      assert s + t == t;
    } else {
      assert (s + t)[1..] == s[1..] + t;
      WordDropped(s[1..], t);
    }
  }

  lemma {:induction false} BlanksDropped(s: string, t: string)
    requires (forall i :: 0 <= i < |s| ==> IsBlank(s[i])) && (t == [] || !IsBlank(t[0]))
    ensures DropBlanks(s + t) == t
  {
    if s == [] {
      assert s + t == t;
    } else {
      assert (s + t)[1..] == s[1..] + t;
      BlanksDropped(s[1..], t);
    }
  }

  lemma AdditionVlan(m: string, blanks: string, v: Int32, more: string)
    requires (forall c :: c in m ==> !IsBlank(c)) && AllBlank(blanks) && (more == [] || !IsDigit(more[0]))
    ensures VlanOf(m + blanks + IntText(v) + more) == v
  {
    var n := IntText(v);
    IntIsClean(v);
    assert forall c :: c == '-' || IsDigit(c) ==> !IsBlank(c);
    hide IntText, IsBlank, IsDigit;
    assert m + blanks + n + more == m + (blanks + (n + more));
    WordDropped(m, blanks + (n + more));
    BlanksDropped(blanks, n + more);
    IntReads(v, more);
    hide Atoi, DropWord, DropBlanks;
  }

  lemma AdditionStripped(m: string, blanks: string, v: Int32, rest: string)
    requires '\n' !in m && '\0' !in m && AllBlank(blanks)
    ensures var t := m + blanks + IntText(v); Strip(t + rest) == t + Strip(rest)
  {
    IntIsClean(v);
    assert forall c :: c == '-' || IsDigit(c) || IsBlank(c) ==> c != '\n' && c != '\0';
    hide IntText, IsBlank, IsDigit, Strip;
    StripPrefix(m + blanks + IntText(v), rest);
  }

  lemma AdditionParsed(raw: string, a: Mac)
    requires MAC_TEXT_LEN <= |Strip(raw)| && Strip(raw)[..MAC_TEXT_LEN] == MacText(a)
    ensures ParseLine(raw) == Ins(a, VlanOf(Strip(raw)))
  {
    var s := Strip(raw);
    MacIsClean(a);
    StripHead(raw);
    assert s[0..MAC_TEXT_LEN] == MacText(a) && s[0] == MacText(a)[0];
    MacReads(s, 0, a);
    hide MacText, HwaddrAton, Strip, VlanOf;
  }

  /** An address, blanks and a number add it with that VLAN. */
  lemma AdditionLine(a: Mac, blanks: string, v: Int32, rest: string)
    requires AllBlank(blanks) && (rest == [] || !IsDigit(rest[0]))
    ensures ParseLine(MacText(a) + blanks + IntText(v) + rest) == Ins(a, v)
  {
    var m, n, more := MacText(a), IntText(v), Strip(rest);
    MacIsClean(a);
    StripHead(rest);
    hide MacText, IntText, IsBlank, IsDigit, Strip, VlanOf, ParseLine;
    AdditionStripped(m, blanks, v, rest);
    AdditionVlan(m, blanks, v, more);
    var s := m + blanks + n + more;
    assert s[..MAC_TEXT_LEN] == m;
    AdditionParsed(m + blanks + n + rest, a);
  }

  lemma StripHead(s: string)
    ensures Strip(s) == [] || (s != [] && Strip(s)[0] == s[0])
  {
  }

  function Meaning(w: Written): Line {
    match w
    case Removal(a, _) => Del(a)
    case Plain(a) => Ins(a, 0)
    case Addition(a, _, v, _) => Ins(a, v)
    case _ => Skip
  }

  lemma LineMeans(w: Written)
    requires Writable(w)
    ensures ParseLine(LineText(w)) == Meaning(w)
  {
    hide ParseLine, MacText, IntText;
    match w
    case Comment(text) => CommentLine(text);
    case Empty => CommentLine("");
    case Removal(a, rest) => {
      assert LineText(w) == "-" + MacText(a) + (rest + "\n");
      RemovalLine(a, rest + "\n");
    }
    case Plain(a) => AddressLine(a);
    case Addition(a, blanks, v, rest) => {
      assert LineText(w) == MacText(a) + blanks + IntText(v) + (rest + "\n");
      AdditionLine(a, blanks, v, rest + "\n");
    }
  }

  lemma LineIsLine(w: Written)
    requires Writable(w)
    ensures IsLine(LineText(w))
  {
    if About(w, if w.Comment? || w.Empty? then ZERO else w.addr) {
      MacIsClean(w.addr);
    }
    if w.Addition? {
      IntIsClean(w.vlanId);
      assert forall c :: c == '-' || IsDigit(c) || IsBlank(c) ==> c != '\n';
    }
    hide MacText, IntText, IsDigit, IsBlank;
    var t := LineText(w);
    match w
    case Comment(text) => assert t[..|t| - 1] == "#" + text;
    case Empty =>
    case Removal(a, rest) => assert t[..|t| - 1] == "-" + MacText(a) + rest;
    case Plain(a) => assert t[..|t| - 1] == MacText(a);
    case Addition(a, blanks, v, rest) => assert t[..|t| - 1] == MacText(a) + blanks + IntText(v) + rest;
  }

  // ---- Any line ----

  lemma {:induction false} StripIsPrefix(s: string)
    ensures |Strip(s)| <= |s| && Strip(s) == s[..|Strip(s)|]
  {
    if s != [] && s[0] != '\n' && s[0] != '\0' {
      StripIsPrefix(s[1..]);
    }
  }

  lemma {:induction false} StripKeeps(s: string, n: nat)
    requires n <= |s| && forall i :: 0 <= i < n ==> s[i] != '\n' && s[i] != '\0'
    ensures n <= |Strip(s)|
  {
    if n > 0 {
      StripKeeps(s[1..], n - 1);
    }
  }

  lemma DigitIsClean(c: char, d: int)
    requires 0 <= d < 16 && IsDigitFor(c, d)
    ensures c != '\n' && c != '\0' && c != '-' && c != '#'
  {
  }

  lemma OctetIsClean(s: string, at: nat, b: Byte)
    requires SpellsOctet(s, at, b)
    ensures at + 2 <= |s|
    ensures forall i :: at <= i < at + 2 ==> s[i] != '\n' && s[i] != '\0' && s[i] != '-' && s[i] != '#'
  {
    DigitIsClean(s[at], b as int / 16);
    DigitIsClean(s[at + 1], b as int % 16);
    hide IsDigitFor;
  }

  lemma SpelledIsClean(s: string, at: nat, m: Mac)
    requires Spells(s, at, m)
    ensures at + 17 <= |s|
    ensures forall i :: at <= i < at + 17 ==> s[i] != '\n' && s[i] != '\0' && s[i] != '-' && s[i] != '#'
  {
    hide SpellsOctet;
    assert SpellsOctet(s, at + 3 * 5, m[5]);
    OctetIsClean(s, at + 15, m[5]);
    forall i | at <= i < at + 17 ensures s[i] != '\n' && s[i] != '\0' && s[i] != '-' && s[i] != '#' {
      var k := (i - at) / 3;
      if (i - at) % 3 == 2 {
        assert s[at + 3 * k + 2] == ':';
      } else {
        OctetIsClean(s, at + 3 * k, m[k]);
      }
    }
  }

  lemma SpelledByFront(s: string, n: nat, at: nat, m: Mac)
    requires n <= |s| && at + 17 <= n
    ensures Spells(s[..n], at, m) <==> Spells(s, at, m)
  {
    var t := s[..n];
    hide IsDigitFor;
    assert forall i :: 0 <= i < 6 ==> (SpellsOctet(t, at + 3 * i, m[i]) <==> SpellsOctet(s, at + 3 * i, m[i]));
    hide SpellsOctet;
  }

  /** Cutting off the end of the line leaves an address where it was. */
  lemma SpelledInLine(s: string, at: nat, m: Mac)
    requires at == 0 || (at == 1 && s != [] && s[0] == '-')
    ensures Spells(Strip(s), at, m) <==> Spells(s, at, m)
  {
    StripIsPrefix(s);
    if Spells(s, at, m) {
      SpelledIsClean(s, at, m);
      StripKeeps(s, at + 17);
    }
    if Spells(Strip(s), at, m) {
      SpelledIsClean(Strip(s), at, m);
    }
    hide Spells, Strip;
    if at + 17 <= |Strip(s)| {
      SpelledByFront(s, |Strip(s)|, at, m);
    }
  }

  /**
   What any text does as a line: with nothing in it, or a number sign in front, nothing; with an address spelled out in
   front, or behind a minus, it adds or removes that address; and everything else is an error.
   */
  lemma LineExactly(raw: string, a: Mac)
    ensures ParseLine(raw) == Skip <==> raw == "" || raw[0] == '#' || raw[0] == '\n' || raw[0] == '\0'
    ensures ParseLine(raw) == Del(a) <==> raw != "" && raw[0] == '-' && Spells(raw, 1, a)
    ensures (ParseLine(raw).Ins? && ParseLine(raw).addr == a) <==> Spells(raw, 0, a)
  {
    var s := Strip(raw);
    assert s == "" <==> raw == "" || raw[0] == '\n' || raw[0] == '\0';
    assert s != "" ==> s[0] == raw[0];
    if Spells(raw, 0, a) {
      SpelledIsClean(raw, 0, a);
    }
    hide Strip, Spells, VlanOf, HwaddrAton;
    AddressExactly(s, 0, a);
    AddressExactly(s, 1, a);
    SpelledInLine(raw, 0, a);
    if raw != "" && raw[0] == '-' {
      SpelledInLine(raw, 1, a);
    }
  }

  // ---- A file ----

  function LineTexts(ws: seq<Written>): (r: seq<string>)
    ensures |r| == |ws| && forall i :: 0 <= i < |ws| ==> r[i] == LineText(ws[i])
  {
    seq(|ws|, i requires 0 <= i < |ws| => LineText(ws[i]))
  }

  lemma {:induction false} FileTextIs(ws: seq<Written>)
    ensures FileText(ws) == Concat(LineTexts(ws))
  {
    hide LineText;
    if ws != [] {
      FileTextIs(ws[1..]);
      assert LineTexts(ws)[1..] == LineTexts(ws[1..]);
    }
  }

  lemma FileReads(ws: seq<Written>)
    requires forall i :: 0 <= i < |ws| ==> Writable(ws[i])
    ensures Lines(FileText(ws)) == LineTexts(ws)
    ensures var ls := ParseAll(Lines(FileText(ws)));
              |ls| == |ws| && forall i :: 0 <= i < |ws| ==> ls[i] == Meaning(ws[i])
  {
    hide LineText, Writable, ParseLine, Meaning, IsLine, Lines, FileText;
    FileTextIs(ws);
    var ts := LineTexts(ws);
    forall i | 0 <= i < |ws| ensures IsLine(ts[i]) && ParseLine(ts[i]) == Meaning(ws[i]) {
      LineIsLine(ws[i]);
      LineMeans(ws[i]);
    }
    LinesRead(ts);
  }

  /** Line `i` is the last one about the address. */
  ghost predicate LastAbout(ws: seq<Written>, a: Mac, i: int) {
    0 <= i < |ws| && About(ws[i], a) && forall j :: i < j < |ws| ==> !About(ws[j], a)
  }

  /** What the lines of a file leave of a list. */
  function AfterFile(s: seq<Entry>, ws: seq<Written>): seq<Entry> {
    ApplyAll(s, ParseAll(Lines(FileText(ws))))
  }

  /**
   After a removal as the last line about it the address is not in the new list, after an addition its last entry has that
   line's VLAN, and without a line about it its entries are those it had.
   */
  ghost predicate LastLineDecides(s: seq<Entry>, ws: seq<Written>, a: Mac, s': seq<Entry>) {
    && (forall i :: LastAbout(ws, a, i) && ws[i].Removal? ==> !Has(s', a))
    && (forall i :: LastAbout(ws, a, i) && !ws[i].Removal? ==>
          && Has(s', a) && Of(s', a) != []
          && Of(s', a)[|Of(s', a)| - 1] == Entry(a, VlanIn(ws[i]), VlanIn(ws[i]) != 0))
    && ((forall i :: 0 <= i < |ws| ==> !About(ws[i], a)) ==> Of(s', a) == Of(s, a))
  }

  /** Reading what was written, the last line about an address decides. */
  lemma FileDecides(s: seq<Entry>, ws: seq<Written>, a: Mac)
    requires forall i :: 0 <= i < |ws| ==> Writable(ws[i])
    ensures LastLineDecides(s, ws, a, AfterFile(s, ws))
  {
    assert AfterFile(s, ws) == ApplyAll(s, ParseAll(Lines(FileText(ws)))) by {
      hide ApplyAll, ParseAll, Lines, FileText;
    }
    hide *;
    FileReads(ws);
    MeaningsDecide(s, ws, ParseAll(Lines(FileText(ws))), a);
  }

  lemma MeaningsDecide(s: seq<Entry>, ws: seq<Written>, ls: seq<Line>, a: Mac)
    requires |ls| == |ws| && forall i :: 0 <= i < |ws| ==> ls[i] == Meaning(ws[i])
    ensures LastLineDecides(s, ws, a, ApplyAll(s, ls))
  {
    hide About, Of, Left, Has, ApplyAll, VlanIn, Meaning;
    AppliedOf(s, ls, a);
    HasOf(ApplyAll(s, ls), a);
    forall i | LastAbout(ws, a, i)
      ensures Left(Of(s, a), ls, a) != [] <==> !ws[i].Removal?
      ensures !ws[i].Removal? ==>
                Left(Of(s, a), ls, a)[|Left(Of(s, a), ls, a)| - 1] == Entry(a, VlanIn(ws[i]), VlanIn(ws[i]) != 0)
    {
      LeftAt(Of(s, a), ws, ls, a, i);
    }
    hide LastAbout;
    if forall i :: 0 <= i < |ws| ==> !About(ws[i], a) {
      LeftAlone(Of(s, a), ws, ls, a);
    }
  }

  /** And such a file is read to its end. */
  lemma NoBadLine(ws: seq<Written>)
    requires forall i :: 0 <= i < |ws| ==> Writable(ws[i])
    ensures Bad !in ParseAll(Lines(FileText(ws)))
  {
    hide *;
    FileReads(ws);
    MeaningsAreGood(ws, ParseAll(Lines(FileText(ws))));
  }

  lemma MeaningsAreGood(ws: seq<Written>, ls: seq<Line>)
    requires |ls| == |ws| && forall i :: 0 <= i < |ws| ==> ls[i] == Meaning(ws[i])
    ensures Bad !in ls
  {
  }

  lemma {:induction false} LeftAlone(had: seq<Entry>, ws: seq<Written>, ls: seq<Line>, a: Mac)
    requires |ls| == |ws| && forall i :: 0 <= i < |ws| ==> ls[i] == Meaning(ws[i]) && !About(ws[i], a)
    ensures Left(had, ls, a) == had
  {
    if ls != [] {
      var n := |ws| - 1;
      assert ls[n] == Meaning(ws[n]) && !About(ws[n], a);
      LeftAlone(had, ws[..n], ls[..n], a);
    }
  }

  lemma {:induction false} LeftAt(had: seq<Entry>, ws: seq<Written>, ls: seq<Line>, a: Mac, i: int)
    requires |ls| == |ws| && LastAbout(ws, a, i) && forall k :: 0 <= k < |ws| ==> ls[k] == Meaning(ws[k])
    ensures var left := Left(had, ls, a);
            && (left != [] <==> !ws[i].Removal?)
            && (left != [] ==> left[|left| - 1] == Entry(a, VlanIn(ws[i]), VlanIn(ws[i]) != 0))
  {
    var n := |ws| - 1;
    assert ls[n] == Meaning(ws[n]);
    if i < n {
      assert !About(ws[n], a);
      LeftAt(had, ws[..n], ls[..n], a, i);
    }
  }

  // ---- Order ----

  /** Addresses are ordered by the first octet in which they differ. */
  lemma {:induction false} LexExactly(a: seq<Byte>, b: seq<Byte>)
    requires |a| == |b|
    ensures LexLe(a, b) <==> a == b || exists i :: 0 <= i < |a| && a[..i] == b[..i] && a[i] < b[i]
  {
    if a != [] {
      LexExactly(a[1..], b[1..]);
      if a[0] < b[0] {
        assert a[..0] == b[..0];
      }
      if i :| 0 <= i < |a[1..]| && a[1..][..i] == b[1..][..i] && a[1..][i] < b[1..][i] {
        assert a[0] == b[0] ==> a[..i + 1] == [a[0]] + a[1..][..i] == b[..i + 1];
      }
      if i :| 0 <= i < |a| && a[..i] == b[..i] && a[i] < b[i] {
        if i > 0 {
          assert a[0] == a[..i][0] == b[..i][0] == b[0];
          assert a[1..][..i - 1] == a[..i][1..] == b[..i][1..] == b[1..][..i - 1];
        }
      }
      assert a == b <==> a[0] == b[0] && a[1..] == b[1..] by { assert a == [a[0]] + a[1..] && b == [b[0]] + b[1..]; }
    }
  }
}
