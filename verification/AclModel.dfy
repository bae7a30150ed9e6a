/** MAC access lists: lines that add and remove addresses, and what a file of them amounts to. */
module AclModel {
  import opened Seqs
  import opened Macs
  import opened Text

  datatype Entry = Entry(addr: Mac, vlanId: Int32, notempty: bool)

  function NewEntry(addr: Mac, vlanId: Int32): Entry {
    Entry(addr, vlanId, vlanId != 0)
  }

  /** The entries with other addresses, in order. */
  function Without(s: seq<Entry>, addr: Mac): seq<Entry> {
    if s == [] then []
    else
      var front := Without(s[..|s| - 1], addr);
      if s[|s| - 1].addr == addr then front else front + [s[|s| - 1]]
  }

  /** The entries with one address, in order. */
  function Of(s: seq<Entry>, addr: Mac): seq<Entry> {
    if s == [] then []
    else
      var front := Of(s[..|s| - 1], addr);
      if s[|s| - 1].addr == addr then front + [s[|s| - 1]] else front
  }

  lemma {:induction false} WithoutOf(s: seq<Entry>, addr: Mac, a: Mac)
    ensures Of(Without(s, addr), a) == if a == addr then [] else Of(s, a)
  {
    if s != [] {
      var front, last := s[..|s| - 1], s[|s| - 1];
      WithoutOf(front, addr, a);
      if last.addr != addr {
        assert (Without(front, addr) + [last])[..|Without(front, addr)|] == Without(front, addr);
      }
    }
  }

  lemma OfSnoc(s: seq<Entry>, e: Entry, a: Mac)
    ensures Of(s + [e], a) == if e.addr == a then Of(s, a) + [e] else Of(s, a)
  {
    assert (s + [e])[..|s|] == s;
  }

  predicate Has(s: seq<Entry>, a: Mac) {
    exists e :: e in s && e.addr == a
  }

  lemma {:induction false} HasOf(s: seq<Entry>, a: Mac)
    ensures Has(s, a) <==> Of(s, a) != []
  {
    if s != [] {
      var front, last := s[..|s| - 1], s[|s| - 1];
      HasOf(front, a);
      assert forall e :: e in s <==> e in front || e == last;
      if Has(front, a) {
        var e :| e in front && e.addr == a;
        assert e in s;
      }
      assert last in s;
    }
  }

  // ---- Lines ----

  datatype Line = Skip | Bad | Del(addr: Mac) | Ins(addr: Mac, vlanId: Int32)

  /** The text before the end of the line. */
  function Strip(s: string): string {
    if s == [] || s[0] == '\n' || s[0] == '\0' then "" else [s[0]] + Strip(s[1..])
  }

  function DropWord(s: string): string {
    if s == [] || IsBlank(s[0]) then s else DropWord(s[1..])
  }

  function DropBlanks(s: string): string {
    if s == [] || !IsBlank(s[0]) then s else DropBlanks(s[1..])
  }

  function VlanOf(s: string): Int32 {
    AtoiInt(DropBlanks(DropWord(s)))
  }

  function ParseLine(raw: string): Line {
    var s := Strip(raw);
    if CharAt(raw, 0) == '#' || s == "" then Skip
    else
      var at := if s[0] == '-' then 1 else 0;
      var addr := HwaddrAton(s, at);
      if addr.None? then Bad
      else if at == 1 then Del(addr.value)
      else Ins(addr.value, VlanOf(s))
  }

  function Apply(s: seq<Entry>, l: Line): seq<Entry> {
    match l
    case Del(a) => Without(s, a)
    case Ins(a, v) => s + [NewEntry(a, v)]
    case _ => s
  }

  function ApplyAll(s: seq<Entry>, ls: seq<Line>): seq<Entry> {
    if ls == [] then s else Apply(ApplyAll(s, ls[..|ls| - 1]), ls[|ls| - 1])
  }

  function ParseAll(raw: seq<string>): (r: seq<Line>)
    ensures |r| == |raw| && forall i :: 0 <= i < |raw| ==> r[i] == ParseLine(raw[i])
  {
    seq(|raw|, i requires 0 <= i < |raw| => ParseLine(raw[i]))
  }

  /** The lines up to the first bad one. */
  function Good(ls: seq<Line>): seq<Line> {
    if ls == [] || ls[0].Bad? then [] else [ls[0]] + Good(ls[1..])
  }

  predicate Mentions(l: Line, a: Mac) {
    (l.Del? || l.Ins?) && l.addr == a
  }

  /** The last line about an address. */
  function LastMention(ls: seq<Line>, a: Mac): Option<Line> {
    if ls == [] then None
    else if Mentions(ls[|ls| - 1], a) then Some(ls[|ls| - 1])
    else LastMention(ls[..|ls| - 1], a)
  }

  /** The entries that the lines leave for an address, given those it had: additions since the last removal. */
  function Left(had: seq<Entry>, ls: seq<Line>, a: Mac): seq<Entry> {
    if ls == [] then had
    else
      var l := ls[|ls| - 1];
      if !Mentions(l, a) then Left(had, ls[..|ls| - 1], a)
      else if l.Del? then []
      else Left(had, ls[..|ls| - 1], a) + [NewEntry(a, l.vlanId)]
  }

  /** What lines do to an address depends on the lines about it only. */
  lemma {:induction false} AppliedOf(s: seq<Entry>, ls: seq<Line>, a: Mac)
    ensures Of(ApplyAll(s, ls), a) == Left(Of(s, a), ls, a)
  {
    if ls != [] {
      var front, l := ls[..|ls| - 1], ls[|ls| - 1];
      AppliedOf(s, front, a);
      match l
      case Del(b) => WithoutOf(ApplyAll(s, front), b, a);
      case Ins(b, v) => OfSnoc(ApplyAll(s, front), NewEntry(b, v), a);
      case _ =>
    }
  }

  lemma {:induction false} LeftIsLastMention(had: seq<Entry>, ls: seq<Line>, a: Mac)
    ensures Left(had, ls, a) != [] <==>
              if LastMention(ls, a).Some? then LastMention(ls, a).value.Ins? else had != []
  {
    if ls != [] && !Mentions(ls[|ls| - 1], a) {
      LeftIsLastMention(had, ls[..|ls| - 1], a);
    }
  }

  /** Last mention wins: an address is in the list iff its last line adds it, or it was there and no line mentions it. */
  lemma LastMentionWins(s: seq<Entry>, ls: seq<Line>, a: Mac)
    ensures Has(ApplyAll(s, ls), a) <==>
              if LastMention(ls, a).Some? then LastMention(ls, a).value.Ins? else Has(s, a)
  {
    HasOf(s, a);
    HasOf(ApplyAll(s, ls), a);
    AppliedOf(s, ls, a);
    LeftIsLastMention(Of(s, a), ls, a);
  }

  // ---- Order ----

  /** memcmp(a, b) <= 0. */
  predicate LexLe(a: seq<Byte>, b: seq<Byte>)
    requires |a| == |b|
  {
    a == [] || a[0] < b[0] || (a[0] == b[0] && LexLe(a[1..], b[1..]))
  }

  lemma {:induction false} LexTotal(a: seq<Byte>, b: seq<Byte>)
    requires |a| == |b|
    ensures LexLe(a, b) || LexLe(b, a)
  {
    if a != [] && a[0] == b[0] {
      LexTotal(a[1..], b[1..]);
    }
  }

  lemma {:induction false} LexTransitive(a: seq<Byte>, b: seq<Byte>, c: seq<Byte>)
    requires |a| == |b| == |c| && LexLe(a, b) && LexLe(b, c)
    ensures LexLe(a, c)
  {
    if a != [] && a[0] == b[0] == c[0] {
      LexTransitive(a[1..], b[1..], c[1..]);
    }
  }

  ghost predicate Ordered(s: seq<Entry>) {
    forall i, j :: 0 <= i < j < |s| ==> LexLe(s[i].addr, s[j].addr)
  }

  /** Insert an entry before the first larger one. */
  function Insert(s: seq<Entry>, e: Entry): (r: seq<Entry>)
    ensures multiset(r) == multiset(s) + multiset{e}
  {
    if s == [] then [e]
    else if LexLe(e.addr, s[0].addr) then [e] + s
    else
      assert s == [s[0]] + s[1..];
      [s[0]] + Insert(s[1..], e)
  }

  function Sort(s: seq<Entry>): (r: seq<Entry>)
    ensures multiset(r) == multiset(s)
  {
    if s == [] then []
    else
      assert s == s[..|s| - 1] + [s[|s| - 1]];
      Insert(Sort(s[..|s| - 1]), s[|s| - 1])
  }

  lemma {:induction false} InsertOrdered(s: seq<Entry>, e: Entry)
    requires Ordered(s)
    ensures Ordered(Insert(s, e))
  {
    if s != [] {
      if LexLe(e.addr, s[0].addr) {
        forall k | 0 <= k < |s| ensures LexLe(e.addr, s[k].addr) {
          if k > 0 { LexTransitive(e.addr, s[0].addr, s[k].addr); }
        }
      } else {
        LexTotal(e.addr, s[0].addr);
        InsertOrdered(s[1..], e);
        var r := Insert(s[1..], e);
        forall k | 0 <= k < |r| ensures LexLe(s[0].addr, r[k].addr) {
          assert r[k] in multiset(r);
          assert r[k] in s[1..] || r[k] == e;
        }
      }
    }
  }

  lemma {:induction false} SortOrdered(s: seq<Entry>)
    ensures Ordered(Sort(s))
  {
    if s != [] {
      SortOrdered(s[..|s| - 1]);
      InsertOrdered(Sort(s[..|s| - 1]), s[|s| - 1]);
    }
  }

  lemma SameElements(r: seq<Entry>, s: seq<Entry>, a: Mac)
    requires multiset(r) == multiset(s)
    ensures Has(r, a) <==> Has(s, a)
  {
    assert forall e :: e in r <==> e in multiset(r);
    assert forall e :: e in s <==> e in multiset(s);
  }

  // ---- Failed reads ----

  lemma {:induction false} StripLine(s: string)
    requires '\n' !in s && '\0' !in s
    ensures Strip(s + "\n") == s
  {
    if s != [] {
      assert (s + "\n")[1..] == s[1..] + "\n";
      StripLine(s[1..]);
    }
  }

  lemma {:induction false} OneWord(s: string)
    requires forall c :: c in s ==> !IsBlank(c)
    ensures DropWord(s) == ""
  {
    if s != [] {
      OneWord(s[1..]);
    }
  }

  /** A line with just an address adds it. */
  lemma AddressLine(a: Mac)
    ensures IsLine(MacText(a) + "\n") && ParseLine(MacText(a) + "\n") == Ins(a, 0)
  {
    var s := MacText(a);
    OctetsAreHex(a);
    assert forall c :: HexNum(c).Some? || c == ':' ==> c != '\n' && c != '\0' && !IsBlank(c);
    assert HexNum(s[0]).Some? ==> s[0] != '#' && s[0] != '-';
    StripLine(s);
    OneWord(s);
    assert s[0..MAC_TEXT_LEN] == s;
    MacReads(s, 0, a);
    hide MacText, Strip, DropWord, HwaddrAton, HexNum, OctetsText;
    assert (s + "\n")[..|s|] == s;
    assert DropBlanks("") == "" && AtoiInt("") == 0;
  }

  lemma BadLine()
    ensures IsLine("x\n") && ParseLine("x\n") == Bad
  {
    assert "x\n"[1..] == "\n" && "x\n"[..1] == "x";
    StripLine("x");
    assert "x" + "\n" == "x\n";
    assert HexByte("x", 0).None?;
  }

  /** Two addresses out of order and then a bad line: the failed read leaves both in the list, out of order. */
  lemma FailedReadUnordered(a: Mac, b: Mac)
    requires !LexLe(a, b)
    ensures var ls := ParseAll(Lines(MacText(a) + "\n" + MacText(b) + "\n" + "x\n"));
            && Bad in ls
            && ApplyAll([], Good(ls)) == [NewEntry(a, 0), NewEntry(b, 0)]
            && !Ordered(ApplyAll([], Good(ls)))
  {
    var x, y, z := MacText(a) + "\n", MacText(b) + "\n", "x\n";
    AddressLine(a);
    AddressLine(b);
    BadLine();
    hide MacText, ParseLine, Lines, IsLine, Concat;
    LinesRead([x, y, z]);
    ThreeLines(x, y, z);
    assert x + (y + z) == MacText(a) + "\n" + MacText(b) + "\n" + "x\n";
    var ls := ParseAll([x, y, z]);
    assert ls == [Ins(a, 0), Ins(b, 0), Bad];
    GoodPart(Ins(a, 0), Ins(b, 0));
    TwoAdded(a, b);
  }

  lemma ThreeLines(x: string, y: string, z: string)
    ensures Concat([x, y, z]) == x + (y + z)
  {
    assert [x, y, z][1..] == [y, z] && [y, z][1..] == [z] && [z][1..] == [];
    assert Concat([z]) == z + Concat([]) && Concat([]) == "" && z + "" == z;
    assert Concat([y, z]) == y + Concat([z]);
  }

  lemma GoodPart(l: Line, l': Line)
    requires !l.Bad? && !l'.Bad?
    ensures Good([l, l', Bad]) == [l, l']
  {
    assert [l, l', Bad][1..] == [l', Bad] && [l', Bad][1..] == [Bad];
    assert Good([Bad]) == [] && Good([l', Bad]) == [l'];
  }

  lemma TwoAdded(a: Mac, b: Mac)
    ensures ApplyAll([], [Ins(a, 0), Ins(b, 0)]) == [NewEntry(a, 0), NewEntry(b, 0)]
    ensures Ordered([NewEntry(a, 0), NewEntry(b, 0)]) ==> LexLe(a, b)
  {
    var l, l' := Ins(a, 0), Ins(b, 0);
    assert [l, l'][..1] == [l] && [l][..0] == [];
    assert ApplyAll([], [l]) == [NewEntry(a, 0)];
    var s := [NewEntry(a, 0), NewEntry(b, 0)];
    assert s[0].addr == a && s[1].addr == b;
  }

  /** The entries that no line removes. */
  function Kept(s: seq<Entry>, ls: seq<Line>): seq<Entry> {
    if ls == [] then s
    else
      var l := ls[|ls| - 1];
      if l.Del? then Without(Kept(s, ls[..|ls| - 1]), l.addr) else Kept(s, ls[..|ls| - 1])
  }

  lemma {:induction false} WithoutAppend(s: seq<Entry>, t: seq<Entry>, a: Mac)
    ensures Without(s + t, a) == Without(s, a) + Without(t, a)
  {
    if t == [] {
      assert s + t == s;
    } else {
      assert (s + t)[..|s + t| - 1] == s + t[..|t| - 1];
      WithoutAppend(s, t[..|t| - 1], a);
    }
  }

  /** The list falls into what is kept of the old one and what the lines build up from nothing. */
  lemma {:induction false} AppliedParts(s: seq<Entry>, ls: seq<Line>)
    ensures ApplyAll(s, ls) == Kept(s, ls) + ApplyAll([], ls)
  {
    if ls != [] {
      var front, l := ls[..|ls| - 1], ls[|ls| - 1];
      AppliedParts(s, front);
      if l.Del? {
        WithoutAppend(Kept(s, front), ApplyAll([], front), l.addr);
      }
    }
  }

  lemma {:induction false} WithoutNone(s: seq<Entry>, a: Mac)
    requires !Has(s, a)
    ensures Without(s, a) == s
  {
    if s != [] {
      var front, last := s[..|s| - 1], s[|s| - 1];
      assert last in s && forall e :: e in front ==> e in s;
      WithoutNone(front, a);
    }
  }

  lemma {:induction false} KeptAll(s: seq<Entry>, ls: seq<Line>)
    requires forall a :: Has(s, a) ==> Del(a) !in ls
    ensures Kept(s, ls) == s
  {
    hide Has, Without;
    if ls != [] {
      var front, l := ls[..|ls| - 1], ls[|ls| - 1];
      assert l in ls && forall m :: m in front ==> m in ls;
      KeptAll(s, front);
      if l.Del? {
        assert !Has(s, l.addr);
        WithoutNone(s, l.addr);
      }
    }
  }

  /** From nothing, the lines build up nothing exactly when no address is last mentioned by an addition. */
  lemma NothingBuilt(ls: seq<Line>)
    ensures ApplyAll([], ls) == [] <==> forall a :: LastMention(ls, a).Some? ==> LastMention(ls, a).value.Del?
  {
    var r := ApplyAll([], ls);
    forall a ensures Has(r, a) <==> LastMention(ls, a).Some? && LastMention(ls, a).value.Ins? {
      LastMentionWins([], ls, a);
    }
    LastIsMention(ls);
    hide ApplyAll, LastMention;
    if r == [] {
      assert forall a :: !Has(r, a);
    } else {
      var a := r[0].addr;
      assert r[0] in r;
      assert Has(r, a);
      assert LastMention(ls, a).Some? && !LastMention(ls, a).value.Del?;
    }
  }

  lemma {:induction false} LastIsMention(ls: seq<Line>)
    ensures forall a :: LastMention(ls, a).Some? ==> LastMention(ls, a).value.Ins? || LastMention(ls, a).value.Del?
  {
    if ls != [] {
      LastIsMention(ls[..|ls| - 1]);
    }
  }

  /**
   When lines leave a list unchanged, those before a bad one in particular: exactly when they put back the tail of it
   that they took away. If they remove no address of it, that is when no address is last mentioned by an addition.
   */
  lemma UnchangedExactly(s: seq<Entry>, ls: seq<Line>)
    ensures ApplyAll(s, ls) == s <==>
              |Kept(s, ls)| <= |s| && Kept(s, ls) == s[..|Kept(s, ls)|] && ApplyAll([], ls) == s[|Kept(s, ls)|..]
    ensures (forall a :: Has(s, a) ==> Del(a) !in ls) ==>
              (ApplyAll(s, ls) == s <==> forall a :: LastMention(ls, a).Some? ==> LastMention(ls, a).value.Del?)
  {
    AppliedParts(s, ls);
    var kept, built := Kept(s, ls), ApplyAll([], ls);
    assert (kept + built)[..|kept|] == kept && (kept + built)[|kept|..] == built;
    if forall a :: Has(s, a) ==> Del(a) !in ls {
      KeptAll(s, ls);
      NothingBuilt(ls);
      assert s + built == s <==> built == [] by { assert |s + built| == |s| + |built|; }
    }
    hide ApplyAll, Kept, LastMention, Has;
  }
}
