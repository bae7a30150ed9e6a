/** What any line of a learning scanner's data file does when it is loaded, by the text that stands in it. */
module BgscanLines {
  import opened Seqs
  import opened Macs
  import opened Text
  import opened TextForms
  import opened BgscanModel
  import opened BgscanFile

  /** A BSS line with an address adds it to the front with the number behind it; without one it does nothing. */
  lemma BssLineExactly(list: seq<Bss>, rest: string, m: Mac)
    ensures Spells(rest, 0, m) ==> LineLoaded(list, "BSS " + rest) == [Bss(m, AtoiInt(From(rest, 18)), [])] + list
    ensures (forall a :: !Spells(rest, 0, a)) ==> LineLoaded(list, "BSS " + rest) == list
  {
    var line := "BSS " + rest;
    assert line[..4] == "BSS ";
    FromBehind("BSS ", rest, 18);
    hide HwaddrAton, Spells, From, AtoiInt, NeighborLoaded;
    AddressBehind("BSS ", rest, 0, m);
    if HwaddrAton(line, 4).Some? {
      AddressBehind("BSS ", rest, 0, HwaddrAton(line, 4).value);
    }
  }

  /** The entries with the first one for `a` having met `b` as well. */
  ghost predicate Met(list: seq<Bss>, list': seq<Bss>, a: Mac, b: Mac) {
    |list'| == |list| &&
    exists k :: 0 <= k < |list| && list[k].bssid == a && (forall i :: 0 <= i < k ==> list[i].bssid != a)
             && list' == list[k := list'[k]]
             && list'[k].bssid == a && list'[k].freq == list[k].freq
             && list'[k].neigh == list[k].neigh + if a == b || b in list[k].neigh then [] else [b]
  }

  /** A NEIGHBOR line adds the second address to the neighbours of the first, which must be known already. */
  lemma NeighborLineExactly(list: seq<Bss>, rest: string, a: Mac, b: Mac)
    ensures Spells(rest, 0, a) && Spells(rest, 18, b) && Known(list, a) ==>
              Met(list, LineLoaded(list, "NEIGHBOR " + rest), a, b)
    ensures Spells(rest, 0, a) && !Known(list, a) ==> LineLoaded(list, "NEIGHBOR " + rest) == list
    ensures (forall x :: !Spells(rest, 0, x)) || (forall x :: !Spells(rest, 18, x)) ==>
              LineLoaded(list, "NEIGHBOR " + rest) == list
  {
    NeighborDispatch(list, rest);
    NeighborAddresses(rest, a, b);
    KnownPosition(list, a);
    hide HwaddrAton, Spells, Position, Known, LineLoaded, Met, AddNeighbor;
    if Spells(rest, 0, a) && Spells(rest, 18, b) && Known(list, a) {
      MetAt(list, Position(list, a), a, b);
    }
  }

  lemma NeighborDispatch(list: seq<Bss>, rest: string)
    ensures LineLoaded(list, "NEIGHBOR " + rest) == NeighborLoaded(list, "NEIGHBOR " + rest)
  {
    var line := "NEIGHBOR " + rest;
    assert line[..9] == "NEIGHBOR " && line[..4][0] == line[0] == 'N';
    hide NeighborLoaded;
  }

  lemma NeighborAddresses(rest: string, a: Mac, b: Mac)
    ensures var x, y := HwaddrAton("NEIGHBOR " + rest, 9), HwaddrAton("NEIGHBOR " + rest, 27);
            && (x == Some(a) <==> Spells(rest, 0, a)) && (y == Some(b) <==> Spells(rest, 18, b))
            && ((forall m :: !Spells(rest, 0, m)) ==> x.None?) && ((forall m :: !Spells(rest, 18, m)) ==> y.None?)
  {
    hide HwaddrAton, Spells;
    var x, y := HwaddrAton("NEIGHBOR " + rest, 9), HwaddrAton("NEIGHBOR " + rest, 27);
    AddressBehind("NEIGHBOR ", rest, 0, a);
    AddressBehind("NEIGHBOR ", rest, 18, b);
    if x.Some? {
      AddressBehind("NEIGHBOR ", rest, 0, x.value);
    }
    if y.Some? {
      AddressBehind("NEIGHBOR ", rest, 18, y.value);
    }
  }

  lemma MetAt(list: seq<Bss>, k: nat, a: Mac, b: Mac)
    requires k == Position(list, a) && k < |list|
    ensures Met(list, list[k := AddNeighbor(list[k], b)], a, b)
  {
    var list' := list[k := AddNeighbor(list[k], b)];
    assert list[k].neigh + [] == list[k].neigh;
    assert list' == list[k := list'[k]];
  }

  /** Every other line does nothing. */
  lemma OtherLineExactly(list: seq<Bss>, line: string)
    requires !(|line| >= 4 && line[..4] == "BSS ") && !(|line| >= 9 && line[..9] == "NEIGHBOR ")
    ensures LineLoaded(list, line) == list
  {
  }

  lemma FromBehind(p: string, s: string, at: nat)
    ensures From(p + s, |p| + at) == From(s, at)
  {
    if at <= |s| {
      assert (p + s)[|p| + at..] == s[at..];
    }
  }

  lemma OctetBehind(p: string, s: string, at: nat, b: Byte)
    ensures SpellsOctet(p + s, |p| + at, b) <==> SpellsOctet(s, at, b)
  {
    hide IsDigitFor;
    if at + 2 <= |s| {
      assert (p + s)[|p| + at] == s[at] && (p + s)[|p| + at + 1] == s[at + 1];
    }
  }

  lemma SpelledBehind(p: string, s: string, at: nat, m: Mac)
    ensures Spells(p + s, |p| + at, m) <==> Spells(s, at, m)
  {
    var t := p + s;
    hide SpellsOctet;
    forall i | 0 <= i < 6 ensures SpellsOctet(t, |p| + at + 3 * i, m[i]) <==> SpellsOctet(s, at + 3 * i, m[i]) {
      OctetBehind(p, s, at + 3 * i, m[i]);
    }
    forall i | 0 <= i < 5 && at + 3 * i + 2 < |s| ensures t[|p| + at + 3 * i + 2] == s[at + 3 * i + 2] {
    }
  }

  lemma AddressBehind(p: string, s: string, at: nat, m: Mac)
    ensures HwaddrAton(p + s, |p| + at) == Some(m) <==> Spells(s, at, m)
  {
    AddressExactly(p + s, |p| + at, m);
    SpelledBehind(p, s, at, m);
  }
}
