/** The data file of the learning background scanner: what is written, what is read, and that it comes back. */
module BgscanFile {
  import opened Seqs
  import opened Macs
  import opened Text
  import opened BgscanModel

  const HEADER := "wpa_supplicant-bgscan-learn\n"

  function BssLine(e: Bss): string {
    "BSS " + MacText(e.bssid) + " " + IntText(e.freq) + "\n"
  }

  function NeighborLine(a: Mac, b: Mac): string {
    "NEIGHBOR " + MacText(a) + " " + MacText(b) + "\n"
  }

  function BssLines(list: seq<Bss>): seq<string> {
    if list == [] then [] else [BssLine(list[0])] + BssLines(list[1..])
  }

  function LinesOf(a: Mac, bs: seq<Mac>): seq<string> {
    if bs == [] then [] else LinesOf(a, bs[..|bs| - 1]) + [NeighborLine(a, bs[|bs| - 1])]
  }

  function NeighborLines(list: seq<Bss>): seq<string> {
    if list == [] then [] else LinesOf(list[0].bssid, list[0].neigh) + NeighborLines(list[1..])
  }

  function SavedLines(list: seq<Bss>): seq<string> {
    [HEADER] + BssLines(list) + NeighborLines(list)
  }

  function Saved(list: seq<Bss>): string {
    Concat(SavedLines(list))
  }

  // ---- Reading ----

  function BssLoaded(list: seq<Bss>, line: string): seq<Bss> {
    var m := HwaddrAton(line, 4);
    if m.None? then list else [Bss(m.value, AtoiInt(From(line, 4 + 18)), [])] + list
  }

  function NeighborLoaded(list: seq<Bss>, line: string): seq<Bss> {
    var a := HwaddrAton(line, 9);
    if a.None? then list
    else
      var k := Position(list, a.value);
      var b := HwaddrAton(line, 9 + 18);
      if k == |list| || b.None? then list else list[k := AddNeighbor(list[k], b.value)]
  }

  function LineLoaded(list: seq<Bss>, line: string): seq<Bss> {
    if StartsWith(line, "BSS ") then BssLoaded(list, line)
    else if StartsWith(line, "NEIGHBOR ") then NeighborLoaded(list, line)
    else list
  }

  function LinesLoaded(list: seq<Bss>, lines: seq<string>): seq<Bss> {
    if lines == [] then list else LineLoaded(LinesLoaded(list, lines[..|lines| - 1]), lines[|lines| - 1])
  }

  /** The list a data file stands for, or None when the file is not one. */
  function Loaded(content: string): Option<seq<Bss>> {
    var lines := Lines(content);
    if lines == [] || !StartsWith(lines[0], HEADER) then None else Some(LinesLoaded([], lines[1..]))
  }

  // ---- One line ----

  lemma BssLineReads(e: Bss)
    ensures StartsWith(BssLine(e), "BSS ")
    ensures HwaddrAton(BssLine(e), 4) == Some(e.bssid)
    ensures AtoiInt(From(BssLine(e), 22)) == e.freq
  {
    var l := BssLine(e);
    assert l[4..4 + MAC_TEXT_LEN] == MacText(e.bssid);
    MacReads(l, 4, e.bssid);
    assert l[22..] == IntText(e.freq) + "\n";
    IntReads(e.freq, "\n");
  }

  lemma NeighborLineReads(a: Mac, b: Mac)
    ensures StartsWith(NeighborLine(a, b), "NEIGHBOR ") && !StartsWith(NeighborLine(a, b), "BSS ")
    ensures HwaddrAton(NeighborLine(a, b), 9) == Some(a)
    ensures HwaddrAton(NeighborLine(a, b), 27) == Some(b)
  {
    var l := NeighborLine(a, b);
    assert l[9..9 + MAC_TEXT_LEN] == MacText(a);
    MacReads(l, 9, a);
    assert l[27..27 + MAC_TEXT_LEN] == MacText(b);
    MacReads(l, 27, b);
    assert l[..4] == "NEIG" && l[0] != 'B';
  }

  lemma BssLineIsLine(e: Bss)
    ensures IsLine(BssLine(e))
  {
    OctetsAreOneLine(e.bssid);
    IntIsOneLine(e.freq);
    Int32TextLength(e.freq);
    var l := BssLine(e);
    assert l[..|l| - 1] == "BSS " + MacText(e.bssid) + " " + IntText(e.freq);
  }

  lemma NeighborLineIsLine(a: Mac, b: Mac)
    ensures IsLine(NeighborLine(a, b))
  {
    OctetsAreOneLine(a);
    OctetsAreOneLine(b);
    var l := NeighborLine(a, b);
    assert l[..|l| - 1] == "NEIGHBOR " + MacText(a) + " " + MacText(b);
  }

  // ---- All lines ----

  lemma {:induction false} LoadedAppend(list: seq<Bss>, x: seq<string>, y: seq<string>)
    ensures LinesLoaded(list, x + y) == LinesLoaded(LinesLoaded(list, x), y)
  {
    if y == [] {
      assert x + y == x;
    } else {
      assert (x + y)[..|x + y| - 1] == x + y[..|y| - 1];
      LoadedAppend(list, x, y[..|y| - 1]);
    }
  }

  function Bare(e: Bss): Bss {
    e.(neigh := [])
  }

  /** The entries of `list` reversed, with neighbours for the first `m` of them only. */
  function Half(list: seq<Bss>, m: int): (r: seq<Bss>)
    requires 0 <= m <= |list|
    ensures |r| == |list|
    ensures forall x :: 0 <= x < |list| ==>
              r[x] == if |list| - 1 - x < m then list[|list| - 1 - x] else Bare(list[|list| - 1 - x])
  {
    if list == [] then []
    else Half(list[1..], if m > 0 then m - 1 else 0) + [if m > 0 then list[0] else Bare(list[0])]
  }

  function Reversed(list: seq<Bss>): seq<Bss> {
    if list == [] then [] else Reversed(list[1..]) + [list[0]]
  }

  lemma {:induction false} HalfAll(list: seq<Bss>)
    ensures Half(list, |list|) == Reversed(list)
  {
    if list != [] {
      HalfAll(list[1..]);
    }
  }

  /** The BSS lines bring back the bare entries, each put in front of those before it. */
  lemma {:induction false} BssLinesLoad(list: seq<Bss>, before: seq<Bss>)
    ensures LinesLoaded(before, BssLines(list)) == Half(list, 0) + before
  {
    hide LinesLoaded, LineLoaded, BssLine, Bare;
    if list == [] {
      NoLines(before);
    } else {
      var l, rest := BssLine(list[0]), BssLines(list[1..]);
      LoadedAppend(before, [l], rest);
      LoadedOne(before, l);
      BssLineLoads(list[0], before);
      BssLinesLoad(list[1..], [Bare(list[0])] + before);
      assert Half(list[1..], 0) + ([Bare(list[0])] + before) == Half(list, 0) + before;
    }
  }

  lemma NoLines(list: seq<Bss>)
    ensures LinesLoaded(list, []) == list
  {
  }

  lemma LoadedOne(list: seq<Bss>, l: string)
    ensures LinesLoaded(list, [l]) == LineLoaded(list, l)
  {
    assert [l][..0] == [];
    NoLines(list);
  }

  lemma BssLineLoads(e: Bss, before: seq<Bss>)
    ensures LineLoaded(before, BssLine(e)) == [Bare(e)] + before
  {
    hide BssLine;
    BssLineReads(e);
  }

  /** The neighbour lines of one entry add its neighbours, in order. */
  lemma {:induction false} LinesOfLoad(list: seq<Bss>, k: int, bs: seq<Mac>)
    requires WellFormed(list) && 0 <= k < |list|
    ensures LinesLoaded(list, LinesOf(list[k].bssid, bs)) == list[k := AddNeighbors(list[k], bs)]
  {
    var a := list[k].bssid;
    if bs != [] {
      var front, b := bs[..|bs| - 1], bs[|bs| - 1];
      LinesOfLoad(list, k, front);
      var lines := LinesOf(a, bs);
      assert lines[..|lines| - 1] == LinesOf(a, front);
      NeighborLineReads(a, b);
      NeighborsAdded(list[k], front);
      SetKeeps(list, k, AddNeighbors(list[k], front), a);
      PositionIs(list, a, k);
    }
  }

  lemma {:induction false} AddOwnNeighbors(e: Bss, n: int)
    requires NoDup(e.neigh) && e.bssid !in e.neigh && 0 <= n <= |e.neigh|
    ensures AddNeighbors(Bare(e), e.neigh[..n]) == e.(neigh := e.neigh[..n])
  {
    if n > 0 {
      AddOwnNeighbors(e, n - 1);
      assert e.neigh[..n][..n - 1] == e.neigh[..n - 1];
      assert e.neigh[n - 1] !in e.neigh[..n - 1];
      assert e.neigh[..n] == e.neigh[..n - 1] + [e.neigh[n - 1]];
      assert e.neigh[n - 1] in e.neigh;
    }
  }

  lemma HalfWellFormed(list: seq<Bss>, m: int)
    requires WellFormed(list) && 0 <= m <= |list|
    ensures WellFormed(Half(list, m))
  {
    assert NoDup<Mac>([]);
  }

  /** The neighbour lines of the entries from `m` on complete them one after the other. */
  lemma {:induction false} NeighborLinesLoad(list: seq<Bss>, m: int)
    requires WellFormed(list) && 0 <= m <= |list|
    ensures LinesLoaded(Half(list, m), NeighborLines(list[m..])) == Half(list, |list|)
    decreases |list| - m
  {
    hide LinesLoaded, LinesOf, Half, WellFormed;
    if m == |list| {
      NoLines(Half(list, m));
    } else {
      var e := list[m];
      assert list[m..][1..] == list[m + 1..];
      LoadedAppend(Half(list, m), LinesOf(e.bssid, e.neigh), NeighborLines(list[m + 1..]));
      EntryLinesLoad(list, m);
      NeighborLinesLoad(list, m + 1);
    }
  }

  lemma EntryLinesLoad(list: seq<Bss>, m: int)
    requires WellFormed(list) && 0 <= m < |list|
    ensures LinesLoaded(Half(list, m), LinesOf(list[m].bssid, list[m].neigh)) == Half(list, m + 1)
  {
    var e, k := list[m], |list| - 1 - m;
    HalfWellFormed(list, m);
    AddOwnNeighbors(e, |e.neigh|);
    hide LinesLoaded, LinesOf, WellFormed;
    assert Half(list, m)[k] == Bare(e);
    LinesOfLoad(Half(list, m), k, e.neigh);
    assert e.neigh[..|e.neigh|] == e.neigh;
    NextHalf(list, m);
  }

  lemma NextHalf(list: seq<Bss>, m: int)
    requires 0 <= m < |list|
    ensures Half(list, m + 1) == Half(list, m)[|list| - 1 - m := list[m]]
  {
  }

  lemma {:induction false} SavedLinesAreLines(list: seq<Bss>)
    ensures forall l :: l in BssLines(list) ==> IsLine(l)
    ensures forall l :: l in NeighborLines(list) ==> IsLine(l)
  {
    if list != [] {
      BssLineIsLine(list[0]);
      LinesOfAreLines(list[0].bssid, list[0].neigh);
      SavedLinesAreLines(list[1..]);
    }
  }

  lemma {:induction false} LinesOfAreLines(a: Mac, bs: seq<Mac>)
    ensures forall l :: l in LinesOf(a, bs) ==> IsLine(l)
  {
    if bs != [] {
      LinesOfAreLines(a, bs[..|bs| - 1]);
      NeighborLineIsLine(a, bs[|bs| - 1]);
    }
  }

  /** Saving and loading rebuilds the entries with frequencies and neighbours, in reverse order. */
  lemma SaveLoad(list: seq<Bss>)
    requires WellFormed(list)
    ensures Loaded(Saved(list)) == Some(Reversed(list))
  {
    hide WellFormed, Half, Reversed, LinesLoaded, BssLines, NeighborLines, Lines, Concat, IsLine;
    FileReads(list);
    LoadedAppend([], BssLines(list), NeighborLines(list));
    BssLinesLoad(list, []);
    assert Half(list, 0) + [] == Half(list, 0);
    assert list[0..] == list;
    NeighborLinesLoad(list, 0);
    HalfAll(list);
  }

  /** The written file is read line by line as it was written. */
  lemma FileReads(list: seq<Bss>)
    ensures var lines := Lines(Saved(list));
            && lines != [] && StartsWith(lines[0], HEADER) && lines[1..] == BssLines(list) + NeighborLines(list)
  {
    hide BssLines, NeighborLines, Lines, Concat;
    SavedLinesAreLines(list);
    HeaderIsLine();
    var lines := SavedLines(list);
    LinesRead(lines);
    assert lines[0] == HEADER && lines[1..] == BssLines(list) + NeighborLines(list);
    assert HEADER[..|HEADER|] == HEADER;
  }

  /** A BSS line that ends after the address is taken for frequency 0. */
  lemma ShortLineLoads(m: Mac)
    ensures Loaded(HEADER + "BSS " + MacText(m) + "\n") == Some([Bss(m, 0, [])])
  {
    hide MacText, Lines, Concat, IsLine, LinesLoaded, LineLoaded;
    var line := "BSS " + MacText(m) + "\n";
    ShortLineReads(m, line);
    HeaderIsLine();
    LinesRead([HEADER, line]);
    TwoLines(HEADER, line);
    assert HEADER + line == HEADER + "BSS " + MacText(m) + "\n";
    assert [HEADER, line][1..] == [line];
    LoadedOne([], line);
  }

  lemma HeaderIsLine()
    ensures IsLine(HEADER) && StartsWith(HEADER, HEADER)
  {
    assert |HEADER| == 28 && HEADER[27] == '\n' && HEADER[..28] == HEADER;
  }

  lemma TwoLines(x: string, y: string)
    ensures Concat([x, y]) == x + y
  {
    assert [x, y][1..] == [y] && [y][1..] == [];
    assert Concat([y]) == y + Concat([]) && Concat([]) == "";
    assert y + "" == y;
  }

  lemma ShortLineReads(m: Mac, line: string)
    requires line == "BSS " + MacText(m) + "\n"
    ensures IsLine(line) && LineLoaded([], line) == [Bss(m, 0, [])]
  {
    OctetsAreOneLine(m);
    assert line[..|line| - 1] == "BSS " + MacText(m);
    assert line[4..4 + MAC_TEXT_LEN] == MacText(m);
    MacReads(line, 4, m);
    assert From(line, 22) == "";
    assert line[..4] == "BSS ";
  }

  // ---- Sessions ----

  /** Reversing the list changes nothing about who is known, whose neighbours they are and on which frequency. */
  lemma ReversedSame(list: seq<Bss>, a: Mac)
    requires WellFormed(list)
    ensures var r := Reversed(list);
            && WellFormed(r)
            && (Known(r, a) <==> Known(list, a))
            && Neighbors(r, a) == Neighbors(list, a)
            && FreqOf(r, a) == FreqOf(list, a)
  {
    var r, n := Half(list, |list|), |list|;
    HalfAll(list);
    HalfWellFormed(list, n);
    KnownPosition(list, a);
    KnownPosition(r, a);
    hide WellFormed, Position, Half, Reversed, Known;
    var k := Position(list, a);
    assert forall x :: 0 <= x < n ==> r[x] == list[n - 1 - x];
    if k < n {
      assert r[n - 1 - k] == list[k];
      PositionIs(r, a, n - 1 - k);
    }
  }

  lemma ReversedInvariant(list: seq<Bss>)
    requires Invariant(list)
    ensures Invariant(Reversed(list))
  {
    var r := Reversed(list);
    ReversedSame(list, [0, 0, 0, 0, 0, 0]);
    hide WellFormed, Known, Neighbors, Reversed, FreqOf;
    forall a ensures (Known(r, a) <==> Known(list, a)) && Neighbors(r, a) == Neighbors(list, a) {
      ReversedSame(list, a);
    }
    forall a, b | b in Neighbors(r, a) ensures a in Neighbors(r, b) && b != a && Known(r, b) {
      assert b in Neighbors(list, a);
    }
  }

  /** What a new session starts with, when the one before saved `list`. */
  function Restart(list: seq<Bss>): seq<Bss> {
    var loaded := Loaded(Saved(list));
    if loaded.Some? then loaded.value else []
  }

  /** The list at the end of some sessions, each of which loads what the one before saved, and then learns from scans. */
  function AfterSessions(sessions: seq<seq<seq<Res>>>, ssid: Ssid): seq<Bss> {
    if sessions == [] then []
    else AfterScans(Restart(AfterSessions(sessions[..|sessions| - 1], ssid)), sessions[|sessions| - 1], ssid)
  }

  lemma {:induction false} SessionsWellFormed(sessions: seq<seq<seq<Res>>>, ssid: Ssid)
    ensures WellFormed(AfterSessions(sessions, ssid))
  {
    NothingLearned();
    hide WellFormed, Saved, Loaded, Reversed;
    if sessions != [] {
      var before := AfterSessions(sessions[..|sessions| - 1], ssid);
      SessionsWellFormed(sessions[..|sessions| - 1], ssid);
      SaveLoad(before);
      ReversedSame(before, [0, 0, 0, 0, 0, 0]);
      RunWellFormed(Restart(before), sessions[|sessions| - 1], ssid);
    }
  }

  /** What any sessions have learned survives the next restart. */
  lemma LearnedSurvives(sessions: seq<seq<seq<Res>>>, ssid: Ssid)
    ensures Loaded(Saved(AfterSessions(sessions, ssid))) == Some(Reversed(AfterSessions(sessions, ssid)))
  {
    SessionsWellFormed(sessions, ssid);
    SaveLoad(AfterSessions(sessions, ssid));
  }

  /** Over any number of sessions with at most fifty results in each scan, the relation stays in order. */
  lemma {:induction false} SessionsInvariant(sessions: seq<seq<seq<Res>>>, ssid: Ssid)
    requires forall i :: 0 <= i < |sessions| ==> AtMostFifty(sessions[i], ssid)
    ensures Invariant(AfterSessions(sessions, ssid))
  {
    NothingLearned();
    hide WellFormed, Saved, Loaded, Reversed, AtMostFifty;
    if sessions != [] {
      var before := AfterSessions(sessions[..|sessions| - 1], ssid);
      SessionsInvariant(sessions[..|sessions| - 1], ssid);
      SaveLoad(before);
      ReversedInvariant(before);
      RunInvariant(Restart(before), sessions[|sessions| - 1], ssid);
    }
  }

  // ---- A file ----

  lemma ChannelOne()
    ensures IntText(2412) == "2412"
  {
    assert NatText(2) == "2";
    assert NatText(24) == NatText(2) + "4" == "24";
    assert NatText(241) == NatText(24) + "1" == "241";
    assert NatText(2412) == NatText(241) + "2" == "2412";
  }

  /** One access point on channel 1 with one neighbour. */
  lemma SavedExample(a: Mac, b: Mac)
    ensures SavedLines([Bss(a, 2412, [b])]) ==
              ["wpa_supplicant-bgscan-learn\n", "BSS " + MacText(a) + " 2412\n", "NEIGHBOR " + MacText(a) + " " + MacText(b) + "\n"]
  {
    var e := Bss(a, 2412, [b]);
    ChannelOne();
    hide MacText, IntText;
    assert [e][1..] == [] && [b][..0] == [];
    assert BssLines([e]) == [BssLine(e)] + BssLines([]);
    assert LinesOf(a, [b]) == LinesOf(a, []) + [NeighborLine(a, b)] == [NeighborLine(a, b)];
    assert NeighborLines([e]) == LinesOf(a, [b]) + NeighborLines([]);
    assert " " + "2412" + "\n" == " 2412\n";
    hide BssLines, NeighborLines, LinesOf;
    assert BssLine(e) == "BSS " + MacText(a) + (" " + "2412" + "\n");
  }
}
