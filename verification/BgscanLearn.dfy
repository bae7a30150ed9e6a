/** The state of the learning background scanner, and the callbacks that change it. */
module BgscanLearn {
  import opened Seqs
  import opened Macs
  import opened Text
  import opened BgscanModel
  import BgscanFile
  import BgscanRaw
  import BgscanProbe

  class Learner {
    var bss: seq<Bss>
    var suppFreqs: seq<int>
    var probeIdx: nat
    const ssid: Ssid

    predicate Valid()
      reads this
    {
      suppFreqs != [] ==> BgscanProbe.IsCursor(suppFreqs, probeIdx)
    }

    constructor (ssid: Ssid, modes: seq<seq<BgscanProbe.Channel>>)
      ensures Valid() && bss == [] && this.ssid == ssid && probeIdx == 0
      ensures suppFreqs == BgscanProbe.Distinct(BgscanProbe.AllEnabled(modes))
      ensures 0 !in BgscanProbe.AllEnabled(modes) ==>
                0 !in suppFreqs && NoDup(suppFreqs) && Elems(suppFreqs) == Elems(BgscanProbe.AllEnabled(modes))
    {
      var freqs := BgscanProbe.GetSuppFreqs(modes);
      if 0 !in BgscanProbe.AllEnabled(modes) {
        BgscanProbe.DistinctExact(BgscanProbe.AllEnabled(modes));
      }
      bss, suppFreqs, probeIdx := [], freqs, 0;
      this.ssid := ssid;
    }

    method GetBss(b: Mac) returns (k: nat)
      ensures k == Position(bss, b)
    {
      k := 0;
      while k < |bss|
        invariant k <= |bss| && forall i :: 0 <= i < k ==> bss[i].bssid != b
      {
        if bss[k].bssid == b {
          break;
        }
        k := k + 1;
      }
      FirstPosition(bss, b, k);
    }

    method BssidInArray(ids: seq<Mac>, b: Mac) returns (found: bool)
      ensures found <==> b in ids
    {
      for i := 0 to |ids|
        invariant b !in ids[..i]
      {
        if ids[i] == b {
          return true;
        }
      }
      assert ids[..|ids|] == ids;
      return false;
    }

    method AddNeighborTo(k: nat, b: Mac)
      requires k < |bss|
      modifies this`bss
      ensures bss == old(bss)[k := AddNeighbor(old(bss)[k], b)]
    {
      if bss[k].bssid == b {
        return;
      }
      var met := BssidInArray(bss[k].neigh, b);
      if met {
        return;
      }
      bss := bss[k := bss[k].(neigh := bss[k].neigh + [b])];
    }

    /** Learn from the results of a scan. */
    method NotifyScan(results: seq<Res>)
      modifies this`bss
      ensures bss == Notified(old(bss), results, ssid)
      ensures WellFormed(old(bss)) ==>
                forall a :: Known(bss, a) <==> Known(old(bss), a) || BgscanRaw.Heard(results, ssid, a)
    {
      hide Learned, AddNeighbors, WellFormed, Known, BgscanRaw.Heard;
      ghost var was := bss;
      var ids := CollectIds(results);
      ghost var ms := Matching(results, ssid);
      assert results[..|results|] == results;
      for i := 0 to |results|
        invariant bss == LearnedAll(old(bss), ids, Matching(results[..i], ssid))
      {
        var res := results[i];
        assert results[..i + 1][..i] == results[..i];
        if res.ssid != Some(ssid) {
          continue;
        }
        LearnOne(res, ids);
        ghost var front := Matching(results[..i], ssid);
        assert (front + [res])[..|front|] == front;
      }
      if WellFormed(was) {
        forall a ensures Known(bss, a) <==> Known(was, a) || BgscanRaw.Heard(results, ssid, a) {
          BgscanRaw.LearnedExactly(was, results, ssid, a);
        }
      }
    }

    /** The first fifty BSSIDs of this network in a scan. */
    method CollectIds(results: seq<Res>) returns (ids: seq<Mac>)
      ensures ids == FirstIds(Matching(results, ssid))
    {
      ids := [];
      assert results[..|results|] == results;
      for i := 0 to |results|
        invariant ids == FirstIds(Matching(results[..i], ssid))
      {
        ghost var front := Matching(results[..i], ssid);
        assert results[..i + 1][..i] == results[..i];
        if results[i].ssid != Some(ssid) {
          continue;
        }
        if |ids| < MAX_BSS {
          ids := ids + [results[i].bssid];
        } else {
          assert (front + [results[i]])[..MAX_BSS] == front[..MAX_BSS];
        }
      }
    }

    method LearnOne(res: Res, ids: seq<Mac>)
      modifies this`bss
      ensures bss == Learned(old(bss), ids, res)
    {
      var k := GetBss(res.bssid);
      if k < |bss| {
        if bss[k].freq != res.freq {
          bss := bss[k := bss[k].(freq := res.freq)];
        }
      } else {
        bss := [Bss(res.bssid, res.freq, [])] + bss;
        k := 0;
      }
      assert bss == Entered(old(bss), res);
      ghost var entered := bss;
      SamePosition(old(bss), res, k);
      for j := 0 to |ids|
        invariant k < |entered| && bss == entered[k := AddNeighbors(entered[k], ids[..j])]
      {
        assert ids[..j + 1][..j] == ids[..j];
        AddNeighborTo(k, ids[j]);
      }
      assert ids[..|ids|] == ids;
    }

    /** The frequencies on which the network has been seen. */
    method GetFreqs() returns (freqs: seq<int>)
      ensures freqs == BgscanProbe.Distinct(Freqs(bss))
    {
      freqs := [];
      assert bss[..|bss|] == bss;
      for i := 0 to |bss|
        invariant freqs == BgscanProbe.Distinct(Freqs(bss[..i]))
      {
        assert Freqs(bss[..i + 1])[..i] == Freqs(bss[..i]);
        var listed := BgscanProbe.InArray(freqs, bss[i].freq);
        if listed {
          continue;
        }
        freqs := freqs + [bss[i].freq];
      }
    }

    /**
     The frequencies of the next scan: the known ones and one to probe. The probe is part of the scan exactly when
     no access point was learned on frequency 0, which would end the list before it.
     */
    method NextScan() returns (freqs: seq<int>, ghost pick: Option<nat>)
      requires Valid()
      modifies this`probeIdx
      ensures Valid()
      ensures pick.Some? ==> pick.value < |suppFreqs|
      ensures freqs == BgscanProbe.Distinct(Freqs(bss)) + if pick.Some? then [suppFreqs[pick.value]] else []
      ensures suppFreqs == [] ==> pick == None && probeIdx == old(probeIdx)
      ensures suppFreqs != [] && suppFreqs[0] != 0 ==> Probes(suppFreqs, bss, old(probeIdx), pick, probeIdx)
      ensures suppFreqs != [] && suppFreqs[0] == 0 ==>
                BgscanProbe.ProbesPastZero(suppFreqs, old(probeIdx),
                  Elems(BgscanProbe.Visible(BgscanProbe.Distinct(Freqs(bss)))), pick, probeIdx)
      ensures pick.Some? && suppFreqs[pick.value] != 0 ==>
                (suppFreqs[pick.value] in BgscanProbe.Visible(freqs) <==> 0 !in Freqs(bss))
    {
      freqs := GetFreqs();
      if suppFreqs == [] {
        return freqs, None;
      }
      ghost var known := freqs;
      freqs, probeIdx, pick := BgscanProbe.GetProbeFreq(suppFreqs, probeIdx, freqs);
      if pick.Some? && suppFreqs[pick.value] != 0 {
        BgscanProbe.ProbeIsScanned(known, suppFreqs[pick.value]);
        BgscanProbe.DistinctZero(Freqs(bss));
      }
    }

    /** Take over what a data file says; a file without the header is refused. */
    method Load(content: string) returns (ok: bool)
      modifies this`bss
      ensures ok <==> BgscanFile.Loaded(content).Some?
      ensures bss == if ok then BgscanFile.LinesLoaded(old(bss), Lines(content)[1..]) else old(bss)
    {
      var lines := Lines(content);
      if lines == [] || !StartsWith(lines[0], BgscanFile.HEADER) {
        return false;
      }
      var rest := lines[1..];
      for i := 0 to |rest|
        invariant bss == BgscanFile.LinesLoaded(old(bss), rest[..i])
      {
        assert rest[..i + 1][..i] == rest[..i];
        LoadLine(rest[i]);
      }
      assert rest[..|rest|] == rest;
      return true;
    }

    method LoadLine(line: string)
      modifies this`bss
      ensures bss == BgscanFile.LineLoaded(old(bss), line)
    {
      if StartsWith(line, "BSS ") {
        var addr := HwaddrAton(line, 4);
        if addr.None? {
          return;
        }
        bss := [Bss(addr.value, AtoiInt(From(line, 4 + 18)), [])] + bss;
      }
      if StartsWith(line, "NEIGHBOR ") {
        assert line[..4] == line[..9][..4] == "NEIG";
        var addr := HwaddrAton(line, 9);
        if addr.None? {
          return;
        }
        var k := GetBss(addr.value);
        if k == |bss| {
          return;
        }
        addr := HwaddrAton(line, 9 + 18);
        if addr.None? {
          return;
        }
        AddNeighborTo(k, addr.value);
      }
    }

    /** Write everything down: first all access points, then all neighbours. */
    method Save() returns (content: string)
      ensures content == BgscanFile.Saved(bss)
    {
      hide BgscanFile.BssLines, BgscanFile.NeighborLines;
      var first := SaveBsses();
      var second := SaveAllNeighbors();
      ConcatAppend([BgscanFile.HEADER] + BgscanFile.BssLines(bss), BgscanFile.NeighborLines(bss));
      ConcatAppend([BgscanFile.HEADER], BgscanFile.BssLines(bss));
      return BgscanFile.HEADER + first + second;
    }

    method SaveBsses() returns (lines: string)
      ensures lines == Concat(BgscanFile.BssLines(bss))
    {
      hide BgscanFile.BssLines, BgscanFile.BssLine, Concat;
      lines := "";
      ghost var rest := Concat(BgscanFile.BssLines(bss));
      assert bss[0..] == bss;
      for i := 0 to |bss|
        invariant rest == Concat(BgscanFile.BssLines(bss[i..]))
        invariant lines + rest == Concat(BgscanFile.BssLines(bss))
      {
        NextBssLine(bss, i);
        rest := Concat(BgscanFile.BssLines(bss[i + 1..]));
        assert lines + (BgscanFile.BssLine(bss[i]) + rest) == (lines + BgscanFile.BssLine(bss[i])) + rest;
        lines := lines + BgscanFile.BssLine(bss[i]);
      }
      NoMoreLines();
      assert bss[|bss|..] == [] && lines + "" == lines;
    }

    method SaveAllNeighbors() returns (lines: string)
      ensures lines == Concat(BgscanFile.NeighborLines(bss))
    {
      hide BgscanFile.NeighborLines, BgscanFile.LinesOf, Concat;
      lines := "";
      ghost var rest := Concat(BgscanFile.NeighborLines(bss));
      assert bss[0..] == bss;
      for i := 0 to |bss|
        invariant rest == Concat(BgscanFile.NeighborLines(bss[i..]))
        invariant lines + rest == Concat(BgscanFile.NeighborLines(bss))
      {
        NextNeighborLines(bss, i);
        rest := Concat(BgscanFile.NeighborLines(bss[i + 1..]));
        var more := SaveNeighbors(bss[i]);
        assert lines + (more + rest) == (lines + more) + rest;
        lines := lines + more;
      }
      NoMoreLines();
      assert bss[|bss|..] == [] && lines + "" == lines;
    }

    method SaveNeighbors(e: Bss) returns (lines: string)
      ensures lines == Concat(BgscanFile.LinesOf(e.bssid, e.neigh))
    {
      lines := "";
      for j := 0 to |e.neigh|
        invariant lines == Concat(BgscanFile.LinesOf(e.bssid, e.neigh[..j]))
      {
        assert e.neigh[..j + 1][..j] == e.neigh[..j];
        ConcatAppend(BgscanFile.LinesOf(e.bssid, e.neigh[..j]), [BgscanFile.NeighborLine(e.bssid, e.neigh[j])]);
        lines := lines + BgscanFile.NeighborLine(e.bssid, e.neigh[j]);
      }
      assert e.neigh[..|e.neigh|] == e.neigh;
    }
  }

  function Freqs(list: seq<Bss>): (r: seq<int>)
    ensures |r| == |list|
  {
    seq(|list|, i requires 0 <= i < |list| => list[i].freq as int)
  }

  lemma NextNeighborLines(list: seq<Bss>, i: int)
    requires 0 <= i < |list|
    ensures Concat(BgscanFile.NeighborLines(list[i..]))
            == Concat(BgscanFile.LinesOf(list[i].bssid, list[i].neigh)) + Concat(BgscanFile.NeighborLines(list[i + 1..]))
  {
    assert list[i..][1..] == list[i + 1..];
    ConcatAppend(BgscanFile.LinesOf(list[i].bssid, list[i].neigh), BgscanFile.NeighborLines(list[i + 1..]));
  }

  lemma NoMoreLines()
    ensures Concat(BgscanFile.NeighborLines([])) == "" && Concat(BgscanFile.BssLines([])) == ""
  {
  }

  lemma NextBssLine(list: seq<Bss>, i: int)
    requires 0 <= i < |list|
    ensures Concat(BgscanFile.BssLines(list[i..])) == BgscanFile.BssLine(list[i]) + Concat(BgscanFile.BssLines(list[i + 1..]))
  {
    assert list[i..][1..] == list[i + 1..];
  }

  lemma FirstPosition(list: seq<Bss>, b: Mac, k: int)
    requires 0 <= k <= |list| && (forall i :: 0 <= i < k ==> list[i].bssid != b)
    requires k < |list| ==> list[k].bssid == b
    ensures Position(list, b) == k
  {
  }

  /** The entry that was found or made is the one found afterwards. */
  lemma SamePosition(list: seq<Bss>, res: Res, k: int)
    requires k == if Position(list, res.bssid) < |list| then Position(list, res.bssid) else 0
    ensures Position(Entered(list, res), res.bssid) == k < |Entered(list, res)|
  {
    FirstPosition(Entered(list, res), res.bssid, k);
  }

  lemma {:induction false} ConcatAppend(x: seq<string>, y: seq<string>)
    ensures Concat(x + y) == Concat(x) + Concat(y)
  {
    if x == [] {
      assert x + y == y;
    } else {
      assert (x + y)[1..] == x[1..] + y;
      ConcatAppend(x[1..], y);
    }
  }

  // ---- Who gets scanned ----

  /** The probe rule with the frequencies learned so far as the known ones. */
  ghost predicate Probes(supp: seq<int>, list: seq<Bss>, idx: nat, pick: Option<nat>, idx': nat) {
    BgscanProbe.Probes(BgscanProbe.Visible(supp), idx, Elems(BgscanProbe.Visible(BgscanProbe.Distinct(Freqs(list)))), pick, idx')
  }

  /** Consecutive scans: `lists` is what was learned before each of them, in whatever way, and `scans` what they cover. */
  ghost predicate ScanRounds(supp: seq<int>, idxs: seq<nat>, lists: seq<seq<Bss>>, picks: seq<Option<nat>>, scans: seq<seq<int>>) {
    && |idxs| == |lists| + 1 && |picks| == |lists| == |scans|
    && (forall i :: 0 <= i < |idxs| ==> idxs[i] < |BgscanProbe.Visible(supp)|)
    && (forall i :: 0 <= i < |lists| ==> Probes(supp, lists[i], idxs[i], picks[i], idxs[i + 1]))
    && (forall i :: 0 <= i < |lists| ==>
          scans[i] == BgscanProbe.Distinct(Freqs(lists[i]))
            + if picks[i].Some? && picks[i].value < |supp| then [supp[picks[i].value]] else [])
  }

  /** Without access points learned on frequency 0, n scans in a row cover each of the n supported frequencies. */
  lemma ScannedWithinN(supp: seq<int>, idxs: seq<nat>, lists: seq<seq<Bss>>, picks: seq<Option<nat>>, scans: seq<seq<int>>, f: int)
    requires ScanRounds(supp, idxs, lists, picks, scans)
    requires f in BgscanProbe.Visible(supp) && |lists| == |BgscanProbe.Visible(supp)|
    requires forall i :: 0 <= i < |lists| ==> 0 !in Freqs(lists[i])
    ensures exists i :: 0 <= i < |scans| && f in BgscanProbe.Visible(scans[i])
  {
    var vis := BgscanProbe.Visible(supp);
    BgscanProbe.VisiblePrefix(supp);
    BgscanProbe.VisibleAll(supp);
    var knowns := KnownSets(lists);
    if i :| 0 <= i < |lists| && f in knowns[i] {
      Covers(lists[i], scans[i], f);
    } else {
      assert BgscanProbe.Rounds(vis, idxs, knowns, picks);
      BgscanProbe.FairWithinN(vis, idxs, knowns, picks, f);
      var i, k :| 0 <= i < |picks| && 0 <= k < |vis| && picks[i] == Some(k) && vis[k] == f;
      Covers(lists[i], scans[i], f);
    }
  }

  ghost function KnownSets(lists: seq<seq<Bss>>): (r: seq<set<int>>)
    ensures |r| == |lists|
    ensures forall i :: 0 <= i < |lists| ==> r[i] == Elems(BgscanProbe.Visible(BgscanProbe.Distinct(Freqs(lists[i]))))
  {
    seq(|lists|, i requires 0 <= i < |lists| => Elems(BgscanProbe.Visible(BgscanProbe.Distinct(Freqs(lists[i])))))
  }

  /** A scan covers the known frequencies and the one behind them. */
  lemma Covers(list: seq<Bss>, scan: seq<int>, f: int)
    requires 0 !in Freqs(list) && f != 0
    requires var known := BgscanProbe.Distinct(Freqs(list));
             scan == known + [f] || (f in BgscanProbe.Visible(known) && known <= scan)
    ensures f in BgscanProbe.Visible(scan)
  {
    var known := BgscanProbe.Distinct(Freqs(list));
    BgscanProbe.DistinctZero(Freqs(list));
    BgscanProbe.VisibleAll(known);
    if scan == known + [f] {
      BgscanProbe.VisibleAppend(known, f);
      assert (known + [f])[|known|] == f;
    } else {
      BgscanProbe.VisibleStarts(known, scan);
    }
  }

  /** A data file whose BSS line lacks the frequency does that: from then on the list hides every probe. */
  lemma ShortLineHidesProbes(m: Mac, f: int)
    requires f != 0
    ensures var loaded := BgscanFile.Loaded(BgscanFile.HEADER + "BSS " + MacText(m) + "\n");
            && loaded.Some?
            && f !in BgscanProbe.Visible(BgscanProbe.Distinct(Freqs(loaded.value)) + [f])
  {
    BgscanFile.ShortLineLoads(m);
    hide BgscanFile.Loaded, MacText, BgscanProbe.Distinct, BgscanProbe.Visible;
    assert Freqs([Bss(m, 0, [])]) == [0];
    BgscanProbe.OnlyZero(f);
  }
}
