/**
 GSM triplets: a linked list that only grows at its head, and a cursor that makes requests rotate through
 the triplets of each subscriber.

 Nodes are named by the order in which they were inserted: node 0 is the tail, the newest node is the head,
 the node after `g` is `g - 1`, and -1 is the null pointer. Insertions rename nothing.
 */
module HlrTriplets {
  import opened Macs
  import opened Seqs
  import opened Bits

  const EAP_SIM_MAX_CHAL := 3

  datatype Triplet = Triplet(imsi: string, kc: seq<Byte>, sres: seq<Byte>, rand: seq<Byte>)

  predicate IsCursor(nodes: seq<Triplet>, p: int) {
    -1 <= p < |nodes|
  }

  /** The nodes for an IMSI that are met walking from `p` to the end of the list. */
  function Matches(nodes: seq<Triplet>, imsi: string, p: int): (r: seq<int>)
    requires IsCursor(nodes, p)
    decreases p + 1
  {
    if p == -1 then []
    else if nodes[p].imsi == imsi then [p] + Matches(nodes, imsi, p - 1)
    else Matches(nodes, imsi, p - 1)
  }

  lemma {:induction false} MatchesMeaning(nodes: seq<Triplet>, imsi: string, p: int)
    requires IsCursor(nodes, p)
    ensures forall g :: g in Matches(nodes, imsi, p) <==> 0 <= g <= p && nodes[g].imsi == imsi
    ensures NoDup(Matches(nodes, imsi, p))
    ensures Matches(nodes, imsi, p) != [] ==> Matches(nodes, imsi, p)[0] in Matches(nodes, imsi, p)
    decreases p + 1
  {
    if p >= 0 {
      MatchesMeaning(nodes, imsi, p - 1);
    }
  }

  function All(nodes: seq<Triplet>, imsi: string): seq<int> {
    Matches(nodes, imsi, |nodes| - 1)
  }

  /** The order in which the cursor visits the subscriber's nodes: those ahead of it, then the others from the head. */
  function Round(nodes: seq<Triplet>, imsi: string, p: int): seq<int>
    requires IsCursor(nodes, p)
  {
    Matches(nodes, imsi, p) + Above(nodes, imsi, p, |nodes| - 1)
  }

  lemma {:induction false} MatchesSuffix(nodes: seq<Triplet>, imsi: string, p: int, q: int)
    requires IsCursor(nodes, p) && IsCursor(nodes, q) && p <= q
    ensures |Matches(nodes, imsi, p)| <= |Matches(nodes, imsi, q)|
    ensures Matches(nodes, imsi, q) == Above(nodes, imsi, p, q) + Matches(nodes, imsi, p)
    decreases q - p
  {
    if p < q {
      MatchesSuffix(nodes, imsi, p, q - 1);
      var a, c := Matches(nodes, imsi, p), Matches(nodes, imsi, q - 1);
      var k := |c| - |a|;
      if nodes[q].imsi == imsi {
        assert ([q] + c)[..k + 1] == [q] + c[..k];
        assert [q] + c == [q] + (c[..k] + a);
      }
    }
  }

  /** The nodes for an IMSI between `q` and `p`. */
  function Above(nodes: seq<Triplet>, imsi: string, p: int, q: int): seq<int>
    requires IsCursor(nodes, p) && IsCursor(nodes, q)
  {
    var a, b := Matches(nodes, imsi, p), Matches(nodes, imsi, q);
    if |a| <= |b| then b[..|b| - |a|] else []
  }

  /** The cursor's next triplet, or -1. */
  function Pick(nodes: seq<Triplet>, imsi: string, p: int): int
    requires IsCursor(nodes, p)
  {
    if Matches(nodes, imsi, p) != [] then Matches(nodes, imsi, p)[0]
    else if All(nodes, imsi) != [] then All(nodes, imsi)[0]
    else -1
  }

  function Moved(p: int, picked: int): int {
    if picked >= 0 then picked - 1 else p
  }

  /** A round is a permutation of the subscriber's nodes. */
  lemma RoundIsPermutation(nodes: seq<Triplet>, imsi: string, p: int)
    requires IsCursor(nodes, p)
    ensures |Round(nodes, imsi, p)| == |All(nodes, imsi)| && NoDup(Round(nodes, imsi, p))
    ensures forall g :: g in Round(nodes, imsi, p) <==> 0 <= g < |nodes| && nodes[g].imsi == imsi
  {
    MatchesSuffix(nodes, imsi, p, |nodes| - 1);
    MatchesMeaning(nodes, imsi, |nodes| - 1);
    hide Matches, Above;
    NoDupSwap(Above(nodes, imsi, p, |nodes| - 1), Matches(nodes, imsi, p));
  }

  lemma NoDupSwap(a: seq<int>, b: seq<int>)
    requires NoDup(a + b)
    ensures NoDup(b + a) && forall g :: g in b + a <==> g in a + b
  {
    forall i, j | 0 <= i < j < |b + a| ensures (b + a)[i] != (b + a)[j] {
      var i', j' := if i < |b| then i + |a| else i - |b|, if j < |b| then j + |a| else j - |b|;
      assert (b + a)[i] == (a + b)[i'] && (b + a)[j] == (a + b)[j'];
    }
  }

  /** One request takes the first of the round and puts it last. */
  lemma PickRotates(nodes: seq<Triplet>, imsi: string, p: int)
    requires IsCursor(nodes, p) && All(nodes, imsi) != []
    ensures var g, r := Pick(nodes, imsi, p), Round(nodes, imsi, p);
            && r != [] && g == r[0] && IsCursor(nodes, g - 1)
            && Round(nodes, imsi, g - 1) == r[1..] + [r[0]]
  {
    hide Round, Matches;
    MatchesAfter(nodes, imsi, p);
    MatchesAfter(nodes, imsi, |nodes| - 1);
    RoundIs(nodes, imsi, p);
    var ahead, all := Matches(nodes, imsi, p), All(nodes, imsi);
    if ahead != [] {
      RoundIs(nodes, imsi, ahead[0] - 1);
      RotateAhead(all, ahead, all[..|all| - |ahead|]);
    } else {
      RoundIs(nodes, imsi, all[0] - 1);
      assert all[..|all|] == all && all[..1] == [all[0]];
    }
  }

  lemma RoundIs(nodes: seq<Triplet>, imsi: string, p: int)
    requires IsCursor(nodes, p)
    ensures var ahead, all := Matches(nodes, imsi, p), All(nodes, imsi);
            && |ahead| <= |all| && all == all[..|all| - |ahead|] + ahead
            && Round(nodes, imsi, p) == ahead + all[..|all| - |ahead|]
  {
    hide Matches;
    MatchesSuffix(nodes, imsi, p, |nodes| - 1);
  }

  lemma RotateAhead(all: seq<int>, ahead: seq<int>, above: seq<int>)
    requires ahead != [] && all == above + ahead
    ensures ahead[1..] + all[..|all| - |ahead[1..]|] == (ahead + above)[1..] + [ahead[0]]
  {
    assert all[..|above| + 1] == above + [ahead[0]];
  }

  /** Past the first match come exactly the other matches. */
  lemma {:induction false} MatchesAfter(nodes: seq<Triplet>, imsi: string, p: int)
    requires IsCursor(nodes, p)
    ensures var r := Matches(nodes, imsi, p); r != [] ==> 0 <= r[0] <= p && Matches(nodes, imsi, r[0] - 1) == r[1..]
    decreases p + 1
  {
    if p >= 0 && nodes[p].imsi != imsi {
      MatchesAfter(nodes, imsi, p - 1);
    }
  }

  /** What n requests in a row for one IMSI return. */
  function Calls(nodes: seq<Triplet>, imsi: string, p: int, n: nat): (r: seq<int>)
    requires IsCursor(nodes, p) && All(nodes, imsi) != []
    ensures |r| == n
    decreases n
  {
    if n == 0 then []
    else
      PickRotates(nodes, imsi, p);
      var g := Pick(nodes, imsi, p);
      [g] + Calls(nodes, imsi, g - 1, n - 1)
  }

  /** They go round and round: the i-th request returns element i modulo k of the round, k being its length. */
  lemma {:induction false} CallsGoRound(nodes: seq<Triplet>, imsi: string, p: int, n: nat, i: nat)
    requires IsCursor(nodes, p) && All(nodes, imsi) != [] && i < n
    ensures Round(nodes, imsi, p) != []
    ensures Calls(nodes, imsi, p, n)[i] == Round(nodes, imsi, p)[i % |Round(nodes, imsi, p)|]
    decreases n
  {
    hide Round, All, Pick;
    PickRotates(nodes, imsi, p);
    var g, r := Pick(nodes, imsi, p), Round(nodes, imsi, p);
    if i == 0 {
      SmallMod(0, |r|);
    } else {
      CallsGoRound(nodes, imsi, g - 1, n - 1, i - 1);
      NextMod(i - 1, |r|);
    }
  }

  lemma SmallMod(i: nat, k: nat)
    requires i < k
    ensures i % k == i
  {
  }

  lemma NextMod(i: nat, k: nat)
    requires k > 0
    ensures (i + 1) % k == if i % k + 1 < k then i % k + 1 else 0
  {
    if i % k + 1 < k {
      DivModIs(i + 1, k, i / k, i % k + 1);
    } else {
      assert i + 1 == (i / k + 1) * k + 0;
      DivModIs(i + 1, k, i / k + 1, 0);
    }
  }

  /** The same for any IMSI: a subscriber without triplets gets none. */
  function CallsOrNone(nodes: seq<Triplet>, imsi: string, p: int, n: nat): seq<int>
    requires IsCursor(nodes, p)
  {
    if All(nodes, imsi) == [] then [] else Calls(nodes, imsi, p, n)
  }

  lemma CallOnce(nodes: seq<Triplet>, imsi: string, p: int, n: nat)
    requires IsCursor(nodes, p) && 0 < n
    ensures var g := Pick(nodes, imsi, p);
            && (All(nodes, imsi) == [] <==> g < 0)
            && IsCursor(nodes, Moved(p, g))
            && CallsOrNone(nodes, imsi, p, n) == (if g < 0 then [] else [g] + CallsOrNone(nodes, imsi, Moved(p, g), n - 1))
  {
    MatchesMeaning(nodes, imsi, p);
    MatchesMeaning(nodes, imsi, |nodes| - 1);
    hide Matches, NoDup;
    if All(nodes, imsi) != [] {
      PickRotates(nodes, imsi, p);
    }
  }

  lemma NoMore(nodes: seq<Triplet>, imsi: string, p: int)
    requires IsCursor(nodes, p)
    ensures CallsOrNone(nodes, imsi, p, 0) == []
  {
  }

  /** Any k consecutive requests for an IMSI with k triplets return each of them exactly once. */
  lemma EachOnce(nodes: seq<Triplet>, imsi: string, p: int, n: nat)
    requires IsCursor(nodes, p) && All(nodes, imsi) != [] && n <= |All(nodes, imsi)|
    ensures NoDup(Calls(nodes, imsi, p, n))
    ensures n == |All(nodes, imsi)| ==>
              forall g :: g in Calls(nodes, imsi, p, n) <==> 0 <= g < |nodes| && nodes[g].imsi == imsi
  {
    var r := Round(nodes, imsi, p);
    RoundIsPermutation(nodes, imsi, p);
    forall i: nat | i < n ensures Calls(nodes, imsi, p, n)[i] == r[i] {
      CallsGoRound(nodes, imsi, p, n, i);
      SmallMod(i, |r|);
    }
    assert Calls(nodes, imsi, p, n) == r[..n];
    assert n == |r| ==> r[..n] == r;
  }

  lemma {:induction false} InsertedMatches(nodes: seq<Triplet>, g: Triplet, imsi: string, p: int)
    requires IsCursor(nodes, p)
    ensures Matches(nodes + [g], imsi, p) == Matches(nodes, imsi, p)
    decreases p + 1
  {
    if p >= 0 {
      InsertedMatches(nodes, g, imsi, p - 1);
    }
  }

  /** Inserting while the cursor stands still adds the new triplet to its own subscriber's round only. */
  lemma InsertedRound(nodes: seq<Triplet>, g: Triplet, imsi: string, p: int)
    requires IsCursor(nodes, p)
    ensures Round(nodes + [g], imsi, p) ==
              Matches(nodes, imsi, p) + (if g.imsi == imsi then [|nodes|] else []) + Above(nodes, imsi, p, |nodes| - 1)
  {
    var new' := if g.imsi == imsi then [|nodes|] else [];
    InsertedAll(nodes, g, imsi);
    hide Matches;
    InsertedMatches(nodes, g, imsi, p);
    RoundIs(nodes + [g], imsi, p);
    RoundIs(nodes, imsi, p);
    var ahead, all := Matches(nodes, imsi, p), All(nodes, imsi);
    assert Above(nodes, imsi, p, |nodes| - 1) == all[..|all| - |ahead|];
    hide Round, Above, All;
    InsertedFront(new', all, |ahead|);
    assert ahead + (new' + all[..|all| - |ahead|]) == ahead + new' + all[..|all| - |ahead|];
  }

  lemma InsertedAll(nodes: seq<Triplet>, g: Triplet, imsi: string)
    ensures All(nodes + [g], imsi) == (if g.imsi == imsi then [|nodes|] else []) + All(nodes, imsi)
  {
    InsertedMatches(nodes, g, imsi, |nodes| - 1);
  }

  lemma InsertedFront(new': seq<int>, all: seq<int>, m: nat)
    requires m <= |all|
    ensures (new' + all)[..|new' + all| - m] == new' + all[..|all| - m]
  {
  }

  class GsmDb {
    var nodes: seq<Triplet>
    var pos: int

    predicate Valid()
      reads this
    {
      IsCursor(nodes, pos)
    }

    constructor ()
      ensures Valid() && nodes == [] && pos == -1
    {
      nodes, pos := [], -1;
    }

    /** `read_gsm_triplets`: a new node at the head. Its turn comes after those ahead of the cursor, before all others. */
    method Insert(g: Triplet)
      requires Valid()
      modifies this`nodes
      ensures Valid() && nodes == old(nodes) + [g]
      ensures forall imsi :: Round(nodes, imsi, pos) ==
                Matches(old(nodes), imsi, pos) + (if g.imsi == imsi then [|old(nodes)|] else [])
                + Above(old(nodes), imsi, pos, |old(nodes)| - 1)
    {
      ghost var was := nodes;
      nodes := nodes + [g];
      forall imsi {
        InsertedRound(was, g, imsi, pos);
      }
    }

    method GetTriplet(imsi: string) returns (r: int)
      requires Valid()
      modifies this`pos
      ensures Valid() && r == Pick(nodes, imsi, old(pos)) && pos == Moved(old(pos), r)
    {
      var g := pos;
      while g >= 0
        invariant -1 <= g <= pos == old(pos)
        invariant Matches(nodes, imsi, pos) == Matches(nodes, imsi, g)
      {
        if nodes[g].imsi == imsi {
          pos := g - 1;
          return g;
        }
        g := g - 1;
      }
      g := |nodes| - 1;
      MatchesMeaning(nodes, imsi, |nodes| - 1);
      assert Matches(nodes, imsi, -1) == [];
      while g >= 0 && g != pos
        invariant -1 <= g < |nodes| && pos == old(pos) && pos <= g
        invariant All(nodes, imsi) == Matches(nodes, imsi, g)
      {
        if nodes[g].imsi == imsi {
          pos := g - 1;
          return g;
        }
        g := g - 1;
      }
      return -1;
    }

    method PickSome(imsi: string, maxChal: nat) returns (chosen: seq<int>)
      requires Valid()
      modifies this`pos
      ensures Valid() && chosen == CallsOrNone(nodes, imsi, old(pos), maxChal)
      ensures All(nodes, imsi) == [] ==> pos == old(pos)
    {
      hide All, Pick, CallsOrNone, Calls;
      chosen := [];
      ghost var rest := CallsOrNone(nodes, imsi, pos, maxChal);
      while |chosen| < maxChal
        invariant Valid() && |chosen| <= maxChal
        invariant All(nodes, imsi) == [] ==> chosen == [] && pos == old(pos)
        invariant rest == CallsOrNone(nodes, imsi, pos, maxChal - |chosen|)
        invariant chosen + rest == CallsOrNone(nodes, imsi, old(pos), maxChal)
      {
        CallOnce(nodes, imsi, pos, maxChal - |chosen|);
        var g := GetTriplet(imsi);
        if g < 0 {
          return;
        }
        assert chosen + rest == (chosen + [g]) + rest[1..];
        rest := rest[1..];
        chosen := chosen + [g];
      }
      NoMore(nodes, imsi, pos);
    }

    /** A subscriber without Milenage data: up to three triplets, picked one after the other; none means FAILURE. */
    method SimReqAuth(imsi: string, asked: Option<int>) returns (chosen: seq<int>)
      requires Valid()
      modifies this`pos
      ensures Valid()
      ensures var n := if asked.Some? && 1 <= asked.value <= EAP_SIM_MAX_CHAL then asked.value else EAP_SIM_MAX_CHAL;
              if All(nodes, imsi) == [] then chosen == [] && pos == old(pos)
              else
                && chosen == Calls(nodes, imsi, old(pos), n)
                && (n <= |All(nodes, imsi)| ==> NoDup(chosen))
    {
      var maxChal := EAP_SIM_MAX_CHAL;
      if asked.Some? {
        maxChal := asked.value;
        if maxChal < 1 || maxChal > EAP_SIM_MAX_CHAL {
          maxChal := EAP_SIM_MAX_CHAL;
        }
      }
      hide All, Pick;
      chosen := PickSome(imsi, maxChal);
      if All(nodes, imsi) != [] && maxChal <= |All(nodes, imsi)| {
        EachOnce(nodes, imsi, old(pos), maxChal);
      }
    }
  }
}
