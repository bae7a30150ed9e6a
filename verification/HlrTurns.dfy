/**
 Requests for several subscribers share one cursor. Whose turn it is for one subscriber depends on how many of the
 subscriber's triplets the cursor has passed, whoever made it pass them.
 */
module HlrTurns {
  import opened Seqs
  import opened Bits
  import opened HlrTriplets

  // ---- Rotations ----

  function Rotated<T>(s: seq<T>, i: nat): (r: seq<T>)
    requires i <= |s|
    ensures |r| == |s|
  {
    s[i..] + s[..i]
  }

  lemma RotatedTwice<T>(s: seq<T>, i: nat, j: nat)
    requires i <= |s| && j <= |s|
    ensures Rotated(Rotated(s, i), j) == Rotated(s, if i + j <= |s| then i + j else i + j - |s|)
  {
    var r := Rotated(s, i);
    var k := if i + j <= |s| then i + j else i + j - |s|;
    forall x | 0 <= x < |s| ensures Rotated(r, j)[x] == Rotated(s, k)[x] {
      RotatedAt(r, j, x);
      RotatedAt(s, k, x);
      RotatedAt(s, i, if x + j < |s| then x + j else x + j - |s|);
    }
  }

  lemma RotatedAt<T>(s: seq<T>, i: nat, x: nat)
    requires i <= |s| && x < |s|
    ensures Rotated(s, i)[x] == s[if x + i < |s| then x + i else x + i - |s|]
  {
  }

  // ---- One request ----

  /** How many triplets of `imsi` the cursor passes on its way from `p` to behind `g`. */
  function Passed(nodes: seq<Triplet>, imsi: string, p: int, g: int): nat
    requires IsCursor(nodes, p) && -1 <= g < |nodes|
  {
    if g < 0 then 0
    else if g <= p then |Above(nodes, imsi, g - 1, p)|
    else |Matches(nodes, imsi, p)| + |Above(nodes, imsi, g - 1, |nodes| - 1)|
  }

  /** In numbers: the triplets ahead of the cursor become fewer, from the head again once the end is reached. */
  lemma PassedCount(nodes: seq<Triplet>, imsi: string, p: int, g: int)
    requires IsCursor(nodes, p) && 0 <= g < |nodes|
    ensures var k, m, m' := |All(nodes, imsi)|, |Matches(nodes, imsi, p)|, |Matches(nodes, imsi, g - 1)|;
            && m <= k && m' <= k && (if g <= p then m' <= m else m <= m')
            && Passed(nodes, imsi, p, g) == if g <= p then m - m' else m + (k - m')
  {
    hide Matches;
    MatchesSuffix(nodes, imsi, p, |nodes| - 1);
    MatchesSuffix(nodes, imsi, g - 1, |nodes| - 1);
    if g <= p {
      MatchesSuffix(nodes, imsi, g - 1, p);
    } else {
      MatchesSuffix(nodes, imsi, p, g - 1);
    }
  }

  /** The request of any subscriber turns the round of `imsi` by the number of its triplets that are passed. */
  lemma PassingRotates(nodes: seq<Triplet>, imsi: string, p: int, g: int)
    requires IsCursor(nodes, p) && -1 <= g < |nodes|
    ensures Passed(nodes, imsi, p, g) <= |Round(nodes, imsi, p)|
    ensures Round(nodes, imsi, Moved(p, g)) == Rotated(Round(nodes, imsi, p), Passed(nodes, imsi, p, g))
  {
    hide Matches, Round, Rotated, All, Above;
    RoundIsRotated(nodes, imsi, p);
    if g >= 0 {
      hide Passed;
      PassedCount(nodes, imsi, p, g);
      RoundIsRotated(nodes, imsi, g - 1);
      NotRotated(All(nodes, imsi));
      RotatedTwice(All(nodes, imsi), |All(nodes, imsi)| - |Matches(nodes, imsi, p)|, Passed(nodes, imsi, p, g));
    } else {
      NotRotated(Round(nodes, imsi, p));
    }
  }

  lemma RoundIsRotated(nodes: seq<Triplet>, imsi: string, p: int)
    requires IsCursor(nodes, p)
    ensures |Matches(nodes, imsi, p)| <= |All(nodes, imsi)|
    ensures Round(nodes, imsi, p) == Rotated(All(nodes, imsi), |All(nodes, imsi)| - |Matches(nodes, imsi, p)|)
  {
    hide Matches;
    RoundIs(nodes, imsi, p);
  }

  // ---- Runs of requests ----

  lemma PickInRange(nodes: seq<Triplet>, imsi: string, p: int)
    requires IsCursor(nodes, p)
    ensures -1 <= Pick(nodes, imsi, p) < |nodes|
  {
    MatchesMeaning(nodes, imsi, p);
    MatchesMeaning(nodes, imsi, |nodes| - 1);
    hide Matches;
  }

  /** The cursor after some requests. */
  function CursorAfter(nodes: seq<Triplet>, p: int, reqs: seq<string>): (q: int)
    requires IsCursor(nodes, p)
    ensures IsCursor(nodes, q)
  {
    if reqs == [] then p
    else
      var q := CursorAfter(nodes, p, reqs[..|reqs| - 1]);
      PickInRange(nodes, reqs[|reqs| - 1], q);
      Moved(q, Pick(nodes, reqs[|reqs| - 1], q))
  }

  /** How many triplets of `imsi` the cursor passes during some requests. */
  function PassedDuring(nodes: seq<Triplet>, imsi: string, p: int, reqs: seq<string>): nat
    requires IsCursor(nodes, p)
  {
    if reqs == [] then 0
    else
      var front, last := reqs[..|reqs| - 1], reqs[|reqs| - 1];
      var q := CursorAfter(nodes, p, front);
      PickInRange(nodes, last, q);
      PassedDuring(nodes, imsi, p, front) + Passed(nodes, imsi, q, Pick(nodes, last, q))
  }

  lemma {:induction false} RunRotates(nodes: seq<Triplet>, imsi: string, p: int, reqs: seq<string>)
    requires IsCursor(nodes, p) && All(nodes, imsi) != []
    ensures var r := Round(nodes, imsi, p);
            && r != []
            && Round(nodes, imsi, CursorAfter(nodes, p, reqs)) == Rotated(r, Rem(PassedDuring(nodes, imsi, p, reqs), |r|))
  {
    hide *;
    var r := Round(nodes, imsi, p);
    RoundIsRotated(nodes, imsi, p);
    if reqs == [] {
      NoRequests(nodes, imsi, p);
    } else {
      var front := reqs[..|reqs| - 1];
      var q, g := LastRequest(nodes, imsi, p, reqs);
      RunRotates(nodes, imsi, p, front);
      PassingRotates(nodes, imsi, q, g);
      RotatedFurther(r, PassedDuring(nodes, imsi, p, front), Passed(nodes, imsi, q, g));
    }
  }

  lemma NoRequests(nodes: seq<Triplet>, imsi: string, p: int)
    requires IsCursor(nodes, p) && Round(nodes, imsi, p) != []
    ensures var r := Round(nodes, imsi, p);
            Round(nodes, imsi, CursorAfter(nodes, p, [])) == Rotated(r, Rem(PassedDuring(nodes, imsi, p, []), |r|))
  {
    hide *;
    NothingMoves(nodes, imsi, p);
    NotRotated(Round(nodes, imsi, p));
    NoRem(|Round(nodes, imsi, p)|);
  }

  lemma NothingMoves(nodes: seq<Triplet>, imsi: string, p: int)
    requires IsCursor(nodes, p)
    ensures CursorAfter(nodes, p, []) == p && PassedDuring(nodes, imsi, p, []) == 0
  {
  }

  lemma NoRem(k: nat)
    requires k > 0
    ensures Rem(0, k) == 0
  {
  }

  lemma LastRequest(nodes: seq<Triplet>, imsi: string, p: int, reqs: seq<string>) returns (q: int, g: int)
    requires IsCursor(nodes, p) && reqs != []
    ensures q == CursorAfter(nodes, p, reqs[..|reqs| - 1]) && g == Pick(nodes, reqs[|reqs| - 1], q) && -1 <= g < |nodes|
    ensures CursorAfter(nodes, p, reqs) == Moved(q, g)
    ensures PassedDuring(nodes, imsi, p, reqs)
            == PassedDuring(nodes, imsi, p, reqs[..|reqs| - 1]) + Passed(nodes, imsi, q, g)
  {
    q := CursorAfter(nodes, p, reqs[..|reqs| - 1]);
    g := Pick(nodes, reqs[|reqs| - 1], q);
    PickInRange(nodes, reqs[|reqs| - 1], q);
    hide Pick, Passed;
  }

  lemma NotRotated<T>(s: seq<T>)
    ensures Rotated(s, 0) == s && Rotated(s, |s|) == s
  {
  }

  lemma RotatedFurther<T>(s: seq<T>, x: nat, y: nat)
    requires s != [] && y <= |s|
    ensures Rotated(Rotated(s, Rem(x, |s|)), y) == Rotated(s, Rem(x + y, |s|))
  {
    hide Rotated;
    RotatedTwice(s, x % |s|, y);
    AddMod(x, y, |s|);
    NotRotated(s);
  }

  lemma AddMod(x: nat, y: nat, k: nat)
    requires 0 < k && y <= k
    ensures var i := x % k;
            (x + y) % k == if i + y < k then i + y else i + y - k
  {
    var q, i := x / k, x % k;
    if i + y < k {
      DivModIs(x + y, k, q, i + y);
    } else {
      assert (q + 1) * k == q * k + k;
      DivModIs(x + y, k, q + 1, i + y - k);
    }
  }

  // ---- Whose turn it is ----

  /**
   After any requests of any subscribers, the next request for `imsi` returns the triplet whose number in the round,
   modulo its length, is the number of its triplets that were passed.
   */
  lemma TurnExactly(nodes: seq<Triplet>, imsi: string, p: int, reqs: seq<string>)
    requires IsCursor(nodes, p) && All(nodes, imsi) != []
    ensures var r := Round(nodes, imsi, p);
            && r != []
            && Pick(nodes, imsi, CursorAfter(nodes, p, reqs)) == r[PassedDuring(nodes, imsi, p, reqs) % |r|]
  {
    RunRotates(nodes, imsi, p, reqs);
    PickRotates(nodes, imsi, CursorAfter(nodes, p, reqs));
    hide Matches, All, Round, Pick, PassedDuring, CursorAfter;
  }

  /** Requests of others leave the next triplet for `imsi` as it was exactly when they pass whole rounds of its triplets. */
  lemma UndisturbedExactly(nodes: seq<Triplet>, imsi: string, p: int, reqs: seq<string>)
    requires IsCursor(nodes, p) && All(nodes, imsi) != []
    ensures Pick(nodes, imsi, CursorAfter(nodes, p, reqs)) == Pick(nodes, imsi, p)
            <==> PassedDuring(nodes, imsi, p, reqs) % |All(nodes, imsi)| == 0
  {
    TurnExactly(nodes, imsi, p, reqs);
    PickRotates(nodes, imsi, p);
    RoundIsPermutation(nodes, imsi, p);
    hide Matches, All, Round, Pick, PassedDuring, CursorAfter;
  }

  /** Any two turns in a run, after `reqs` and after `reqs'`, give the same triplet exactly when as many were passed, modulo k. */
  lemma SameTurnExactly(nodes: seq<Triplet>, imsi: string, p: int, reqs: seq<string>, reqs': seq<string>)
    requires IsCursor(nodes, p) && All(nodes, imsi) != []
    ensures Pick(nodes, imsi, CursorAfter(nodes, p, reqs)) == Pick(nodes, imsi, CursorAfter(nodes, p, reqs'))
            <==> PassedDuring(nodes, imsi, p, reqs) % |All(nodes, imsi)| == PassedDuring(nodes, imsi, p, reqs') % |All(nodes, imsi)|
  {
    TurnExactly(nodes, imsi, p, reqs);
    TurnExactly(nodes, imsi, p, reqs');
    RoundIsPermutation(nodes, imsi, p);
    var r, k := Round(nodes, imsi, p), |All(nodes, imsi)|;
    var i, j := PassedDuring(nodes, imsi, p, reqs) % k, PassedDuring(nodes, imsi, p, reqs') % k;
    hide Matches, All, Round, Pick, PassedDuring, CursorAfter;
    SameElement(r, i, j);
  }

  lemma SameElement<T>(s: seq<T>, i: nat, j: nat)
    requires NoDup(s) && i < |s| && j < |s|
    ensures s[i] == s[j] <==> i == j
  {
  }

  /** What the subscriber's own requests among `reqs` return, in order. */
  function Turns(nodes: seq<Triplet>, imsi: string, p: int, reqs: seq<string>): seq<int>
    requires IsCursor(nodes, p)
  {
    if reqs == [] then []
    else
      var front := reqs[..|reqs| - 1];
      Turns(nodes, imsi, p, front)
      + if reqs[|reqs| - 1] == imsi then [Pick(nodes, imsi, CursorAfter(nodes, p, front))] else []
  }

  /** And where in the round the cursor stood then, counted from the start of the run. */
  function Places(nodes: seq<Triplet>, imsi: string, p: int, reqs: seq<string>): seq<int>
    requires IsCursor(nodes, p) && All(nodes, imsi) != []
  {
    if reqs == [] then []
    else
      var front := reqs[..|reqs| - 1];
      Places(nodes, imsi, p, front)
      + if reqs[|reqs| - 1] == imsi then [PassedDuring(nodes, imsi, p, front) % |All(nodes, imsi)|] else []
  }

  lemma {:induction false} TurnsArePlaces(nodes: seq<Triplet>, imsi: string, p: int, reqs: seq<string>)
    requires IsCursor(nodes, p) && All(nodes, imsi) != []
    ensures var r, turns, places := Round(nodes, imsi, p), Turns(nodes, imsi, p, reqs), Places(nodes, imsi, p, reqs);
            && |turns| == |places|
            && forall i :: 0 <= i < |turns| ==> 0 <= places[i] < |r| && turns[i] == r[places[i]]
  {
    RoundIsPermutation(nodes, imsi, p);
    hide Matches, All, Round, Pick, PassedDuring, CursorAfter, NoDup;
    if reqs != [] {
      TurnsArePlaces(nodes, imsi, p, reqs[..|reqs| - 1]);
      TurnExactly(nodes, imsi, p, reqs[..|reqs| - 1]);
    }
  }

  /**
   Under any interleaving, the subscriber gets no triplet twice exactly when the places are different, and as many
   different ones as it has are all of them.
   */
  lemma EachOnceExactly(nodes: seq<Triplet>, imsi: string, p: int, reqs: seq<string>)
    requires IsCursor(nodes, p) && All(nodes, imsi) != []
    ensures var turns := Turns(nodes, imsi, p, reqs);
            && (NoDup(turns) <==> NoDup(Places(nodes, imsi, p, reqs)))
            && (NoDup(turns) && |turns| == |All(nodes, imsi)| ==>
                  forall g :: g in turns <==> 0 <= g < |nodes| && nodes[g].imsi == imsi)
  {
    var r, turns, places := Round(nodes, imsi, p), Turns(nodes, imsi, p, reqs), Places(nodes, imsi, p, reqs);
    RoundIsPermutation(nodes, imsi, p);
    TurnsArePlaces(nodes, imsi, p, reqs);
    hide Matches, All, Round, Turns, Places, NoDup;
    PickedNoDup(r, places, turns);
    if NoDup(turns) && |turns| == |r| {
      NoDupFills(turns, r);
    }
  }

  lemma PickedNoDup(r: seq<int>, places: seq<int>, picked: seq<int>)
    requires NoDup(r) && |picked| == |places|
    requires forall i :: 0 <= i < |places| ==> 0 <= places[i] < |r| && picked[i] == r[places[i]]
    ensures NoDup(picked) <==> NoDup(places)
  {
    forall i, j | 0 <= i < j < |places| ensures picked[i] == picked[j] <==> places[i] == places[j] {
      SameElement(r, places[i], places[j]);
    }
  }

  /** Elements of `r` without repetition, as many as `r` has, are all of them. */
  lemma NoDupFills(s: seq<int>, r: seq<int>)
    requires NoDup(s) && NoDup(r) && |s| == |r| && forall x :: x in s ==> x in r
    ensures forall x :: x in r ==> x in s
  {
    NoDupLength(s);
    NoDupLength(r);
    hide NoDup;
    var a, b := Elems(s), Elems(r);
    assert forall x :: x in a <==> x in s;
    assert forall x :: x in b <==> x in r;
    forall x | x in a ensures x in b {
      assert x in s && x in r;
    }
    SubsetFills(a, b);
  }

  lemma SubsetFills(a: set<int>, b: set<int>)
    requires a <= b && |a| == |b|
    ensures a == b
  {
    assert b == a + (b - a);
  }

  /** A request of its own passes one triplet of the subscriber, the one that it returns. */
  lemma OwnPassesOne(nodes: seq<Triplet>, imsi: string, p: int)
    requires IsCursor(nodes, p) && All(nodes, imsi) != []
    ensures 0 <= Pick(nodes, imsi, p) < |nodes| && Passed(nodes, imsi, p, Pick(nodes, imsi, p)) == 1
  {
    PickInRange(nodes, imsi, p);
    MatchesAfter(nodes, imsi, p);
    MatchesAfter(nodes, imsi, |nodes| - 1);
    MatchesMeaning(nodes, imsi, p);
    MatchesMeaning(nodes, imsi, |nodes| - 1);
    PassedCount(nodes, imsi, p, Pick(nodes, imsi, p));
    hide Matches, Passed;
  }

  // ---- Starvation ----

  /** `a` and `b` taking turns, n times. */
  function Alternating(a: string, b: string, n: nat): seq<string> {
    if n == 0 then [] else Alternating(a, b, n - 1) + [a] + [b]
  }

  /** With the list A1, A2, B1 from the head, taking turns gives A the triplet A1 every time, and A2 never. */
  lemma {:induction false} StarvationExample(a: Triplet, a': Triplet, b: Triplet, n: nat)
    requires a.imsi == a'.imsi != b.imsi
    ensures var nodes, p := [b, a', a], CursorAfter([b, a', a], -1, Alternating(a.imsi, b.imsi, n));
            p == -1 && nodes[1] == a' && Pick(nodes, a.imsi, p) == 2
  {
    var nodes := [b, a', a];
    assert Matches(nodes, a.imsi, 2)[0] == 2;
    if n > 0 {
      var before := Alternating(a.imsi, b.imsi, n - 1);
      StarvationExample(a, a', b, n - 1);
      CursorSnoc(nodes, -1, before, a.imsi);
      CursorSnoc(nodes, -1, before + [a.imsi], b.imsi);
      assert Matches(nodes, b.imsi, 0) == [0];
      assert Matches(nodes, b.imsi, 1) == [0];
    }
  }

  lemma CursorSnoc(nodes: seq<Triplet>, p: int, reqs: seq<string>, imsi: string)
    requires IsCursor(nodes, p)
    ensures var q := CursorAfter(nodes, p, reqs); CursorAfter(nodes, p, reqs + [imsi]) == Moved(q, Pick(nodes, imsi, q))
  {
    assert (reqs + [imsi])[..|reqs|] == reqs;
  }
}
