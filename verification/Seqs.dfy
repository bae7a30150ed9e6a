/** Sequence facts shared by the table, list and array models. */
module Seqs {

  datatype Option<+T> = None | Some(value: T)

  ghost predicate NoDup<T>(s: seq<T>) {
    forall i, j :: 0 <= i < j < |s| ==> s[i] != s[j]
  }

  function Elems<T(!new)>(s: seq<T>): set<T> {
    set x | x in s
  }

  /** The elements of `s` that lie in `keep`, in their old order. */
  function Keep<T(!new)>(s: seq<T>, keep: set<T>): (r: seq<T>)
    ensures forall x :: x in r <==> x in s && x in keep
    ensures |r| <= |s|
  {
    if s == [] then []
    else
      var front := Keep(s[..|s| - 1], keep);
      if s[|s| - 1] in keep then front + [s[|s| - 1]] else front
  }

  /** Every pair of positions in a filtered sequence comes from a pair of positions in the same order. */
  lemma {:induction false} KeepOrder<T(!new)>(s: seq<T>, keep: set<T>, i: int, j: int) returns (i': int, j': int)
    requires 0 <= i < j < |Keep(s, keep)|
    ensures 0 <= i' < j' < |s|
    ensures s[i'] == Keep(s, keep)[i] && s[j'] == Keep(s, keep)[j]
  {
    var front := s[..|s| - 1];
    if j < |Keep(front, keep)| {
      i', j' := KeepOrder(front, keep, i, j);
    } else {
      assert Keep(s, keep)[i] in Keep(front, keep);
      i' :| 0 <= i' < |front| && front[i'] == Keep(s, keep)[i];
      j' := |s| - 1;
    }
  }

  lemma KeepNoDup<T(!new)>(s: seq<T>, keep: set<T>)
    requires NoDup(s)
    ensures NoDup(Keep(s, keep))
  {
    var r := Keep(s, keep);
    forall i, j | 0 <= i < j < |r| ensures r[i] != r[j] {
      var i', j' := KeepOrder(s, keep, i, j);
    }
  }

  lemma {:induction false} KeepKeep<T(!new)>(s: seq<T>, a: set<T>, b: set<T>)
    ensures Keep(Keep(s, a), b) == Keep(s, a * b)
  {
    if s != [] {
      var front := s[..|s| - 1];
      KeepKeep(front, a, b);
      if s[|s| - 1] in a {
        assert Keep(s, a)[..|Keep(s, a)| - 1] == Keep(front, a);
      }
    }
  }

  lemma {:induction false} KeepAll<T(!new)>(s: seq<T>, keep: set<T>)
    requires forall x :: x in s ==> x in keep
    ensures Keep(s, keep) == s
  {
    if s != [] {
      KeepAll(s[..|s| - 1], keep);
    }
  }

  lemma {:induction false} KeepAppend<T(!new)>(s: seq<T>, t: seq<T>, keep: set<T>)
    ensures Keep(s + t, keep) == Keep(s, keep) + Keep(t, keep)
  {
    if t == [] {
      assert s + t == s;
    } else {
      assert (s + t)[..|s + t| - 1] == s + t[..|t| - 1];
      KeepAppend(s, t[..|t| - 1], keep);
    }
  }

  /** Filtering only looks at the elements of the sequence. */
  lemma {:induction false} KeepAgree<T(!new)>(s: seq<T>, a: set<T>, b: set<T>)
    requires forall x :: x in s ==> (x in a <==> x in b)
    ensures Keep(s, a) == Keep(s, b)
  {
    if s != [] {
      KeepAgree(s[..|s| - 1], a, b);
    }
  }

  /** Removing the only occurrence of an element is the same as filtering it out. */
  lemma KeepRemoveAt<T(!new)>(s: seq<T>, k: int, keep: set<T>)
    requires NoDup(s) && 0 <= k < |s|
    requires s[k] !in keep && forall x :: x in s && x != s[k] ==> x in keep
    ensures Keep(s, keep) == s[..k] + s[k + 1..]
  {
    assert s == s[..k] + [s[k]] + s[k + 1..];
    KeepAppend(s[..k] + [s[k]], s[k + 1..], keep);
    KeepAppend(s[..k], [s[k]], keep);
    assert Keep([s[k]], keep) == [] by { assert [s[k]][..0] == []; }
    KeepAll(s[..k], keep);
    KeepAll(s[k + 1..], keep);
  }

  /** `s` with every occurrence of `p` replaced by `n`. */
  function Subst<T(==)>(s: seq<T>, p: T, n: T): (r: seq<T>)
    ensures |r| == |s|
    ensures forall i :: 0 <= i < |s| ==> r[i] == if s[i] == p then n else s[i]
  {
    seq(|s|, i requires 0 <= i < |s| => if s[i] == p then n else s[i])
  }

  /** The first element of `s` that lies in `wanted`. */
  function FirstIn<T(!new)>(s: seq<T>, wanted: set<T>): (r: Option<T>)
    ensures r.None? <==> forall x :: x in s ==> x !in wanted
    ensures r.Some? ==> r.value in s && r.value in wanted
  {
    if s == [] then None
    else if s[0] in wanted then Some(s[0])
    else FirstIn(s[1..], wanted)
  }

  /** What "first" means: nothing wanted stands before it. */
  lemma {:induction false} FirstInPosition<T(!new)>(s: seq<T>, wanted: set<T>) returns (k: int)
    requires FirstIn(s, wanted).Some?
    ensures 0 <= k < |s| && s[k] == FirstIn(s, wanted).value
    ensures forall i :: 0 <= i < k ==> s[i] !in wanted
  {
    if s[0] in wanted {
      k := 0;
    } else {
      var k' := FirstInPosition(s[1..], wanted);
      k := k' + 1;
      assert s[k] == s[1..][k'];
      forall i | 0 <= i < k ensures s[i] !in wanted {
        if i > 0 { assert s[i] == s[1..][i - 1]; }
      }
    }
  }

  /** Conversely, the first wanted position determines the result. */
  lemma {:induction false} FirstInIs<T(!new)>(s: seq<T>, wanted: set<T>, k: int)
    requires 0 <= k < |s| && s[k] in wanted
    requires forall i :: 0 <= i < k ==> s[i] !in wanted
    ensures FirstIn(s, wanted) == Some(s[k])
  {
    if k > 0 {
      assert s[0] !in wanted;
      assert s[1..][k - 1] == s[k];
      FirstInIs(s[1..], wanted, k - 1);
    }
  }

  /** A duplicate-free sequence is as long as its element set. */
  lemma {:induction false} NoDupLength<T(!new)>(s: seq<T>)
    requires NoDup(s)
    ensures |Elems(s)| == |s|
  {
    if s == [] {
      assert Elems(s) == {};
    } else {
      var front := s[..|s| - 1];
      NoDupLength(front);
      assert s[|s| - 1] !in front;
      hide NoDup;
      assert Elems(s) == Elems(front) + {s[|s| - 1]};
    }
  }

  lemma NoDupWithout<T>(s: seq<T>, i: int)
    requires NoDup(s) && 0 <= i < |s|
    ensures NoDup(s[..i] + s[i + 1..])
  {
    var r := s[..i] + s[i + 1..];
    assert forall k :: 0 <= k < |r| ==> r[k] == s[if k < i then k else k + 1];
  }

  lemma NoDupAppend<T(!new)>(s: seq<T>, x: T)
    requires NoDup(s) && x !in s
    ensures NoDup(s + [x])
    ensures forall y :: y in s + [x] <==> y in s || y == x
  {
  }

  lemma {:induction false} FirstInAgree<T(!new)>(s: seq<T>, a: set<T>, b: set<T>)
    requires forall x :: x in s ==> (x in a <==> x in b)
    ensures FirstIn(s, a) == FirstIn(s, b)
  {
    if s != [] {
      FirstInAgree(s[1..], a, b);
    }
  }
}
