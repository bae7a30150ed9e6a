/** The access list as the program keeps it: an array that grows by reallocation and is edited in place. */
module MacAcl {
  import opened Seqs
  import opened Macs
  import opened Text
  import opened AclModel

  class AccessList {
    var acl: array<Entry>
    var num: nat

    ghost predicate Valid()
      reads this
    {
      num <= acl.Length
    }

    ghost function Contents(): seq<Entry>
      reads this, acl
      requires Valid()
    {
      acl[..num]
    }

    constructor ()
      ensures Valid() && Contents() == [] && fresh(acl)
    {
      acl := new Entry[0];
      num := 0;
    }

    /** Append an entry to a reallocated array. */
    method Add(vlanId: Int32, addr: Mac)
      requires Valid()
      modifies this
      ensures Valid() && fresh(acl) && Contents() == old(Contents()) + [NewEntry(addr, vlanId)]
    {
      var e := NewEntry(addr, vlanId);
      var newacl := new Entry[num + 1](_ => e);
      forall i | 0 <= i < num {
        newacl[i] := acl[i];
      }
      acl := newacl;
      num := num + 1;
    }

    /** Remove entry `i`: move the later ones down. */
    method CloseGap(i: nat)
      requires Valid() && i < num
      modifies this`num, acl
      ensures Valid() && num == old(num) - 1
      ensures Contents() == old(Contents())[..i] + old(Contents())[i + 1..]
    {
      forall k | i <= k < num - 1 {
        acl[k] := acl[k + 1];
      }
      num := num - 1;
    }

    /** Remove every entry with an address, closing the gap each time. */
    method RemoveMac(addr: Mac)
      requires Valid()
      modifies this`num, acl
      ensures Valid() && acl == old(acl) && Contents() == Without(old(Contents()), addr)
    {
      hide WithoutTo;
      ghost var was := Contents();
      ghost var m := 0;      // entries looked at
      var i := 0;
      WithoutStart(was, addr);
      while i < num
        invariant Valid() && i <= num
        invariant WithoutTo(Contents(), was, i, m, addr)
        decreases num - i
      {
        WithoutOne(Contents(), was, i, m, addr);
        if acl[i].addr == addr {
          CloseGap(i);
        } else {
          i := i + 1;
        }
        m := m + 1;
      }
      WithoutEnd(Contents(), was, i, m, addr);
    }

    /** qsort() by address, which leaves the order of equal addresses open. */
    method SortByAddress()
      requires Valid()
      modifies acl
      ensures Valid() && Ordered(Contents()) && multiset(Contents()) == multiset(old(Contents()))
    {
      var s := Sort(acl[..num]);
      SortOrdered(acl[..num]);
      assert |s| == num by { assert |multiset(s)| == |multiset(acl[..num])|; }
      forall i | 0 <= i < num {
        acl[i] := s[i];
      }
      assert Contents() == s;
    }

    /** Read an access list file. A bad line ends it with -1: the lines before it have been applied, unsorted. */
    method ReadMaclist(content: string) returns (ret: int)
      requires Valid()
      modifies this, acl
      ensures Valid()
      ensures var ls := ParseAll(Lines(content));
              if Bad in ls then ret == -1 && Contents() == ApplyAll(old(Contents()), Good(ls))
              else
                && ret == 0 && Ordered(Contents())
                && multiset(Contents()) == multiset(ApplyAll(old(Contents()), ls))
                && forall a :: Has(Contents(), a) <==>
                     if LastMention(ls, a).Some? then LastMention(ls, a).value.Ins? else Has(old(Contents()), a)
    {
      var raw := Lines(content);
      ghost var ls := ParseAll(raw);
      ghost var was := Contents();
      ghost var first := acl;
      for i := 0 to |raw|
        invariant Valid() && (acl == first || fresh(acl))
        invariant Bad !in ls[..i] && Contents() == ApplyAll(was, ls[..i])
      {
        assert ls[..i + 1][..i] == ls[..i];
        var ok := ApplyLine(raw[i]);
        if !ok {
          GoodPrefix(ls, i);
          assert ls[i] in ls;
          return -1;
        }
        assert ls[..i + 1] == ls[..i] + [ls[i]];
      }
      assert ls[..|raw|] == ls;
      SortByAddress();
      forall a ensures Has(Contents(), a) <==> if LastMention(ls, a).Some? then LastMention(ls, a).value.Ins? else Has(was, a) {
        SameElements(Contents(), ApplyAll(was, ls), a);
        LastMentionWins(was, ls, a);
      }
      return 0;
    }

    /** One line; false when it holds no address. */
    method ApplyLine(raw: string) returns (ok: bool)
      requires Valid()
      modifies this, acl
      ensures Valid() && (acl == old(acl) || fresh(acl))
      ensures ok <==> !ParseLine(raw).Bad?
      ensures Contents() == Apply(old(Contents()), ParseLine(raw))
    {
      if CharAt(raw, 0) == '#' {
        return true;
      }
      var s := Strip(raw);
      if s == "" {
        return true;
      }
      var at := 0;
      if s[0] == '-' {
        at := 1;
      }
      var addr := HwaddrAton(s, at);
      if addr.None? {
        return false;
      }
      if at == 1 {
        RemoveMac(addr.value);
        return true;
      }
      Add(VlanOf(s), addr.value);
      return true;
    }
  }

  /** `was` with its first `m` entries filtered down to `i`. */
  ghost predicate WithoutTo(s: seq<Entry>, was: seq<Entry>, i: int, m: int, addr: Mac) {
    && 0 <= i <= |s| && 0 <= m <= |was|
    && s[..i] == Without(was[..m], addr) && s[i..] == was[m..]
  }

  lemma WithoutStart(was: seq<Entry>, addr: Mac)
    ensures WithoutTo(was, was, 0, 0, addr)
  {
  }

  lemma WithoutOne(s: seq<Entry>, was: seq<Entry>, i: int, m: int, addr: Mac)
    requires WithoutTo(s, was, i, m, addr) && i < |s|
    ensures if s[i].addr == addr then WithoutTo(s[..i] + s[i + 1..], was, i, m + 1, addr)
            else WithoutTo(s, was, i + 1, m + 1, addr)
  {
    assert |s[i..]| == |was[m..]|;
    assert s[i] == s[i..][0] == was[m..][0];
    assert s[i + 1..] == s[i..][1..] == was[m..][1..] == was[m + 1..];
    assert was[..m + 1][..m] == was[..m];
    assert s[..i + 1] == s[..i] + [s[i]];
    var cut := s[..i] + s[i + 1..];
    assert cut[..i] == s[..i] && cut[i..] == s[i + 1..];
  }

  lemma WithoutEnd(s: seq<Entry>, was: seq<Entry>, i: int, m: int, addr: Mac)
    requires WithoutTo(s, was, i, m, addr) && i == |s|
    ensures s == Without(was, addr)
  {
    assert |s[i..]| == 0 && m == |was|;
    assert was[..m] == was && s[..i] == s;
  }

  lemma {:induction false} GoodPrefix(ls: seq<Line>, i: int)
    requires 0 <= i < |ls| && Bad !in ls[..i] && ls[i] == Bad
    ensures Good(ls) == ls[..i]
  {
    if i > 0 {
      assert ls[0] in ls[..i];
      assert ls[..i] == [ls[0]] + ls[1..][..i - 1];
      GoodPrefix(ls[1..], i - 1);
    }
  }
}
