/**
 SAE-PK, the generator's side: packing hash bits, 19 at a time behind a Sec_1b flag bit, into the 20-bit groups of
 PasswordBase.
 */
module SaePk {
  import opened Bits
  import opened SaePkBuffers

  // ---- One 20-bit group in octets ----

  function Group(flag: bool, b0: bv8, b1: bv8, b2: bv8): nat {
    Or(Shl(if flag then 1 else 0, 19), GetBe19(b0, b1, b2))
  }

  lemma GroupValueBit(flag: bool, b0: bv8, b1: bv8, b2: bv8, k: nat)
    requires k < 20
    ensures Bit(Group(flag, b0, b1, b2), k) == GroupBit(flag, b0, b1, b2, 19 - k)
  {
    hide Or, Shl, GetBe19, Pow2, Bit8;
    Be19Small(b0, b1, b2);
    ShlOrBit(if flag then 1 else 0, GetBe19(b0, b1, b2), 19, k);
    if k < 19 {
      Be19Bit(b0, b1, b2, k);
    }
  }

  /** Bit t of each of three octets that begin with the group. */
  predicate EvenAt(flag: bool, b0: bv8, b1: bv8, b2: bv8, o0: bv8, o1: bv8, o2: bv8, t: int)
    requires 0 <= t < 8
  {
    && Bit8(o0, t) == GroupBit(flag, b0, b1, b2, t)
    && Bit8(o1, t) == GroupBit(flag, b0, b1, b2, 8 + t)
    && Bit8(o2, t) == (t < 4 && GroupBit(flag, b0, b1, b2, 16 + t))
  }

  ghost predicate EvenOctets(flag: bool, b0: bv8, b1: bv8, b2: bv8, o0: bv8, o1: bv8, o2: bv8) {
    forall t :: 0 <= t < 8 ==> EvenAt(flag, b0, b1, b2, o0, o1, o2, t)
  }

  /** Bit t of each of three octets that have the group after four zero bits. */
  predicate OddAt(flag: bool, b0: bv8, b1: bv8, b2: bv8, o0: bv8, o1: bv8, o2: bv8, t: int)
    requires 0 <= t < 8
  {
    && Bit8(o0, t) == (t >= 4 && GroupBit(flag, b0, b1, b2, t - 4))
    && Bit8(o1, t) == GroupBit(flag, b0, b1, b2, 4 + t)
    && Bit8(o2, t) == GroupBit(flag, b0, b1, b2, 12 + t)
  }

  ghost predicate OddOctets(flag: bool, b0: bv8, b1: bv8, b2: bv8, o0: bv8, o1: bv8, o2: bv8) {
    forall t :: 0 <= t < 8 ==> OddAt(flag, b0, b1, b2, o0, o1, o2, t)
  }

  lemma EvenGroup(flag: bool, b0: bv8, b1: bv8, b2: bv8)
    ensures var v := Group(flag, b0, b1, b2);
            EvenOctets(flag, b0, b1, b2, ToOctet(Shr(v, 12)), ToOctet(Shr(v, 4)), ToOctet(And(Shl(v, 4), 0xf0)))
  {
    hide Group, GroupBit, Shr, Shl, And, Bit, Bit8, ToOctet;
    var v := Group(flag, b0, b1, b2);
    forall t | 0 <= t < 8
      ensures EvenAt(flag, b0, b1, b2, ToOctet(Shr(v, 12)), ToOctet(Shr(v, 4)), ToOctet(And(Shl(v, 4), 0xf0)), t)
    {
      OctetBit(Shr(v, 12), t);
      ShrBit(v, 12, 7 - t);
      GroupValueBit(flag, b0, b1, b2, 19 - t);
      OctetBit(Shr(v, 4), t);
      ShrBit(v, 4, 7 - t);
      GroupValueBit(flag, b0, b1, b2, 11 - t);
      OctetBit(And(Shl(v, 4), 0xf0), t);
      AndBit(Shl(v, 4), 0xf0, 7 - t);
      ShlBit(v, 4, 7 - t);
      HighNibble(7 - t);
      if t < 4 {
        GroupValueBit(flag, b0, b1, b2, 3 - t);
      }
    }
  }

  lemma OddGroup(flag: bool, b0: bv8, b1: bv8, b2: bv8)
    ensures var v := Group(flag, b0, b1, b2);
            OddOctets(flag, b0, b1, b2, ToOctet(And(Shr(v, 16), 0x0f)), ToOctet(Shr(v, 8)), ToOctet(v))
  {
    hide Group, GroupBit, Shr, Shl, And, Bit, Bit8, ToOctet;
    var v := Group(flag, b0, b1, b2);
    forall t | 0 <= t < 8
      ensures OddAt(flag, b0, b1, b2, ToOctet(And(Shr(v, 16), 0x0f)), ToOctet(Shr(v, 8)), ToOctet(v), t)
    {
      OctetBit(And(Shr(v, 16), 0x0f), t);
      AndBit(Shr(v, 16), 0x0f, 7 - t);
      ShrBit(v, 16, 7 - t);
      LowNibble(7 - t);
      if t >= 4 {
        GroupValueBit(flag, b0, b1, b2, 23 - t);
      }
      OctetBit(Shr(v, 8), t);
      ShrBit(v, 8, 7 - t);
      GroupValueBit(flag, b0, b1, b2, 15 - t);
      OctetBit(v, t);
      GroupValueBit(flag, b0, b1, b2, 7 - t);
    }
  }

  lemma LowNibble(k: nat)
    requires k < 8
    ensures Bit(0x0f, k) == (k < 4)
  {
    OnesBit(4, k);
  }

  lemma HighNibble(k: nat)
    requires k < 8
    ensures Bit(0xf0, k) == (k >= 4)
  {
    assert 0xf0 == Shl(0x0f, 4);
    ShlBit(0x0f, 4, k);
    if k >= 4 {
      LowNibble(k - 4);
    }
  }

  // ---- The packed buffer ----

  /** Bit n of PasswordBase: the flag leads every group of 20, the other 19 are the next bits of the hash. */
  predicate Want(h: seq<bv8>, flag: bool, n: int)
    requires 0 <= n
  {
    if n % 20 == 0 then flag else BitAt(h, 19 * (n / 20) + n % 20 - 1)
  }

  /** The first j groups are in place, and the rest is zero. */
  ghost predicate Packed(pw: seq<bv8>, h: seq<bv8>, flag: bool, j: int) {
    forall n :: 0 <= n ==> BitAt(pw, n) == (n < 20 * j && Want(h, flag, n))
  }

  /** The three octets carry the next 19 bits. */
  ghost predicate Next19(h: seq<bv8>, flag: bool, j: int, b0: bv8, b1: bv8, b2: bv8)
    requires 0 <= j
  {
    forall u :: 0 <= u < 20 ==> GroupBit(flag, b0, b1, b2, u) == Want(h, flag, 20 * j + u)
  }

  /** `now` is the hash after j shifts. */
  ghost predicate Shifted(now: seq<bv8>, h: seq<bv8>, j: int)
    requires 0 <= j
  {
    forall n :: 0 <= n ==> BitAt(now, n) == BitAt(h, n + 19 * j)
  }

  lemma ShiftedOnce(now: seq<bv8>, next: seq<bv8>, h: seq<bv8>, j: int)
    requires 0 <= j && Shifted(now, h, j)
    requires forall n :: 0 <= n ==> BitAt(next, n) == BitAt(now, n + 19)
    ensures Shifted(next, h, j + 1)
  {
    forall n | 0 <= n ensures BitAt(next, n) == BitAt(h, n + 19 * (j + 1)) {
      assert BitAt(now, n + 19) == BitAt(h, n + 19 + 19 * j);
    }
  }

  lemma ReadNext19(now: seq<bv8>, h: seq<bv8>, flag: bool, j: int)
    requires 0 <= j && 3 <= |now| && Shifted(now, h, j)
    ensures Next19(h, flag, j, now[0], now[1], now[2])
  {
    hide GroupBit, BitAt;
    forall u | 0 <= u < 20 ensures GroupBit(flag, now[0], now[1], now[2], u) == Want(h, flag, 20 * j + u) {
      assert (20 * j + u) / 20 == j && (20 * j + u) % 20 == u;
      GroupIsFirstBits(now, flag, u);
      if u > 0 {
        assert BitAt(now, u - 1) == BitAt(h, u - 1 + 19 * j);
      }
    }
  }

  lemma PackEven(pw: seq<bv8>, pw': seq<bv8>, h: seq<bv8>, flag: bool, j: int, b0: bv8, b1: bv8, b2: bv8, o0: bv8, o1: bv8, o2: bv8)
    requires 0 <= j && j % 2 == 0 && Packed(pw, h, flag, j) && Next19(h, flag, j, b0, b1, b2)
    requires var d := 5 * (j / 2); d + 3 <= |pw| && pw' == pw[d := o0][d + 1 := o1][d + 2 := o2]
    requires EvenOctets(flag, b0, b1, b2, o0, o1, o2)
    ensures Packed(pw', h, flag, j + 1)
  {
    hide Want, GroupBit, BitAt, EvenOctets;
    var d := 5 * (j / 2);
    assert 8 * d == 20 * j;
    forall n | 0 <= n ensures BitAt(pw', n) == (n < 20 * (j + 1) && Want(h, flag, n)) {
      assert BitAt(pw, n) == (n < 20 * j && Want(h, flag, n));
      EvenStep(pw, pw', flag, d, b0, b1, b2, o0, o1, o2, n);
      if 20 * j <= n < 20 * j + 20 {
        assert GroupBit(flag, b0, b1, b2, n - 20 * j) == Want(h, flag, 20 * j + (n - 20 * j));
      }
    }
  }

  /** A bit after an even group is stored: of the group, zero for the rest of its octets, or what was there before. */
  lemma EvenStep(pw: seq<bv8>, pw': seq<bv8>, flag: bool, d: int, b0: bv8, b1: bv8, b2: bv8, o0: bv8, o1: bv8, o2: bv8, n: int)
    requires 0 <= d && d + 3 <= |pw| && 0 <= n && (n >= 8 * d ==> !BitAt(pw, n))
    requires pw' == pw[d := o0][d + 1 := o1][d + 2 := o2] && EvenOctets(flag, b0, b1, b2, o0, o1, o2)
    ensures BitAt(pw', n) == if 8 * d <= n < 8 * d + 20 then GroupBit(flag, b0, b1, b2, n - 8 * d) else BitAt(pw, n)
  {
    hide GroupBit, Bit8;
    if 8 * d <= n < 8 * d + 24 {
      var t := n % 8;
      assert EvenAt(flag, b0, b1, b2, o0, o1, o2, t);
      assert pw'[d] == o0 && pw'[d + 1] == o1 && pw'[d + 2] == o2;
    } else {
      OtherBit(pw, pw', d, n);
    }
  }

  lemma PackOdd(pw: seq<bv8>, pw': seq<bv8>, h: seq<bv8>, flag: bool, j: int, b0: bv8, b1: bv8, b2: bv8, x: bv8, o0: bv8, o1: bv8, o2: bv8)
    requires 0 <= j && j % 2 == 1 && Packed(pw, h, flag, j) && Next19(h, flag, j, b0, b1, b2)
    requires var d := 5 * (j / 2) + 2; d + 3 <= |pw| && pw' == pw[d := x][d + 1 := o1][d + 2 := o2] && IsOr8(x, pw[d], o0)
    requires OddOctets(flag, b0, b1, b2, o0, o1, o2)
    ensures Packed(pw', h, flag, j + 1)
  {
    hide Want, GroupBit, BitAt, Bit8, OddOctets;
    var d := 5 * (j / 2) + 2;
    assert 8 * d + 4 == 20 * j;
    forall n | 0 <= n ensures BitAt(pw', n) == (n < 20 * (j + 1) && Want(h, flag, n)) {
      assert BitAt(pw, n) == (n < 20 * j && Want(h, flag, n));
      OddStep(pw, pw', flag, d, b0, b1, b2, x, o0, o1, o2, n);
      if 20 * j <= n < 20 * j + 20 {
        assert GroupBit(flag, b0, b1, b2, n - 20 * j) == Want(h, flag, 20 * j + (n - 20 * j));
      }
    }
  }

  /** Bit by bit, x is y or z. */
  ghost predicate IsOr8(x: bv8, y: bv8, z: bv8) {
    forall t :: 0 <= t < 8 ==> Bit8(x, t) == (Bit8(y, t) || Bit8(z, t))
  }

  lemma Or8(y: bv8, z: bv8)
    ensures IsOr8(y | z, y, z)
  {
    var x := y | z;
    forall t | 0 <= t < 8 ensures Bit8(x, t) == (Bit8(y, t) || Bit8(z, t)) {
      OrBit8(y, z, t);
    }
    hide Bit8;
  }

  /** A bit after an odd group is stored: of the group, or what was there before it. `x` is the shared octet then. */
  lemma OddStep(pw: seq<bv8>, pw': seq<bv8>, flag: bool, d: int, b0: bv8, b1: bv8, b2: bv8, x: bv8, o0: bv8, o1: bv8, o2: bv8, n: int)
    requires 0 <= d && d + 3 <= |pw| && 0 <= n && (n >= 8 * d + 4 ==> !BitAt(pw, n))
    requires Bit8(x, n % 8) == (Bit8(pw[d], n % 8) || Bit8(o0, n % 8))
    requires pw' == pw[d := x][d + 1 := o1][d + 2 := o2] && OddOctets(flag, b0, b1, b2, o0, o1, o2)
    ensures BitAt(pw', n) == if 8 * d + 4 <= n < 8 * d + 24 then GroupBit(flag, b0, b1, b2, n - (8 * d + 4)) else BitAt(pw, n)
  {
    hide GroupBit, Bit8;
    if 8 * d <= n < 8 * d + 24 {
      var t := n % 8;
      assert OddAt(flag, b0, b1, b2, o0, o1, o2, t);
      hide OddOctets;
      assert pw'[d] == x && pw'[d + 1] == o1 && pw'[d + 2] == o2;
    } else {
      OtherBit(pw, pw', d, n);
    }
  }

  lemma OtherBit(pw: seq<bv8>, pw': seq<bv8>, d: int, n: int)
    requires 0 <= d && d + 3 <= |pw| == |pw'| && 0 <= n && !(8 * d <= n < 8 * d + 24)
    requires forall i :: 0 <= i < |pw| && !(d <= i < d + 3) ==> pw'[i] == pw[i]
    ensures BitAt(pw', n) == BitAt(pw, n)
  {
  }

  lemma NothingPacked(pw: seq<bv8>, h: seq<bv8>, flag: bool)
    requires forall i :: 0 <= i < |pw| ==> pw[i] == 0
    ensures Packed(pw, h, flag, 0) && Shifted(h, h, 0)
  {
    forall n | 0 <= n ensures !BitAt(pw, n) {
      LastOctet(0, n % 8);
    }
  }

  const SAE_MAX_HASH_LEN := 64

  /** The number of 20-bit groups made from a hash. */
  function Groups(hashLen: nat): nat {
    8 * hashLen / 20
  }

  /** Skip 8 * sec bits of the hash, then pack; the hash buffer is used up on the way. */
  method PackPasswordBase(hash: array<bv8>, sec: nat, pw: array<bv8>)
    requires hash.Length == 32 || hash.Length == 48 || hash.Length == 64
    requires sec == 3 || sec == 5
    requires pw.Length == SAE_MAX_HASH_LEN && pw != hash
    modifies hash, pw
    ensures Packed(pw[..], old(hash[sec..]), sec == 3, Groups(hash.Length))
  {
    hide Packed, Shifted, Next19, Bit8, BitAt;
    var flag := sec == 3;
    ghost var h := hash[sec..];
    forall i | 0 <= i < pw.Length {
      pw[i] := 0;
    }
    NothingPacked(pw[..], h, flag);
    assert hash[sec..] == h;
    var dst := 0;
    for j := 0 to 8 * hash.Length / 20
      invariant Packed(pw[..], h, flag, j) && Shifted(hash[sec..], h, j)
      invariant dst == if j % 2 == 0 then 5 * (j / 2) else 5 * (j / 2) + 2
    {
      var b0, b1, b2 := hash[sec], hash[sec + 1], hash[sec + 2];
      ReadNext19(hash[sec..], h, flag, j);
      var val := Group(flag, b0, b1, b2);
      ghost var now := hash[sec..];
      ShiftLeft19(hash, sec);
      ShiftedOnce(now, hash[sec..], h, j);
      StoreGroup(pw, dst, val, j, flag, b0, b1, b2, h);
      dst := dst + if j % 2 == 1 then 3 else 2;
    }
  }

  /** Three octets for a group: the middle one of two groups is shared. */
  method StoreGroup(pw: array<bv8>, dst: nat, val: nat, j: nat, ghost flag: bool, ghost b0: bv8, ghost b1: bv8, ghost b2: bv8, ghost h: seq<bv8>)
    requires dst == (if j % 2 == 0 then 5 * (j / 2) else 5 * (j / 2) + 2) && dst + 3 <= pw.Length
    requires val == Group(flag, b0, b1, b2) && Packed(pw[..], h, flag, j) && Next19(h, flag, j, b0, b1, b2)
    modifies pw
    ensures Packed(pw[..], h, flag, j + 1)
  {
    hide Packed, Next19, Group, And, Shr, Shl, ToOctet, EvenOctets, OddOctets, IsOr8;
    ghost var was := pw[..];
    if j % 2 == 1 {
      var o0, o1, o2 := ToOctet(And(Shr(val, 16), 0x0f)), ToOctet(Shr(val, 8)), ToOctet(val);
      OddGroup(flag, b0, b1, b2);
      Or8(pw[dst], o0);
      Store3(pw, dst, pw[dst] | o0, o1, o2);
      PackOdd(was, pw[..], h, flag, j, b0, b1, b2, was[dst] | o0, o0, o1, o2);
    } else {
      var o0, o1, o2 := ToOctet(Shr(val, 12)), ToOctet(Shr(val, 4)), ToOctet(And(Shl(val, 4), 0xf0));
      EvenGroup(flag, b0, b1, b2);
      Store3(pw, dst, o0, o1, o2);
      PackEven(was, pw[..], h, flag, j, b0, b1, b2, o0, o1, o2);
    }
  }

  method Store3(pw: array<bv8>, dst: nat, o0: bv8, o1: bv8, o2: bv8)
    requires dst + 3 <= pw.Length
    modifies pw
    ensures pw[..] == old(pw[..])[dst := o0][dst + 1 := o1][dst + 2 := o2]
  {
    pw[dst] := o0;
    pw[dst + 1] := o1;
    pw[dst + 2] := o2;
  }

  /** Group j of the packed buffer is the flag and then bits 19j to 19j + 18 of the hash. */
  lemma GroupOfPacked(pw: seq<bv8>, h: seq<bv8>, flag: bool, groups: int, j: int, u: int)
    requires Packed(pw, h, flag, groups) && 0 <= j < groups && 0 <= u < 20
    ensures BitAt(pw, 20 * j + u) == if u == 0 then flag else BitAt(h, 19 * j + u - 1)
  {
    assert (20 * j + u) / 20 == j && (20 * j + u) % 20 == u;
  }

  /** Dropping the leading bit of every group gives the hash bits back, in order. */
  lemma DropFlags(pw: seq<bv8>, h: seq<bv8>, flag: bool, groups: int, m: int)
    requires Packed(pw, h, flag, groups) && 0 <= m < 19 * groups
    ensures BitAt(h, m) == BitAt(pw, 20 * (m / 19) + 1 + m % 19)
  {
    GroupOfPacked(pw, h, flag, groups, m / 19, 1 + m % 19);
  }
}
