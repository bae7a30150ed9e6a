/**
 The helpers that both sides of SAE-PK use: octets as numbers, the first 19 bits of a buffer, and shifting a buffer
 in place. Bit 0 of an octet or of a buffer is the most significant one, and a buffer reads as zero past its end.
 */
module SaePkBuffers {
  import opened Bits

  predicate Bit8(b: bv8, t: int)
    requires 0 <= t < 8
  {
    if t == 0 then b & 0x80 != 0
    else if t == 1 then b & 0x40 != 0
    else if t == 2 then b & 0x20 != 0
    else if t == 3 then b & 0x10 != 0
    else if t == 4 then b & 0x08 != 0
    else if t == 5 then b & 0x04 != 0
    else if t == 6 then b & 0x02 != 0
    else b & 0x01 != 0
  }

  predicate BitAt(s: seq<bv8>, n: int)
    requires 0 <= n
  {
    n / 8 < |s| && Bit8(s[n / 8], n % 8)
  }

  // ---- Shifting a buffer left by 19 bits ----

  /** Bit t of the octet made from the last five bits of x and the first three of y. */
  lemma ShiftedOctet(x: bv8, y: bv8, t: int)
    requires 0 <= t < 8
    ensures Bit8((x << 3) | (y >> 5), t) == if t < 5 then Bit8(x, t + 3) else Bit8(y, t - 5)
  {
  }

  lemma LastOctet(x: bv8, t: int)
    requires 0 <= t < 8
    ensures Bit8(x << 3, t) == (t < 5 && Bit8(x, t + 3))
    ensures !Bit8(0, t)
  {
  }

  /** In place: two octets and three bits, with zeros coming in from the right. */
  method ShiftLeft19(buf: array<bv8>, at: nat)
    requires at + 3 <= buf.Length
    modifies buf
    ensures buf[..at] == old(buf[..at])
    ensures forall n :: 0 <= n ==> BitAt(buf[at..], n) == BitAt(old(buf[at..]), n + 19)
  {
    ghost var was := buf[..];
    var dst := at;
    var src := at + 2;
    while src + 1 < buf.Length
      invariant src == dst + 2 && at <= dst && src < buf.Length
      invariant forall i :: 0 <= i < at || dst <= i < buf.Length ==> buf[i] == was[i]
      invariant forall i :: at <= i < dst ==> buf[i] == (was[i + 2] << 3) | (was[i + 3] >> 5)
    {
      buf[dst] := (buf[src] << 3) | (buf[src + 1] >> 5);
      dst := dst + 1;
      src := src + 1;
    }
    buf[dst] := buf[src] << 3;
    buf[dst + 1] := 0;
    buf[dst + 2] := 0;
    ShiftedBits(was[at..], buf[at..]);
  }

  lemma ShiftedBits(a: seq<bv8>, b: seq<bv8>)
    requires |a| == |b| && 3 <= |a|
    requires forall i :: 0 <= i < |a| - 3 ==> b[i] == (a[i + 2] << 3) | (a[i + 3] >> 5)
    requires b[|a| - 3] == a[|a| - 1] << 3 && b[|a| - 2] == 0 && b[|a| - 1] == 0
    ensures forall n :: 0 <= n ==> BitAt(b, n) == BitAt(a, n + 19)
  {
    forall n | 0 <= n ensures BitAt(b, n) == BitAt(a, n + 19) {
      var i, t := n / 8, n % 8;
      assert (n + 19) / 8 == (if t < 5 then i + 2 else i + 3) && (n + 19) % 8 == (if t < 5 then t + 3 else t - 5);
      if i < |a| - 3 {
        ShiftedOctet(a[i + 2], a[i + 3], t);
      } else {
        LastOctet(a[|a| - 1], t);
      }
    }
  }

  // ---- Shifting a buffer left by one bit ----

  lemma ShiftedByOne(x: bv8, y: bv8, t: int)
    requires 0 <= t < 8
    ensures Bit8((x << 1) | (y >> 7), t) == if t < 7 then Bit8(x, t + 1) else Bit8(y, 0)
    ensures Bit8(x << 1, t) == (t < 7 && Bit8(x, t + 1))
  {
  }

  method ShiftLeft1(buf: array<bv8>)
    requires buf.Length > 0
    modifies buf
    ensures forall n :: 0 <= n ==> BitAt(buf[..], n) == BitAt(old(buf[..]), n + 1)
  {
    ghost var was := buf[..];
    var i := 0;
    while i + 1 < buf.Length
      invariant 0 <= i < buf.Length
      invariant forall k :: i <= k < buf.Length ==> buf[k] == was[k]
      invariant forall k :: 0 <= k < i ==> buf[k] == (was[k] << 1) | (was[k + 1] >> 7)
    {
      buf[i] := (buf[i] << 1) | (buf[i + 1] >> 7);
      i := i + 1;
    }
    buf[i] := buf[i] << 1;
    ShiftedBitsByOne(was, buf[..]);
  }

  lemma ShiftedBitsByOne(a: seq<bv8>, b: seq<bv8>)
    requires |a| == |b| > 0
    requires forall k :: 0 <= k < |a| - 1 ==> b[k] == (a[k] << 1) | (a[k + 1] >> 7)
    requires b[|a| - 1] == a[|a| - 1] << 1
    ensures forall n :: 0 <= n ==> BitAt(b, n) == BitAt(a, n + 1)
  {
    hide Bit8;
    forall n | 0 <= n ensures BitAt(b, n) == BitAt(a, n + 1) {
      var i, t := n / 8, n % 8;
      assert (n + 1) / 8 == (if t < 7 then i else i + 1) && (n + 1) % 8 == (if t < 7 then t + 1 else 0);
      if i < |a| {
        ShiftedByOne(a[i], if i < |a| - 1 then a[i + 1] else 0, t);
      }
    }
  }

  // ---- Octets as numbers ----

  function FirstBits(b: bv8, t: nat): nat
    requires t <= 8
  {
    if t == 0 then 0 else 2 * FirstBits(b, t - 1) + if Bit8(b, t - 1) then 1 else 0
  }

  function ToNat(b: bv8): nat {
    FirstBits(b, 8)
  }

  lemma {:induction false} FirstBitsSmall(b: bv8, t: nat)
    requires t <= 8
    ensures FirstBits(b, t) < Pow2(t)
  {
    hide Bit8;
    if t > 0 {
      FirstBitsSmall(b, t - 1);
    }
  }

  lemma LastBit(x: nat, last: bool, k: nat)
    ensures Bit(2 * x + if last then 1 else 0, k) == if k == 0 then last else Bit(x, k - 1)
  {
    var y := 2 * x + if last then 1 else 0;
    assert y / 2 == x && (y % 2 == 1) == last;
  }

  lemma {:induction false} FirstBit(b: bv8, t: nat, k: nat)
    requires t <= 8
    ensures Bit(FirstBits(b, t), k) == (k < t && Bit8(b, t - 1 - k))
  {
    hide Bit8;
    if t == 0 {
      NoBit(k);
    } else {
      LastBit(FirstBits(b, t - 1), Bit8(b, t - 1), k);
      hide Bit;
      if k > 0 {
        FirstBit(b, t - 1, k - 1);
      }
    }
  }

  /** Truncation to an octet. */
  function ToOctet(n: nat): bv8 {
    (if Bit(n, 7) then 0x80 else 0) | (if Bit(n, 6) then 0x40 else 0) | (if Bit(n, 5) then 0x20 else 0)
    | (if Bit(n, 4) then 0x10 else 0) | (if Bit(n, 3) then 0x08 else 0) | (if Bit(n, 2) then 0x04 else 0)
    | (if Bit(n, 1) then 0x02 else 0) | (if Bit(n, 0) then 0x01 else 0)
  }

  lemma OctetBit(n: nat, t: nat)
    requires t < 8
    ensures Bit8(ToOctet(n), t) == Bit(n, 7 - t)
  {
    hide Bit;
  }

  /** The first 19 bits of a buffer as a number. */
  function GetBe19(b0: bv8, b1: bv8, b2: bv8): nat {
    Or(Shl(ToNat(b0), 11), GetBe11(b1, b2))
  }

  /** The last eleven of them. */
  function GetBe11(b1: bv8, b2: bv8): nat {
    Or(Shl(ToNat(b1), 3), Shr(ToNat(b2), 5))
  }

  lemma Be11Small(b1: bv8, b2: bv8)
    ensures Shr(ToNat(b2), 5) < Pow2(3) && GetBe11(b1, b2) < Pow2(11)
  {
    hide Or, FirstBits;
    FirstBitsSmall(b1, 8);
    FirstBitsSmall(b2, 8);
    Pow2Add(5, 3);
    Pow2Add(8, 3);
    QuotLess(ToNat(b2), Pow2(5), Pow2(3));
    OrDisjoint(ToNat(b1), Shr(ToNat(b2), 5), 3);
    JoinLess(ToNat(b1), Shr(ToNat(b2), 5), Pow2(8), Pow2(3));
  }

  lemma Be19Small(b0: bv8, b1: bv8, b2: bv8)
    ensures GetBe19(b0, b1, b2) < Pow2(19)
  {
    hide Or, FirstBits, GetBe11;
    FirstBitsSmall(b0, 8);
    Be11Small(b1, b2);
    Pow2Add(8, 11);
    OrDisjoint(ToNat(b0), GetBe11(b1, b2), 11);
    JoinLess(ToNat(b0), GetBe11(b1, b2), Pow2(8), Pow2(11));
  }

  lemma Be19Bit(b0: bv8, b1: bv8, b2: bv8, k: nat)
    requires k < 19
    ensures Bit(GetBe19(b0, b1, b2), k) == GroupBit(false, b0, b1, b2, 19 - k)
  {
    hide Bit8, Or, Bit, FirstBits, Pow2, Shl, Shr;
    Be11Small(b1, b2);
    ShlOrBit(ToNat(b0), GetBe11(b1, b2), 11, k);
    if k >= 11 {
      FirstBit(b0, 8, k - 11);
    } else {
      ShlOrBit(ToNat(b1), Shr(ToNat(b2), 5), 3, k);
      if k >= 3 {
        FirstBit(b1, 8, k - 3);
      } else {
        ShrBit(ToNat(b2), 5, k);
        FirstBit(b2, 8, k + 5);
      }
    }
  }

  lemma OrBit8(x: bv8, y: bv8, t: int)
    requires 0 <= t < 8
    ensures Bit8(x | y, t) == (Bit8(x, t) || Bit8(y, t))
  {
  }

  /** Bit u of the group made of the flag and the first 19 bits of three octets. */
  predicate GroupBit(flag: bool, b0: bv8, b1: bv8, b2: bv8, u: int)
    requires 0 <= u < 20
  {
    if u == 0 then flag
    else if u <= 8 then Bit8(b0, u - 1)
    else if u <= 16 then Bit8(b1, u - 9)
    else Bit8(b2, u - 17)
  }

  lemma GroupIsFirstBits(now: seq<bv8>, flag: bool, u: int)
    requires 3 <= |now| && 0 <= u < 20
    ensures GroupBit(flag, now[0], now[1], now[2], u) == if u == 0 then flag else BitAt(now, u - 1)
  {
    hide Bit8;
  }
}
