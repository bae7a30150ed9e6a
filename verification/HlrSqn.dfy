/**
 Sequence numbers of the AuC: a 48-bit SQN is SEQ followed by `indLen` bits of IND, as in Annex C.3.2 of
 3GPP TS 33.102, kept as six big-endian octets and incremented in place.
 */
module HlrSqn {
  import opened Bits
  import opened Macs
  import opened Seqs

  const SQN_LEN := 6
  const SQN_BITS := 48

  function Be16(b: seq<Byte>): nat
    requires |b| == 2
  {
    b[0] as nat * 0x100 + b[1] as nat
  }

  function Be32(b: seq<Byte>): nat
    requires |b| == 4
  {
    Be16(b[..2]) * 0x1_0000 + Be16(b[2..])
  }

  /** The number that six octets stand for. */
  function Value(b: seq<Byte>): nat
    requires |b| == SQN_LEN
  {
    Be32(b[..4]) * 0x1_0000 + Be16(b[4..])
  }

  function Seq(v: nat, k: nat): nat { Quot(v, Pow2(k)) }

  function Ind(v: nat, k: nat): nat { Rem(v, Pow2(k)) }

  /** SEQ and IND both go up by one, each in its own width. */
  function Next(v: nat, k: nat): nat
    requires k <= SQN_BITS
  {
    Rem(Seq(v, k) + 1, Pow2(SQN_BITS - k)) * Pow2(k) + Rem(Ind(v, k) + 1, Pow2(k))
  }

  // ---- The octets ----

  /** Bit `j` of the whole, counted from the low end of the last octet. */
  predicate OctetBit(b: seq<Byte>, j: nat)
    requires |b| == SQN_LEN && j < SQN_BITS
  {
    Bit(b[5 - j / 8] as nat, j % 8)
  }

  /** The first octet weighs most. */
  lemma ValueIsSum(b: seq<Byte>)
    requires |b| == SQN_LEN
    ensures Value(b) == b[0] as nat * 0x100_0000_0000 + b[1] as nat * 0x1_0000_0000 + b[2] as nat * 0x100_0000
                      + b[3] as nat * 0x1_0000 + b[4] as nat * 0x100 + b[5] as nat
  {
  }

  /** The number that the first `n` octets stand for. */
  function Leading(b: seq<Byte>, n: nat): nat
    requires n <= |b|
  {
    if n == 0 then 0 else Leading(b, n - 1) * 0x100 + b[n - 1] as nat
  }

  lemma ValueIsLeading(b: seq<Byte>)
    requires |b| == SQN_LEN
    ensures Value(b) == Leading(b, SQN_LEN)
  {
    ValueIsSum(b);
    assert Leading(b, 1) == b[0] as nat;
    assert Leading(b, 2) == Leading(b, 1) * 0x100 + b[1] as nat;
    assert Leading(b, 3) == Leading(b, 2) * 0x100 + b[2] as nat;
    assert Leading(b, 4) == Leading(b, 3) * 0x100 + b[3] as nat;
    assert Leading(b, 5) == Leading(b, 4) * 0x100 + b[4] as nat;
    assert Leading(b, 6) == Leading(b, 5) * 0x100 + b[5] as nat;
    hide Value, Leading;
  }

  lemma {:induction false} LeadingBit(b: seq<Byte>, n: nat, j: nat)
    requires n <= |b| && j < 8 * n
    ensures 0 <= n - 1 - j / 8 && Bit(Leading(b, n), j) == Bit(b[n - 1 - j / 8] as nat, j % 8)
  {
    hide Bit, Pow2;
    Pow2Eight();
    JoinedBit(Leading(b, n - 1), b[n - 1] as nat, 8, j);
    if j >= 8 {
      LeadingBit(b, n - 1, j - 8);
      assert (j - 8) / 8 == j / 8 - 1 && (j - 8) % 8 == j % 8;
    }
  }

  lemma Pow2Eight()
    ensures Pow2(8) == 0x100
  {
    assert Pow2(4) == 16;
    Pow2Add(4, 4);
  }

  /** Bit `j` of the number is bit `j % 8` of octet `5 - j / 8`. */
  lemma ValueBit(b: seq<Byte>, j: nat)
    requires |b| == SQN_LEN && j < SQN_BITS
    ensures Bit(Value(b), j) == Bit(b[5 - j / 8] as nat, j % 8)
  {
    ValueIsLeading(b);
    LeadingBit(b, SQN_LEN, j);
  }

  lemma {:induction false} LeadingDecides(b: seq<Byte>, c: seq<Byte>, n: nat)
    requires n <= |b| && n <= |c| && Leading(b, n) == Leading(c, n)
    ensures forall i :: 0 <= i < n ==> b[i] == c[i]
  {
    if n > 0 {
      DivModIs(Leading(b, n), 0x100, Leading(b, n - 1), b[n - 1] as nat);
      DivModIs(Leading(c, n), 0x100, Leading(c, n - 1), c[n - 1] as nat);
      LeadingDecides(b, c, n - 1);
    }
  }

  /** A number has one form in six octets. */
  lemma ValueDecides(b: seq<Byte>, c: seq<Byte>)
    requires |b| == |c| == SQN_LEN && Value(b) == Value(c)
    ensures b == c
  {
    hide Value, Leading;
    ValueIsLeading(b);
    ValueIsLeading(c);
    LeadingDecides(b, c, SQN_LEN);
  }

  ghost predicate OnesBetween(x: nat, from: nat, to: nat) {
    forall i: nat :: from <= i < to ==> Bit(x, i)
  }

  /** Adding one flips a bit exactly when all lower ones are set. */
  lemma {:induction false} SuccBit(x: nat, j: nat)
    ensures Bit(x + 1, j) == (Bit(x, j) != OnesBetween(x, 0, j))
  {
    if j > 0 {
      SuccBit(x / 2, j - 1);
      assert OnesBetween(x, 0, j) <==> Bit(x, 0) && OnesBetween(x / 2, 0, j - 1) by {
        OnesHalved(x, j);
      }
    }
  }

  lemma OnesHalved(x: nat, j: nat)
    requires j > 0
    ensures OnesBetween(x, 0, j) <==> Bit(x, 0) && OnesBetween(x / 2, 0, j - 1)
  {
    if OnesBetween(x, 0, j) {
      forall i: nat | i < j - 1 ensures Bit(x / 2, i) {
        assert Bit(x, i + 1);
      }
    }
    if Bit(x, 0) && OnesBetween(x / 2, 0, j - 1) {
      forall i: nat | i < j ensures Bit(x, i) {
        assert i > 0 ==> Bit(x / 2, i - 1);
      }
    }
  }

  /** All octet bits between two places are set. */
  ghost predicate OctetOnes(b: seq<Byte>, from: nat, to: nat)
    requires |b| == SQN_LEN && to < SQN_BITS
  {
    forall i: nat :: from <= i < to ==> OctetBit(b, i)
  }

  /** The octets after a step: a bit flips exactly when all lower ones of its own part, SEQ or IND, are set. */
  ghost predicate SteppedOctets(was: seq<Byte>, now: seq<Byte>, k: nat)
    requires |was| == |now| == SQN_LEN
  {
    forall j: nat :: j < SQN_BITS ==>
      OctetBit(now, j) == (OctetBit(was, j) != OctetOnes(was, if j < k then 0 else k, j))
  }

  lemma NextBit(v: nat, k: nat, j: nat)
    requires k <= SQN_BITS && j < SQN_BITS
    ensures Bit(Next(v, k), j) == (Bit(v, j) != OnesBetween(v, if j < k then 0 else k, j))
  {
    hide Bit, Pow2, OnesBetween;
    var p := Pow2(k);
    JoinedBit(Rem(Seq(v, k) + 1, Pow2(SQN_BITS - k)), Rem(Ind(v, k) + 1, p), k, j);
    if j < k {
      WrappedBit(Ind(v, k) + 1, k, j);
      SuccBit(Ind(v, k), j);
      WrappedBit(v, k, j);
      IndOnes(v, k, j);
    } else {
      WrappedBit(Seq(v, k) + 1, SQN_BITS - k, j - k);
      SuccBit(Seq(v, k), j - k);
      assert Seq(v, k) == Shr(v, k);
      ShrBit(v, k, j - k);
      SeqOnes(v, k, j);
    }
  }

  lemma IndOnes(v: nat, k: nat, j: nat)
    requires j < k
    ensures OnesBetween(Ind(v, k), 0, j) <==> OnesBetween(v, 0, j)
  {
    forall i: nat | i < j ensures Bit(Ind(v, k), i) == Bit(v, i) {
      WrappedBit(v, k, i);
    }
    hide Bit, Ind;
  }

  lemma SeqOnes(v: nat, k: nat, j: nat)
    requires k <= j
    ensures OnesBetween(Seq(v, k), 0, j - k) <==> OnesBetween(v, k, j)
  {
    assert Seq(v, k) == Shr(v, k);
    hide Bit, Seq, Shr;
    forall i: nat | i < j - k ensures Bit(Seq(v, k), i) == Bit(v, i + k) {
      ShrBit(v, k, i);
    }
    if OnesBetween(Seq(v, k), 0, j - k) {
      forall i: nat | k <= i < j ensures Bit(v, i) {
        assert Bit(Seq(v, k), i - k) == Bit(v, i - k + k);
      }
    }
    if OnesBetween(v, k, j) {
      forall i: nat | i < j - k ensures Bit(Seq(v, k), i) {
        assert Bit(v, i + k);
      }
    }
  }

  lemma NextOctets(was: seq<Byte>, now: seq<Byte>, k: nat)
    requires |was| == |now| == SQN_LEN && k <= SQN_BITS && Value(now) == Next(Value(was), k)
    ensures SteppedOctets(was, now, k)
  {
    hide Value, Next, Bit;
    forall j: nat | j < SQN_BITS
      ensures OctetBit(now, j) == (OctetBit(was, j) != OctetOnes(was, if j < k then 0 else k, j))
    {
      ValueBit(now, j);
      ValueBit(was, j);
      NextBit(Value(was), k, j);
      OctetOnesAre(was, if j < k then 0 else k, j);
    }
  }

  lemma OctetOnesAre(b: seq<Byte>, from: nat, to: nat)
    requires |b| == SQN_LEN && to < SQN_BITS
    ensures OctetOnes(b, from, to) <==> OnesBetween(Value(b), from, to)
  {
    hide Value, Bit;
    forall i: nat | i < to ensures OctetBit(b, i) == Bit(Value(b), i) {
      ValueBit(b, i);
    }
    hide OctetBit;
  }

  /** Bit by bit this determines the octets: it is what a correct step means. */
  lemma SteppedOctetsDecide(was: seq<Byte>, now: seq<Byte>, now': seq<Byte>, k: nat)
    requires |was| == |now| == |now'| == SQN_LEN
    requires SteppedOctets(was, now, k) && SteppedOctets(was, now', k)
    ensures now == now'
  {
    forall j: nat | j < SQN_BITS ensures OctetBit(now, j) == OctetBit(now', j) {
    }
    hide SteppedOctets;
    forall i | 0 <= i < SQN_LEN ensures now[i] == now'[i] {
      OctetIs(now, now', i);
    }
  }

  lemma OctetIs(b: seq<Byte>, c: seq<Byte>, i: nat)
    requires |b| == |c| == SQN_LEN && i < SQN_LEN
    requires forall j: nat :: j < SQN_BITS ==> OctetBit(b, j) == OctetBit(c, j)
    ensures b[i] == c[i]
  {
    var x: nat, y: nat := b[i] as nat, c[i] as nat;
    hide Bit;
    forall j: nat | j < 8 ensures Bit(x, j) == Bit(y, j) {
      var m := 8 * (5 - i) + j;
      assert m / 8 == 5 - i && m % 8 == j;
      assert OctetBit(b, m) == OctetBit(c, m);
    }
    Pow2Eight();
    hide Pow2;
    BitsDecide(x, y, 8);
  }

  /** Without IND a last octet below 255 takes the step alone. */
  lemma LastOctetSteps(was: seq<Byte>, now: seq<Byte>)
    requires |was| == |now| == SQN_LEN && Value(now) == Next(Value(was), 0) && was[5] < 255
    ensures now == was[5 := was[5] + 1]
  {
    var next := was[5 := was[5] + 1];
    ValueIsSum(was);
    ValueIsSum(next);
    hide Value;
    ValueDecides(now, next) by {
      assert Value(next) == Value(was) + 1 < 0x1_0000_0000_0000;
      NextWithoutInd(Value(was));
    }
  }

  lemma NextWithoutInd(v: nat)
    requires v + 1 < 0x1_0000_0000_0000
    ensures Next(v, 0) == v + 1
  {
    Pow2Sixteen();
    SmallRem(v + 1, Pow2(SQN_BITS));
    assert Pow2(0) == 1 && Seq(v, 0) == v && Rem(Ind(v, 0) + 1, 1) == 0;
    hide Pow2, Seq, Ind, Rem;
  }

  /** SEQ 0 and IND 5 of five bits become SEQ 1 and IND 6. */
  lemma StepExample(now: seq<Byte>)
    requires |now| == SQN_LEN && Value(now) == Next(Value([0, 0, 0, 0, 0, 0x05]), 5)
    ensures now == [0, 0, 0, 0, 0, 0x26]
  {
    assert Pow2(5) == 0x20;
    SmallNext(5, 5);
    hide Next, Pow2;
    ValueIsSum([0, 0, 0, 0, 0, 0x05]);
    ValueIsSum([0, 0, 0, 0, 0, 0x26]);
    hide Value;
    ValueDecides(now, [0, 0, 0, 0, 0, 0x26]);
  }

  /** From the first SEQ, with an IND that does not wrap. */
  lemma SmallNext(v: nat, k: nat)
    requires k < SQN_BITS && v + 1 < Pow2(k)
    ensures Next(v, k) == Pow2(k) + v + 1
  {
    Pow2Mono(1, SQN_BITS - k);
    assert Pow2(1) == 2;
    var p, w := Pow2(k), Pow2(SQN_BITS - k);
    DivModIs(v, p, 0, v);
    assert Seq(v, k) == 0 && Ind(v, k) == v;
    SmallRem(1, w);
    SmallRem(v + 1, p);
    hide Pow2, Seq, Ind, Rem, Quot;
    assert Next(v, k) == 1 * p + (v + 1);
  }

  // ---- The increment on octets ----

  method PutBe16(a: array<Byte>, at: nat, x: nat)
    requires at + 2 <= a.Length && x < 0x1_0000
    modifies a
    ensures Be16(a[at..at + 2]) == x
    ensures a[..at] == old(a[..at]) && a[at + 2..] == old(a[at + 2..])
  {
    a[at] := (x / 0x100) as Byte;
    a[at + 1] := (x % 0x100) as Byte;
    assert a[at..at + 2] == [a[at], a[at + 1]];
  }

  method PutBe32(a: array<Byte>, at: nat, x: nat)
    requires at + 4 <= a.Length && x < 0x1_0000_0000
    modifies a
    ensures Be32(a[at..at + 4]) == x
    ensures a[..at] == old(a[..at]) && a[at + 4..] == old(a[at + 4..])
  {
    ghost var was := a[..];
    PutBe16(a, at, x / 0x1_0000);
    ghost var mid := a[..];
    assert mid[at + 4..] == a[at + 2..][2..] == was[at + 2..][2..] == was[at + 4..];
    PutBe16(a, at + 2, x % 0x1_0000);
    assert a[..at + 2] == mid[..at + 2];
    assert a[..at] == a[..at + 2][..at] == mid[..at];
    assert a[at..at + 4][..2] == a[..at + 2][at..] == mid[at..at + 2];
    assert a[at..at + 4][2..] == a[at + 2..at + 4];
  }

  /** The mask for IND. The code shifts a C `int`; beyond 30 places its value is undefined, and taken to be `beyond`. */
  function Mask(indLen: nat, beyond: nat): nat {
    if indLen <= 30 then Shl(1, indLen) - 1 else beyond
  }

  /** What the code computes with some mask. */
  function Stepped(v: nat, k: nat, mask: nat): nat {
    Or(Shl(Shr(v, k) + 1, k), And(v + 1, mask)) % 0x1_0000_0000_0000
  }

  /** The 48 low bits of the mask are `k` ones; without IND the mask does not matter. */
  predicate IsMask(mask: nat, k: nat) {
    k == 0 || Rem(mask, Pow2(SQN_BITS)) == Pow2(k) - 1
  }

  /** `inc_sqn`: shift SEQ out, add one, mask IND, put them together again and store 48 bits. */
  method IncSqn(sqn: array<Byte>, indLen: nat, beyond: nat)
    requires sqn.Length == SQN_LEN && indLen <= 32
    modifies sqn
    ensures Value(sqn[..]) == Stepped(old(Value(sqn[..])), indLen, Mask(indLen, beyond))
    ensures IsMask(Mask(indLen, beyond), indLen) ==> Value(sqn[..]) == Next(old(Value(sqn[..])), indLen)
    ensures indLen <= 30 ==> Value(sqn[..]) == Next(old(Value(sqn[..])), indLen)
    ensures indLen <= 30 ==> SteppedOctets(old(sqn[..]), sqn[..], indLen)
  {
    ghost var was := sqn[..];
    var val := GetValue(sqn);
    StepsRight(val, indLen, beyond);
    hide IsMask, Mask, Next, Value, Or, And;
    var seq' := Shr(val, indLen) + 1;
    var ind := And(val + 1, Mask(indLen, beyond));
    PutValue(sqn, Or(Shl(seq', indLen), ind));
    if indLen <= 30 {
      NextOctets(was, sqn[..], indLen);
    }
  }

  method GetValue(sqn: array<Byte>) returns (val: nat)
    requires sqn.Length == SQN_LEN
    ensures val == Value(sqn[..])
  {
    hide Or;
    assert sqn[..][..4] == sqn[..4] && sqn[..][4..] == sqn[4..6];
    val := Or(Shl(Be32(sqn[..4]), 16), Be16(sqn[4..6]));
    Pow2Sixteen();
    OrDisjoint(Be32(sqn[..4]), Be16(sqn[4..6]), 16);
  }

  /** Store the 48 low bits. */
  method PutValue(sqn: array<Byte>, val: nat)
    requires sqn.Length == SQN_LEN
    modifies sqn
    ensures Value(sqn[..]) == val % 0x1_0000_0000_0000
  {
    PutBe32(sqn, 0, val / 0x1_0000 % 0x1_0000_0000);
    ghost var high := sqn[..4];
    PutBe16(sqn, 4, val % 0x1_0000);
    assert sqn[..][..4] == sqn[..4] == high == sqn[0..4];
    assert sqn[..][4..] == sqn[4..6];
    Split48(val);
  }

  lemma Pow2Sixteen()
    ensures Pow2(16) == 0x1_0000 && Pow2(SQN_BITS) == 0x1_0000_0000_0000
  {
    assert Pow2(4) == 16;
    Pow2Add(4, 4);
    Pow2Add(8, 8);
    Pow2Add(16, 16);
    Pow2Add(32, 16);
  }

  /** Storing 32 and 16 bits stores the value modulo 2^48. */
  lemma Split48(val: nat)
    ensures val / 0x1_0000 % 0x1_0000_0000 * 0x1_0000 + val % 0x1_0000 == val % 0x1_0000_0000_0000
  {
    var q := val / 0x1_0000;
    DivModIs(val, 0x1_0000_0000_0000, q / 0x1_0000_0000, q % 0x1_0000_0000 * 0x1_0000 + val % 0x1_0000);
  }

  /** With k ones for a mask the code computes `Next`: the mask keeps SEQ's carry out of IND. */
  lemma IncValue(v: nat, k: nat)
    requires k <= SQN_BITS
    ensures Stepped(v, k, Pow2(k) - 1) == Next(v, k)
  {
    hide Or, And, Pow2;
    var p, w := Pow2(k), Pow2(SQN_BITS - k);
    var s, i := v / p + 1, (v + 1) % p;
    assert Stepped(v, k, p - 1) == Or(s * p, And(v + 1, p - 1)) % 0x1_0000_0000_0000;
    assert Next(v, k) == s % w * p + (v % p + 1) % p;
    hide Stepped, Next, Shl, Shr, Seq, Ind, Quot, Rem;
    Pow2Add(SQN_BITS - k, k);
    Pow2Sixteen();
    AndMask(v + 1, k);
    OrDisjoint(s, i, k);
    SuccMod(v, p);
    ModSplit(s, i, w, p);
  }

  lemma SuccMod(v: nat, p: nat)
    requires p > 0
    ensures (v + 1) % p == (v % p + 1) % p
  {
    var q, r := v / p, v % p;
    assert v == q * p + r;
    if r + 1 < p {
      DivModIs(v + 1, p, q, r + 1);
      DivModIs(r + 1, p, 0, r + 1);
    } else {
      assert (q + 1) * p == q * p + p;
      DivModIs(v + 1, p, q + 1, 0);
      DivModIs(p, p, 1, 0);
    }
  }

  /** Truncating SEQ|IND truncates SEQ. */
  lemma ModSplit(s: nat, i: nat, w: nat, p: nat)
    requires i < p && w > 0
    ensures w * p > 0 && (s * p + i) % (w * p) == s % w * p + i
  {
    var q, r := s / w, s % w;
    assert s * p + i == q * (w * p) + (r * p + i) by {
      assert s == q * w + r;
      assert (q * w + r) * p == q * (w * p) + r * p;
    }
    assert r * p + i < w * p by {
      Times(w - r, p);
      assert (w - r) * p == w * p - r * p;
    }
    DivModIs(s * p + i, w * p, q, r * p + i);
  }

  // ---- Masks ----

  lemma MaskIsMask(k: nat, beyond: nat)
    ensures k <= 30 ==> IsMask(Mask(k, beyond), k)
  {
    if k <= 30 {
      Pow2Mono(k, SQN_BITS);
      SmallRem(Pow2(k) - 1, Pow2(SQN_BITS));
    }
    hide Pow2;
  }

  lemma StepsRight(v: nat, k: nat, beyond: nat)
    requires k <= SQN_BITS
    ensures k <= 30 || IsMask(Mask(k, beyond), k) ==> Stepped(v, k, Mask(k, beyond)) == Next(v, k)
  {
    hide Stepped, Next, Mask, IsMask;
    MaskIsMask(k, beyond);
    if IsMask(Mask(k, beyond), k) {
      MaskedIsNext(v, k, Mask(k, beyond));
    }
  }

  lemma SmallRem(x: nat, d: nat)
    requires x < d
    ensures Rem(x, d) == x
  {
  }

  /** One bit of what the code computes: of SEQ, or of the masked IND. */
  lemma SteppedBit(v: nat, k: nat, mask: nat, j: nat)
    requires j < SQN_BITS
    ensures Bit(Stepped(v, k, mask), j) == ((k <= j && Bit(Shr(v, k) + 1, j - k)) || (Bit(v + 1, j) && Bit(mask, j)))
  {
    hide Or, And, Shl, Shr, Bit, Pow2;
    Pow2Sixteen();
    var seq', ind := Shl(Shr(v, k) + 1, k), And(v + 1, mask);
    WrappedBit(Or(seq', ind), SQN_BITS, j);
    OrBit(seq', ind, j);
    ShlBit(Shr(v, k) + 1, k, j);
    AndBit(v + 1, mask, j);
  }

  lemma SteppedSmall(v: nat, k: nat, mask: nat)
    ensures Stepped(v, k, mask) < Pow2(SQN_BITS)
  {
    hide Or, And, Shl, Shr, Pow2;
    Pow2Sixteen();
  }

  lemma MaskBit(mask: nat, k: nat, j: nat)
    requires j < SQN_BITS && 0 < k && IsMask(mask, k)
    ensures Bit(mask, j) == (j < k)
  {
    hide Bit, Pow2;
    WrappedBit(mask, SQN_BITS, j);
    OnesBit(k, j);
  }

  /** Any such mask does as well as k ones. */
  lemma MaskedIsNext(v: nat, k: nat, mask: nat)
    requires k <= SQN_BITS && IsMask(mask, k)
    ensures Stepped(v, k, mask) == Next(v, k)
  {
    hide Stepped, Next, IsMask, Pow2, Bit;
    IncValue(v, k);
    SteppedSmall(v, k, mask);
    SteppedSmall(v, k, Pow2(k) - 1);
    forall j: nat | j < SQN_BITS ensures Bit(Stepped(v, k, mask), j) == Bit(Stepped(v, k, Pow2(k) - 1), j) {
      MaskedBit(v, k, mask, j);
    }
    BitsDecide(Stepped(v, k, mask), Stepped(v, k, Pow2(k) - 1), SQN_BITS);
  }

  lemma MaskedBit(v: nat, k: nat, mask: nat, j: nat)
    requires j < SQN_BITS && IsMask(mask, k)
    ensures Bit(Stepped(v, k, mask), j) == Bit(Stepped(v, k, Pow2(k) - 1), j)
  {
    hide Stepped, IsMask, Pow2, Bit, Shr;
    SteppedBit(v, k, mask, j);
    SteppedBit(v, k, Pow2(k) - 1, j);
    OnesBit(k, j);
    if k > 0 {
      MaskBit(mask, k, j);
    } else {
      NoShift(v);
    }
  }

  lemma NoShift(v: nat)
    ensures Shr(v, 0) == v
  {
  }

  /** For every other mask there is a number that the code does not step as it should. */
  lemma BadMask(k: nat, mask: nat) returns (v: nat)
    requires k <= SQN_BITS && !IsMask(mask, k)
    ensures v < Pow2(SQN_BITS) && Stepped(v, k, mask) != Next(v, k)
  {
    var j := WrongBit(k, mask);
    v := Witness(k, j);
    hide Stepped, Next, Bit, Shr, Pow2, IsMask;
    IncValue(v, k);
    SteppedBit(v, k, mask, j);
    SteppedBit(v, k, Pow2(k) - 1, j);
    OnesBit(k, j);
  }

  lemma WrongBit(k: nat, mask: nat) returns (j: nat)
    requires k <= SQN_BITS && !IsMask(mask, k)
    ensures 0 < k && j < SQN_BITS && Bit(mask, j) != (j < k)
  {
    hide Bit;
    var m := Rem(mask, Pow2(SQN_BITS));
    Pow2Mono(k, SQN_BITS);
    hide Pow2;
    if j' : nat :| j' < SQN_BITS && Bit(mask, j') != (j' < k) {
      j := j';
    } else {
      forall i: nat | i < SQN_BITS ensures Bit(m, i) == Bit(Pow2(k) - 1, i) {
        WrappedBit(mask, SQN_BITS, i);
        OnesBit(k, i);
      }
      BitsDecide(m, Pow2(k) - 1, SQN_BITS);
      assert false;
    }
  }

  /** A number whose successor has bit j while the SEQ part of the step does not. */
  lemma Witness(k: nat, j: nat) returns (v: nat)
    requires 0 < k <= SQN_BITS && j < SQN_BITS
    ensures v < Pow2(SQN_BITS) && Bit(v + 1, j) && !(k <= j && Bit(Shr(v, k) + 1, j - k))
  {
    hide Bit;
    if j < k {
      v := Pow2(j) - 1;
      Pow2Mono(j, SQN_BITS);
      hide Pow2;
      JoinedBit(1, 0, j, j);
      OneBit();
    } else {
      v := HighWitness(k, j);
    }
  }

  lemma HighWitness(k: nat, j: nat) returns (v: nat)
    requires 0 < k <= j < SQN_BITS
    ensures v < Pow2(SQN_BITS) && Bit(v + 1, j) && !Bit(Shr(v, k) + 1, j - k)
  {
    var m := j - k + 1;
    hide *;
    v := Shl(Pow2(m) - 1, k);
    ShiftedOnes(m, k);
    Pow2Mono(j + 1, SQN_BITS);
    OnesBit(m, j - k);
    BitAbove(m, j - k);
  }

  /** Ones shifted left, one more than that, and shifted back. */
  lemma ShiftedOnes(m: nat, k: nat)
    requires 0 < k && 0 < m
    ensures var x := Pow2(m) - 1;
            && Shl(x, k) < Pow2(m + k) && Shr(Shl(x, k), k) == x
            && Bit(Shl(x, k) + 1, m + k - 1) == Bit(x, m - 1)
  {
    var x, p := Pow2(m) - 1, Pow2(k);
    assert p >= 2;
    hide Bit, Pow2;
    Pow2Add(m, k);
    JoinLess(x, 0, Pow2(m), p);
    JoinedBit(x, 1, k, m + k - 1);
    DivModIs(x * p, p, x, 0);
  }

  lemma BitAbove(m: nat, i: nat)
    requires i < m
    ensures !Bit(Pow2(m) - 1 + 1, i)
  {
    hide Bit, Pow2;
    JoinedBit(1, 0, m, i);
    NoBit(i);
    assert 1 * Pow2(m) + 0 == Pow2(m) - 1 + 1;
  }

  lemma OneBit()
    ensures Bit(1, 0)
  {
  }

  /** The code steps every number as it should exactly with such a mask. */
  lemma StepsExactly(k: nat, mask: nat)
    requires k <= SQN_BITS
    ensures (forall v: nat :: v < Pow2(SQN_BITS) ==> Stepped(v, k, mask) == Next(v, k)) <==> IsMask(mask, k)
  {
    hide Stepped, Next, Pow2, IsMask;
    if IsMask(mask, k) {
      forall v: nat | v < Pow2(SQN_BITS) ensures Stepped(v, k, mask) == Next(v, k) {
        MaskedIsNext(v, k, mask);
      }
    } else {
      var v := BadMask(k, mask);
    }
  }

  /** The option parser admits 32. On a processor that takes shift counts modulo 32 the mask is 0 then, and IND stays 0. */
  lemma ThirtyTwoIsBad(v: nat)
    ensures !IsMask(0, 32)
    ensures Ind(Stepped(v, 32, 0), 32) == 0
  {
    Pow2Mono(1, 32);
    Pow2Add(16, 32);
    Pow2Sixteen();
    NoMask(v + 1);
    hide Or, And, Pow2;
    var s, p := Shr(v, 32) + 1, Pow2(32);
    assert Shl(s, 32) == s * p + 0;
    ModSplit(s, 0, Pow2(16), p);
    DivModIs(s % Pow2(16) * p, p, s % Pow2(16), 0);
  }

  lemma NoMask(x: nat)
    ensures And(x, 0) == 0 && forall y: nat :: Or(y, 0) == y
  {
  }

  // ---- What the numbers do over many requests ----

  /** `inc_sqn` moves SEQ and IND independently. */
  lemma NextParts(v: nat, k: nat)
    requires k <= SQN_BITS
    ensures Seq(Next(v, k), k) == (Seq(v, k) + 1) % Pow2(SQN_BITS - k)
    ensures Ind(Next(v, k), k) == (Ind(v, k) + 1) % Pow2(k)
  {
    DivModIs(Next(v, k), Pow2(k), (Seq(v, k) + 1) % Pow2(SQN_BITS - k), (Ind(v, k) + 1) % Pow2(k));
  }

  /** The number in force after n requests. */
  function After(v: nat, k: nat, n: nat): nat
    requires k <= SQN_BITS
  {
    if n == 0 then v else Next(After(v, k, n - 1), k)
  }

  lemma {:induction false} AfterParts(v: nat, k: nat, n: nat)
    requires k <= SQN_BITS && 0 < n
    ensures Seq(After(v, k, n), k) == (Seq(v, k) + n) % Pow2(SQN_BITS - k)
    ensures Ind(After(v, k, n), k) == (Ind(v, k) + n) % Pow2(k)
  {
    NextParts(After(v, k, n - 1), k);
    if n > 1 {
      AfterParts(v, k, n - 1);
      SuccMod(Seq(v, k) + n - 1, Pow2(SQN_BITS - k));
      SuccMod(Ind(v, k) + n - 1, Pow2(k));
    }
  }

  /** Until SEQ wraps, every request gets a larger SEQ than all before it; the first one gets SEQ + 1. */
  lemma SeqGrows(v: nat, k: nat, m: nat, n: nat)
    requires k <= SQN_BITS && 0 < m < n && Seq(v, k) + n < Pow2(SQN_BITS - k)
    ensures Seq(After(v, k, m), k) < Seq(After(v, k, n), k)
    ensures Seq(After(v, k, 1), k) == Seq(v, k) + 1
  {
    AfterParts(v, k, m);
    AfterParts(v, k, n);
    AfterParts(v, k, 1);
    var w := Pow2(SQN_BITS - k);
    DivModIs(Seq(v, k) + m, w, 0, Seq(v, k) + m);
    DivModIs(Seq(v, k) + n, w, 0, Seq(v, k) + n);
    DivModIs(Seq(v, k) + 1, w, 0, Seq(v, k) + 1);
  }

  /** Among any 2^k consecutive requests each IND value is used, and used once. */
  lemma EveryIndOnce(v: nat, k: nat, start: nat, i: nat)
    requires k <= SQN_BITS && i < Pow2(k)
    ensures exists n: nat :: start < n <= start + Pow2(k) && Ind(After(v, k, n), k) == i
    ensures forall m: nat, n: nat ::
              start < m < n <= start + Pow2(k) && Ind(After(v, k, m), k) == i ==> Ind(After(v, k, n), k) != i
  {
    var p, base := Pow2(k), Ind(v, k) + start + 1;
    var n := start + 1 + (i - base) % p;
    AfterParts(v, k, n);
    HitsMod(base, i, p);
    forall m: nat, n: nat | start < m < n <= start + p && Ind(After(v, k, m), k) == i
      ensures Ind(After(v, k, n), k) != i
    {
      AfterParts(v, k, m);
      AfterParts(v, k, n);
      DistinctMod(Ind(v, k) + m, Ind(v, k) + n, p);
    }
  }

  lemma HitsMod(base: nat, i: nat, p: nat)
    requires 0 <= i < p
    ensures (base + (i - base) % p) % p == i
  {
    var d := i - base;
    assert base + d % p == (-(d / p)) * p + i;
    DivModIs(base + d % p, p, -(d / p), i);
  }

  lemma DistinctMod(a: nat, b: nat, p: nat)
    requires a < b < a + p
    ensures a % p != b % p
  {
    var q := b / p - a / p;
    assert q * p == b - a - (b % p - a % p);
    if q > 0 {
      Times(q, p);
    } else if q < 0 {
      Times(-q, p);
    }
  }

  // ---- Requests and resynchronisations of all subscribers ----

  /** AKA-REQ-AUTH, and AKA-AUTS with the number recovered from a correct AUTS (None when its MAC is wrong). */
  datatype Cmd = Request(imsi: string) | Auts(imsi: string, sqn: Option<nat>)

  /** The subscriber list is searched from the head. */
  function Position(imsis: seq<string>, imsi: string): (j: nat)
    ensures j <= |imsis|
    ensures j < |imsis| ==> imsis[j] == imsi
    ensures forall i :: 0 <= i < j ==> imsis[i] != imsi
  {
    if imsis == [] || imsis[0] == imsi then 0 else 1 + Position(imsis[1..], imsi)
  }

  function StepOne(v: nat, cmd: Cmd, k: nat): nat
    requires k <= SQN_BITS
  {
    match cmd
    case Request(_) => Next(v, k)
    case Auts(_, sqn) => if sqn.Some? then sqn.value else v
  }

  function StepAll(imsis: seq<string>, vals: seq<nat>, cmd: Cmd, k: nat): (r: seq<nat>)
    requires |imsis| == |vals| && k <= SQN_BITS
    ensures |r| == |vals|
  {
    var j := Position(imsis, cmd.imsi);
    if j < |vals| then vals[j := StepOne(vals[j], cmd, k)] else vals
  }

  function RunAll(imsis: seq<string>, vals: seq<nat>, cmds: seq<Cmd>, k: nat): (r: seq<nat>)
    requires |imsis| == |vals| && k <= SQN_BITS
    ensures |r| == |vals|
  {
    if cmds == [] then vals
    else StepAll(imsis, RunAll(imsis, vals, cmds[..|cmds| - 1], k), cmds[|cmds| - 1], k)
  }

  function RunOne(v: nat, cmds: seq<Cmd>, k: nat): nat
    requires k <= SQN_BITS
  {
    if cmds == [] then v else StepOne(RunOne(v, cmds[..|cmds| - 1], k), cmds[|cmds| - 1], k)
  }

  /** The commands about one subscriber. */
  function About(cmds: seq<Cmd>, imsi: string): seq<Cmd> {
    if cmds == [] then []
    else
      var front := About(cmds[..|cmds| - 1], imsi);
      if cmds[|cmds| - 1].imsi == imsi then front + [cmds[|cmds| - 1]] else front
  }

  /** A subscriber's number depends on the commands about that subscriber only. */
  lemma {:induction false} SubscribersAreIndependent(imsis: seq<string>, vals: seq<nat>, cmds: seq<Cmd>, k: nat, imsi: string)
    requires |imsis| == |vals| && k <= SQN_BITS && imsi in imsis
    ensures var j := Position(imsis, imsi);
            j < |vals| && RunAll(imsis, vals, cmds, k)[j] == RunOne(vals[j], About(cmds, imsi), k)
  {
    hide StepOne, Position;
    var j := Position(imsis, imsi);
    assert j < |vals|;
    if cmds != [] {
      var front, cmd := cmds[..|cmds| - 1], cmds[|cmds| - 1];
      SubscribersAreIndependent(imsis, vals, front, k, imsi);
      if cmd.imsi == imsi {
        assert About(cmds, imsi)[..|About(cmds, imsi)| - 1] == About(front, imsi);
      }
    }
  }

  predicate Resyncs(cmd: Cmd) {
    cmd.Auts? && cmd.sqn.Some?
  }

  function Requests(cmds: seq<Cmd>): nat {
    if cmds == [] then 0
    else Requests(cmds[..|cmds| - 1]) + if cmds[|cmds| - 1].Request? then 1 else 0
  }

  /** Between resynchronisations the number is the start advanced once per request, whatever failed AUTS come between. */
  lemma {:induction false} BetweenResyncs(v: nat, cmds: seq<Cmd>, k: nat)
    requires k <= SQN_BITS && forall i :: 0 <= i < |cmds| ==> !Resyncs(cmds[i])
    ensures RunOne(v, cmds, k) == After(v, k, Requests(cmds))
  {
    if cmds != [] {
      assert !Resyncs(cmds[|cmds| - 1]);
      BetweenResyncs(v, cmds[..|cmds| - 1], k);
    }
  }

  lemma {:induction false} RunOneSplit(v: nat, a: seq<Cmd>, b: seq<Cmd>, k: nat)
    requires k <= SQN_BITS
    ensures RunOne(v, a + b, k) == RunOne(RunOne(v, a, k), b, k)
  {
    if b == [] {
      assert a + b == a;
    } else {
      assert (a + b)[..|a + b| - 1] == a + b[..|b| - 1];
      RunOneSplit(v, a, b[..|b| - 1], k);
    }
  }

  /** The first number after a resynchronisation has SEQ one above the resynchronised one, whatever came before. */
  lemma FirstAfterResync(v: nat, before: seq<Cmd>, auts: Cmd, req: Cmd, k: nat)
    requires k <= SQN_BITS && Resyncs(auts) && req.Request?
    requires Seq(auts.sqn.value, k) + 1 < Pow2(SQN_BITS - k)
    ensures Seq(RunOne(v, before + [auts, req], k), k) == Seq(auts.sqn.value, k) + 1
    ensures Ind(RunOne(v, before + [auts, req], k), k) == (Ind(auts.sqn.value, k) + 1) % Pow2(k)
  {
    RunOneSplit(v, before, [auts, req], k);
    var u := RunOne(v, before, k);
    assert [auts, req][..1] == [auts] && [auts][..0] == [];
    assert RunOne(u, [auts], k) == StepOne(RunOne(u, [], k), auts, k) == auts.sqn.value;
    assert RunOne(u, [auts, req], k) == Next(auts.sqn.value, k);
    NextParts(auts.sqn.value, k);
    DivModIs(Seq(auts.sqn.value, k) + 1, Pow2(SQN_BITS - k), 0, Seq(auts.sqn.value, k) + 1);
  }

  // ---- The database ----

  class Milenage {
    const imsi: string
    const sqn: array<Byte>

    constructor (imsi: string, sqn: array<Byte>)
      ensures this.imsi == imsi && this.sqn == sqn
    {
      this.imsi, this.sqn := imsi, sqn;
    }
  }

  /** The parameters in list order; every subscriber has octets of its own. */
  ghost predicate ValidDb(db: seq<Milenage>) {
    && (forall i :: 0 <= i < |db| ==> db[i].sqn.Length == SQN_LEN)
    && (forall i, j :: 0 <= i < j < |db| ==> db[i].sqn != db[j].sqn)
  }

  function Imsis(db: seq<Milenage>): (r: seq<string>)
    ensures |r| == |db|
  {
    seq(|db|, i requires 0 <= i < |db| => db[i].imsi)
  }

  ghost function Octets(db: seq<Milenage>): set<object> {
    set i | 0 <= i < |db| :: db[i].sqn
  }

  ghost function Values(db: seq<Milenage>): (r: seq<nat>)
    requires ValidDb(db)
    reads Octets(db)
    ensures |r| == |db| && forall i :: 0 <= i < |db| ==> r[i] == Value(db[i].sqn[..])
  {
    seq(|db|, i requires 0 <= i < |db| reads Octets(db) => Value(db[i].sqn[..]))
  }

  method GetMilenage(db: seq<Milenage>, imsi: string) returns (j: nat)
    ensures j == Position(Imsis(db), imsi)
  {
    j := 0;
    while j < |db|
      invariant j <= |db| && forall i :: 0 <= i < j ==> db[i].imsi != imsi
    {
      if db[j].imsi == imsi {
        break;
      }
      j := j + 1;
    }
    PositionIs(Imsis(db), imsi, j);
  }

  lemma PositionIs(imsis: seq<string>, imsi: string, j: int)
    requires 0 <= j <= |imsis| && (forall i :: 0 <= i < j ==> imsis[i] != imsi)
    requires j < |imsis| ==> imsis[j] == imsi
    ensures Position(imsis, imsi) == j
  {
  }

  /** AKA-REQ-AUTH: advance the subscriber's number and use it, if the subscriber is known. */
  method AkaReqAuth(db: seq<Milenage>, imsi: string, indLen: nat, beyond: nat) returns (issued: Option<nat>)
    requires ValidDb(db) && indLen <= 32
    modifies Octets(db)
    ensures var j := Position(Imsis(db), imsi);
            Values(db) == if j < |db| then old(Values(db))[j := Stepped(old(Values(db))[j], indLen, Mask(indLen, beyond))] else old(Values(db))
    ensures indLen <= 30 || IsMask(Mask(indLen, beyond), indLen) ==>
              Values(db) == StepAll(Imsis(db), old(Values(db)), Request(imsi), indLen)
    ensures issued == if imsi in Imsis(db) then Some(Values(db)[Position(Imsis(db), imsi)]) else None
  {
    var j := GetMilenage(db, imsi);
    if j == |db| {
      return None;
    }
    hide Stepped, Next, Mask, IsMask, Value;
    IncSqn(db[j].sqn, indLen, beyond);
    assert imsi == Imsis(db)[j];
    return Some(Value(db[j].sqn[..]));
  }

  method CopyOctets(to: array<Byte>, from: seq<Byte>)
    requires to.Length == |from|
    modifies to
    ensures to[..] == from
  {
    forall i | 0 <= i < |from| {
      to[i] := from[i];
    }
  }

  /** AKA-AUTS: take over the number that a correct AUTS reveals. */
  method AkaAuts(db: seq<Milenage>, imsi: string, revealed: Option<seq<Byte>>, ghost indLen: nat) returns (ret: int)
    requires ValidDb(db) && (revealed.Some? ==> |revealed.value| == SQN_LEN) && indLen <= SQN_BITS
    modifies Octets(db)
    ensures ret == if imsi in Imsis(db) then 0 else -1
    ensures Values(db) == StepAll(Imsis(db), old(Values(db)),
                            Auts(imsi, if revealed.Some? then Some(Value(revealed.value)) else None), indLen)
  {
    hide Value, Next, Position;
    var j := GetMilenage(db, imsi);
    if j == |db| {
      return -1;
    }
    assert imsi == Imsis(db)[j];
    ghost var vals := Values(db);
    if revealed.Some? {
      CopyOctets(db[j].sqn, revealed.value);
      assert Values(db) == vals[j := Value(revealed.value)];
    }
    return 0;
  }
}
