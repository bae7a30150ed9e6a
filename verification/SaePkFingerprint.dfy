/**
 SAE-PK, the station's side: taking the flags out of PasswordBase again, in place, to rebuild the fingerprint of
 the access point's key. Together with the packing: the rebuilt fingerprint is how the hash begins.
 */
module SaePkFingerprint {
  import opened Bits
  import opened SaePkBuffers
  import opened SaePk

  // ---- Rebuilding the fingerprint ----

  /** Bit m of PasswordBase without its flags. */
  predicate Unflagged(p: seq<bv8>, m: int)
    requires 0 <= m
  {
    BitAt(p, 20 * (m / 19) + 1 + m % 19)
  }

  /** `now` is `p` without its first g groups. */
  ghost predicate Consumed(now: seq<bv8>, p: seq<bv8>, g: nat) {
    forall n :: 0 <= n ==> BitAt(now, n) == BitAt(p, n + 20 * g)
  }

  /** The low bits of `val` are the last ones taken from the first g groups. */
  ghost predicate Pending(val: nat, valBits: nat, p: seq<bv8>, g: nat) {
    valBits <= 19 * g && forall k: nat :: k < valBits ==> Bit(val, k) == Unflagged(p, 19 * g - 1 - k)
  }

  /** The buffer reads: `sec` zero octets, m bits of `p` without its flags, and zeros. */
  ghost predicate Written(fp: seq<bv8>, sec: nat, p: seq<bv8>, m: nat) {
    forall n :: 0 <= n ==> BitAt(fp, n) == (8 * sec <= n < 8 * sec + m && Unflagged(p, n - 8 * sec))
  }

  /** Drop the flag of the next group and move its other bits into `val`, a 32-bit number. */
  method TakeGroup(pw: array<bv8>, val: nat, ghost valBits: nat, ghost p: seq<bv8>, ghost g: nat) returns (val': nat)
    requires pw.Length >= 3 && Consumed(pw[..], p, g) && Pending(val, valBits, p, g) && valBits < 8
    modifies pw
    ensures Consumed(pw[..], p, g + 1) && Pending(val', valBits + 19, p, g + 1)
  {
    hide Bit8, BitAt, Bit, Or, Shl, Pow2, GetBe19, GetBe11;
    ghost var was := pw[..];
    ShiftLeft1(pw);
    ghost var now := pw[..];
    var val19 := GetBe19(pw[0], pw[1], pw[2]);
    ShiftLeft19(pw, 0);
    assert pw[0..] == pw[..] && now[0..] == now;
    val' := Rem(Or(Shl(val, 19), val19), Pow2(32));
    GroupTaken(was, now, pw[..], p, g);
    ValTaken(val, val', valBits, was, now, p, g);
  }

  lemma GroupTaken(was: seq<bv8>, now: seq<bv8>, next: seq<bv8>, p: seq<bv8>, g: nat)
    requires Consumed(was, p, g)
    requires forall n :: 0 <= n ==> BitAt(now, n) == BitAt(was, n + 1)
    requires forall n :: 0 <= n ==> BitAt(next, n) == BitAt(now, n + 19)
    ensures Consumed(next, p, g + 1)
  {
    hide BitAt;
    forall n | 0 <= n ensures BitAt(next, n) == BitAt(p, n + 20 * (g + 1)) {
      assert BitAt(now, n + 19) == BitAt(was, n + 19 + 1);
      assert BitAt(was, n + 20) == BitAt(p, n + 20 + 20 * g);
    }
  }

  lemma ValTaken(val: nat, val': nat, valBits: nat, was: seq<bv8>, now: seq<bv8>, p: seq<bv8>, g: nat)
    requires |now| >= 3 && valBits < 8 && Consumed(was, p, g) && Pending(val, valBits, p, g)
    requires forall n :: 0 <= n ==> BitAt(now, n) == BitAt(was, n + 1)
    requires val' == Rem(Or(Shl(val, 19), GetBe19(now[0], now[1], now[2])), Pow2(32))
    ensures Pending(val', valBits + 19, p, g + 1)
  {
    hide BitAt, Bit, Or, Shl, Pow2, GetBe19, GetBe11, Bit8, Rem, GroupBit;
    var val19 := GetBe19(now[0], now[1], now[2]);
    Be19Small(now[0], now[1], now[2]);
    forall k: nat | k < valBits + 19 ensures Bit(val', k) == Unflagged(p, 19 * (g + 1) - 1 - k) {
      WrappedBit(Or(Shl(val, 19), val19), 32, k);
      ShlOrBit(val, val19, 19, k);
      if k < 19 {
        Be19Bit(now[0], now[1], now[2], k);
        GroupIsFirstBits(now, false, 19 - k);
        assert BitAt(now, 18 - k) == BitAt(was, 18 - k + 1);
        assert BitAt(was, 19 - k) == BitAt(p, 19 - k + 20 * g);
        DivModIs(19 * g + 18 - k, 19, g, 18 - k);
      } else {
        assert Bit(val, k - 19) == Unflagged(p, 19 * g - 1 - (k - 19));
      }
    }
  }

  /** One octet with the next r bits in front. */
  lemma OctetWritten(fp: seq<bv8>, fp': seq<bv8>, sec: nat, p: seq<bv8>, m: nat, r: nat, o: bv8)
    requires Written(fp, sec, p, m) && m % 8 == 0 && r <= 8 && sec + m / 8 < |fp|
    requires fp' == fp[sec + m / 8 := o]
    requires forall t :: 0 <= t < 8 ==> Bit8(o, t) == (t < r && Unflagged(p, m + t))
    ensures Written(fp', sec, p, m + r)
  {
    hide Bit8, Unflagged;
    forall n | 0 <= n ensures BitAt(fp', n) == (8 * sec <= n < 8 * sec + m + r && Unflagged(p, n - 8 * sec)) {
      var at := sec + m / 8;
      if n / 8 == at {
        assert n == 8 * sec + m + n % 8;
      } else {
        assert BitAt(fp', n) == BitAt(fp, n);
      }
    }
  }

  lemma FewerPending(val: nat, valBits: nat, p: seq<bv8>, g: nat)
    requires Pending(val, valBits, p, g) && 8 <= valBits
    ensures Pending(val, valBits - 8, p, g)
  {
  }

  lemma PartOctet(val: nat, valBits: nat, p: seq<bv8>, g: nat, r: nat, t: nat)
    requires Pending(val, valBits, p, g) && 0 < r <= 8 <= valBits && t < 8
    ensures Bit8(ToOctet(Shl(Shr(val, valBits - r), 8 - r)), t) == (t < r && Unflagged(p, 19 * g - valBits + t))
  {
    hide Bit, Shr, Shl, Bit8, Unflagged, ToOctet;
    var x := Shr(val, valBits - r);
    OctetBit(Shl(x, 8 - r), t);
    ShlBit(x, 8 - r, 7 - t);
    if t < r {
      ShrBit(val, valBits - r, r - 1 - t);
    }
  }

  function SecOf(p: seq<bv8>): nat {
    if BitAt(p, 0) then 3 else 5
  }

  /** The number of password characters without the hyphens: of five characters, one is a hyphen, except at the end. */
  function Lambda(len: nat): nat {
    len - len / 5
  }

  function FingerprintBits(sec: nat, lambda: nat): int {
    8 * sec + 19 * lambda / 4 - 5
  }

  /**
   From the decoded password and the length of its text: the length of the fingerprint in bits and octets, and the
   fingerprint itself, which is `sec` zero octets and then the password bits without the flags. The code stores octet
   after octet without looking at the size of the fingerprint; where it would store beyond its end, the model stops and
   reports an overrun. That happens exactly for passwords of more than 124 characters.
   */
  method SetPassword(pw: array<bv8>, len: nat, fingerprint: array<bv8>) returns (sec: nat, total: int, bytes: nat, overrun: bool)
    requires pw.Length >= 3 && IsPasswordLength(len)
    requires fingerprint.Length == SAE_MAX_HASH_LEN && pw != fingerprint
    modifies pw, fingerprint
    ensures sec == SecOf(old(pw[..])) && total == FingerprintBits(sec, Lambda(len))
    ensures overrun <==> (total + 7) / 8 > SAE_MAX_HASH_LEN
    ensures overrun <==> len > 124
    ensures bytes == if overrun then SAE_MAX_HASH_LEN else (total + 7) / 8
    ensures Written(fingerprint[..], sec, old(pw[..]), if overrun then 8 * (SAE_MAX_HASH_LEN - sec) else total - 8 * sec)
  {
    hide Bit8, Bit, Unflagged, Written, Pending, Consumed, Shr, Shl, ToOctet, Lambda;
    ghost var p := pw[..];
    forall i | 0 <= i < fingerprint.Length {
      fingerprint[i] := 0;
    }
    assert pw[..] == p;
    NothingWritten(fingerprint[..], p);
    sec := if pw[0] & 0x80 != 0 then 3 else 5;
    FlagIsFirst(p);
    total := FingerprintBits(sec, Lambda(len));
    FitsExactly(sec, len);
    var pos := sec;
    var bits := total - 8 * sec;
    var val, valBits: nat := 0, 0;
    ghost var g, m: nat := 0, 0;
    while bits > 0
      invariant 0 <= bits && m + bits == total - 8 * sec && m % 8 == 0 && pos == sec + m / 8 <= fingerprint.Length
      invariant Consumed(pw[..], p, g) && Pending(val, valBits, p, g) && m + valBits == 19 * g
      invariant Written(fingerprint[..], sec, p, m)
      invariant valBits < 19 + 8
      decreases bits
    {
      if valBits < 8 {
        val := TakeGroup(pw, val, valBits, p, g);
        valBits := valBits + 19;
        g := g + 1;
      }
      if bits < 8 {
        break;
      }
      if pos == fingerprint.Length {
        return sec, total, pos, true;
      }
      StoreOctet(fingerprint, pos, val, valBits, sec, p, g, 8);
      pos := pos + 1;
      valBits := valBits - 8;
      bits := bits - 8;
      m := m + 8;
    }
    if bits > 0 {
      if pos == fingerprint.Length {
        return sec, total, pos, true;
      }
      StoreOctet(fingerprint, pos, val, valBits, sec, p, g, bits);
      pos := pos + 1;
    }
    return sec, total, pos, false;
  }

  /** Store the next r of the pending bits, in front of zeros. */
  method StoreOctet(fingerprint: array<bv8>, pos: nat, val: nat, valBits: nat, ghost sec: nat, ghost p: seq<bv8>, ghost g: nat, r: nat)
    requires 8 <= valBits <= 19 * g && 0 < r <= 8 && Pending(val, valBits, p, g)
    requires var m := 19 * g - valBits; m % 8 == 0 && pos == sec + m / 8 < fingerprint.Length && Written(fingerprint[..], sec, p, m)
    modifies fingerprint
    ensures Written(fingerprint[..], sec, p, 19 * g - valBits + r)
    ensures Pending(val, valBits - 8, p, g)
  {
    hide Bit8, Bit, Unflagged, Written, Pending, Shr, Shl, ToOctet;
    ghost var was, m := fingerprint[..], 19 * g - valBits;
    var o := ToOctet(Shl(Shr(val, valBits - r), 8 - r));
    forall t | 0 <= t < 8 ensures Bit8(o, t) == (t < r && Unflagged(p, m + t)) {
      PartOctet(val, valBits, p, g, r, t);
    }
    fingerprint[pos] := o;
    OctetWritten(was, fingerprint[..], sec, p, m, r, o);
    FewerPending(val, valBits, p, g);
  }

  /** What the test of a password's text says about its length: three groups of four or more, with hyphens between. */
  predicate IsPasswordLength(len: nat) {
    len >= 14 && len % 5 == 4
  }

  /** The fingerprint has room for passwords of up to 25 groups, which is 124 characters. */
  lemma FitsExactly(sec: nat, len: nat)
    requires (sec == 3 || sec == 5) && IsPasswordLength(len)
    ensures var groups := (len + 1) / 5;
            && Lambda(len) == 4 * groups
            && (FingerprintBits(sec, Lambda(len)) <= 8 * SAE_MAX_HASH_LEN <==> groups <= 25)
            && (groups <= 25 <==> len <= 124)
  {
  }

  /** One group more, 129 characters, takes one octet more for Sec 3 and three more for Sec 5. */
  lemma TwentySixGroupsOverrun()
    ensures IsPasswordLength(129) && Lambda(129) == 4 * 26
    ensures (FingerprintBits(3, Lambda(129)) + 7) / 8 == SAE_MAX_HASH_LEN + 1
    ensures (FingerprintBits(5, Lambda(129)) + 7) / 8 == SAE_MAX_HASH_LEN + 3
  {
  }

  lemma NothingWritten(fp: seq<bv8>, p: seq<bv8>)
    requires forall i :: 0 <= i < |fp| ==> fp[i] == 0
    ensures Written(fp, 3, p, 0) && Written(fp, 5, p, 0)
    ensures Consumed(p, p, 0) && Pending(0, 0, p, 0)
  {
  }

  lemma FlagIsFirst(p: seq<bv8>)
    requires |p| > 0
    ensures SecOf(p) == if p[0] & 0x80 != 0 then 3 else 5
  {
  }

  // ---- The generator and the station agree ----

  /**
   Let a hash begin with `sec` zero octets, as the generator makes sure, and let a password carry the first
   `groups` groups packed from it, but for the last five bits, where the check character is. Then the station
   finds the right `sec`, and its fingerprint is the beginning of the hash.
   */
  lemma FingerprintIsHashPrefix(hash: seq<bv8>, sec: nat, base: seq<bv8>, pw: seq<bv8>, fp: seq<bv8>, packed: nat, groups: nat, n: int)
    requires (sec == 3 || sec == 5) && sec <= |hash| && forall i :: 0 <= i < sec ==> hash[i] == 0
    requires Packed(base, hash[sec..], sec == 3, packed) && 0 < groups <= packed
    requires forall i :: 0 <= i < 20 * groups - 5 ==> BitAt(pw, i) == BitAt(base, i)
    requires Written(fp, SecOf(pw), pw, FingerprintBits(SecOf(pw), 4 * groups) - 8 * SecOf(pw))
    requires 0 <= n < FingerprintBits(sec, 4 * groups)
    ensures SecOf(pw) == sec
    ensures BitAt(fp, n) == BitAt(hash, n)
  {
    hide Packed, Bit8;
    var h, flag := hash[sec..], sec == 3;
    GroupOfPacked(base, h, flag, packed, 0, 0);
    assert BitAt(pw, 0) == BitAt(base, 0) == flag;
    if n < 8 * sec {
      LeadingZeros(hash, sec, n);
    } else {
      var m := n - 8 * sec;
      DropFlags(base, h, flag, packed, m);
      assert 20 * (m / 19) + 1 + m % 19 < 20 * groups - 5;
      SkippedOctets(hash, sec, m);
    }
  }

  lemma LeadingZeros(hash: seq<bv8>, sec: nat, n: int)
    requires sec <= |hash| && (forall i :: 0 <= i < sec ==> hash[i] == 0) && 0 <= n < 8 * sec
    ensures !BitAt(hash, n)
  {
  }

  lemma SkippedOctets(hash: seq<bv8>, sec: nat, m: int)
    requires sec <= |hash| && 0 <= m
    ensures BitAt(hash[sec..], m) == BitAt(hash, m + 8 * sec)
  {
    hide Bit8;
    assert (m + 8 * sec) / 8 == m / 8 + sec && (m + 8 * sec) % 8 == m % 8;
  }

  /** Every password that the generator prints is within the packed groups, and its fingerprint within the hash. */
  lemma PrintedLengths(hashLen: nat, sec: nat, groups: nat)
    requires hashLen == 32 || hashLen == 48 || hashLen == 64
    requires (sec == 3 || sec == 5) && 3 <= groups <= (8 * hashLen + 5 - 8 * sec) / 19
    ensures groups <= Groups(hashLen) && 20 * Groups(hashLen) <= 8 * hashLen < 20 * Groups(hashLen) + 20
    ensures FingerprintBits(sec, 4 * groups) <= 8 * hashLen <= 8 * SAE_MAX_HASH_LEN
  {
  }
}
