/** What the shared text formats look like, character by character: addresses in either case, decimal numbers, lines. */
module TextForms {
  import opened Seqs
  import opened Macs
  import opened Bits
  import opened Text

  // ---- Addresses ----

  /** A hexadecimal digit, in either case. */
  predicate IsDigitFor(c: char, d: int)
    requires 0 <= d < 16
  {
    c == "0123456789abcdef"[d] || c == "0123456789ABCDEF"[d]
  }

  /** `s` begins at `at` with the two digits of an octet, the upper four bits first. */
  predicate SpellsOctet(s: string, at: nat, b: Byte) {
    && at + 2 <= |s|
    && IsDigitFor(s[at], b as int / 16) && IsDigitFor(s[at + 1], b as int % 16)
  }

  /** Six octets in order, colons between them. */
  predicate Spells(s: string, at: nat, m: Mac) {
    && (forall i :: 0 <= i < 6 ==> SpellsOctet(s, at + 3 * i, m[i]))
    && (forall i :: 0 <= i < 5 ==> at + 3 * i + 2 < |s| && s[at + 3 * i + 2] == ':')
  }

  lemma DigitExactly(c: char, d: int)
    requires 0 <= d < 16
    ensures HexNum(c) == Some(d) <==> IsDigitFor(c, d)
  {
  }

  lemma DigitRange(c: char)
    ensures HexNum(c).Some? ==> 0 <= HexNum(c).value < 16 && c != '\0'
  {
  }

  lemma OctetExactly(s: string, at: nat, b: Byte)
    ensures HexByte(s, at) == Some(b) <==> SpellsOctet(s, at, b)
  {
    hide HexNum, IsDigitFor;
    var x, y := CharAt(s, at), CharAt(s, at + 1);
    DigitRange(x);
    DigitRange(y);
    DigitExactly(x, b as int / 16);
    DigitExactly(y, b as int % 16);
    assert HexNum('\0').None? by { DigitRange('\0'); }
    if HexNum(x).Some? && HexNum(y).Some? {
      DivModIs(HexNum(x).value * 16 + HexNum(y).value, 16, HexNum(x).value, HexNum(y).value);
    }
  }

  /** From octet `i` on. */
  predicate SpellsFrom(s: string, at: nat, bs: seq<Byte>, i: nat)
    requires i + |bs| == 6
  {
    && (forall k :: 0 <= k < |bs| ==> SpellsOctet(s, at + 3 * k, bs[k]))
    && (forall k :: 0 <= k < |bs| - 1 ==> at + 3 * k + 2 < |s| && s[at + 3 * k + 2] == ':')
  }

  lemma {:induction false} OctetsExactly(s: string, at: nat, bs: seq<Byte>, i: nat)
    requires i + |bs| == 6
    ensures HwaddrOctets(s, at, i) == Some(bs) <==> SpellsFrom(s, at, bs, i)
    decreases |bs|
  {
    hide HexByte, SpellsOctet;
    if i < 6 {
      OctetExactly(s, at, bs[0]);
      OctetsExactly(s, at + 3, bs[1..], i + 1);
      FromNext(s, at, bs, i);
      assert bs == [bs[0]] + bs[1..];
      hide SpellsFrom;
    }
  }

  lemma FromNext(s: string, at: nat, bs: seq<Byte>, i: nat)
    requires i + |bs| == 6 && bs != []
    ensures SpellsFrom(s, at, bs, i) <==>
              && SpellsOctet(s, at, bs[0]) && (|bs| > 1 ==> CharAt(s, at + 2) == ':')
              && SpellsFrom(s, at + 3, bs[1..], i + 1)
  {
    var rest := bs[1..];
    if SpellsFrom(s, at, bs, i) {
      forall k | 0 <= k < |rest| ensures SpellsOctet(s, at + 3 + 3 * k, rest[k]) {
        assert SpellsOctet(s, at + 3 * (k + 1), bs[k + 1]);
      }
      forall k | 0 <= k < |rest| - 1 ensures at + 3 + 3 * k + 2 < |s| && s[at + 3 + 3 * k + 2] == ':' {
        assert s[at + 3 * (k + 1) + 2] == ':';
      }
      assert SpellsOctet(s, at + 3 * 0, bs[0]);
      assert |bs| > 1 ==> s[at + 3 * 0 + 2] == ':';
    }
    if SpellsOctet(s, at, bs[0]) && (|bs| > 1 ==> CharAt(s, at + 2) == ':') && SpellsFrom(s, at + 3, rest, i + 1) {
      forall k | 0 <= k < |bs| ensures SpellsOctet(s, at + 3 * k, bs[k]) {
        assert k > 0 ==> SpellsOctet(s, at + 3 + 3 * (k - 1), rest[k - 1]);
      }
      forall k | 0 <= k < |bs| - 1 ensures at + 3 * k + 2 < |s| && s[at + 3 * k + 2] == ':' {
        assert k > 0 ==> s[at + 3 + 3 * (k - 1) + 2] == ':';
      }
    }
  }

  /** An address is read from exactly the texts that spell it, in either case and whatever follows. */
  lemma AddressExactly(s: string, at: nat, m: Mac)
    ensures HwaddrAton(s, at) == Some(m) <==> Spells(s, at, m)
  {
    OctetsExactly(s, at, m, 0);
  }

  /** Printing spells the address in lower case. */
  lemma PrintedSpells(m: Mac)
    ensures Spells(MacText(m), 0, m)
    ensures forall i :: 0 <= i < |MacText(m)| ==> !('A' <= MacText(m)[i] <= 'F')
  {
    assert MacText(m)[0..MAC_TEXT_LEN] == MacText(m);
    MacReads(MacText(m), 0, m);
    AddressExactly(MacText(m), 0, m);
    LowerCase(m);
    hide MacText, HwaddrAton, Spells;
  }

  lemma {:induction false} LowerCase(bs: seq<Byte>)
    ensures forall i :: 0 <= i < |OctetsText(bs)| ==> !('A' <= OctetsText(bs)[i] <= 'F')
  {
    if bs != [] {
      LowerCase(bs[1..]);
    }
  }

  // ---- Decimal numbers ----

  /** The number of digits: there is no leading zero. */
  lemma {:induction false} NatTextSize(n: nat)
    ensures var k := |NatText(n)|; n < Pow10(k) && (n > 0 ==> n >= Pow10(k - 1))
    decreases n
  {
    assert Pow10(0) == 1 && Pow10(1) == 10;
    if n >= 10 {
      NatTextSize(n / 10);
      var k := |NatText(n / 10)|;
      assert |NatText(n)| == k + 1;
      assert Pow10(k + 1) == 10 * Pow10(k) && Pow10(k) == 10 * Pow10(k - 1);
    }
  }

  /** Digit `i` from the right is the one of weight 10^i. */
  lemma {:induction false} NatTextDigits(n: nat, i: nat)
    requires i < |NatText(n)|
    ensures NatText(n)[|NatText(n)| - 1 - i] == "0123456789"[n / Pow10(i) % 10]
    decreases n
  {
    if i == 0 {
      assert Pow10(0) == 1 && n / 1 == n;
    } else {
      var front := NatText(n / 10);
      assert NatText(n) == front + [DigitChar(n % 10)];
      NatTextDigits(n / 10, i - 1);
      DivTwice(n, Pow10(i - 1));
      assert Pow10(i) == 10 * Pow10(i - 1);
      assert NatText(n)[|front| - i] == front[|front| - i];
      hide NatText, Pow10;
    }
  }

  lemma DivTwice(n: nat, p: nat)
    requires p > 0
    ensures n / 10 / p == n / (10 * p)
  {
    var q, r := n / 10 / p, n / 10 % p;
    assert n == (q * p + r) * 10 + n % 10;
    assert (q * p + r) * 10 == q * (10 * p) + r * 10;
    DivModIs(n, 10 * p, q, r * 10 + n % 10);
  }

  /** White space and a sign are allowed in front of a number. */
  lemma {:induction false} SpacedReads(spaces: string, n: nat, rest: string)
    requires forall c :: c in spaces ==> IsSpace(c)
    requires rest == [] || !IsDigit(rest[0])
    ensures Atoi(spaces + NatText(n) + rest) == n
    ensures Atoi(spaces + "+" + NatText(n) + rest) == n
    ensures Atoi(spaces + "-" + NatText(n) + rest) == -(n as int)
  {
    hide NatText, IsDigit;
    var t := NatText(n) + rest;
    if spaces == [] {
      assert spaces + NatText(n) + rest == t && spaces + "+" + NatText(n) + rest == "+" + t
          && spaces + "-" + NatText(n) + rest == "-" + t;
      SignedReads(n, rest);
    } else {
      var c, more := spaces[0], spaces[1..];
      SpacedReads(more, n, rest);
      assert IsSpace(c);
      assert spaces + NatText(n) + rest == [c] + (more + NatText(n) + rest);
      assert spaces + "+" + NatText(n) + rest == [c] + (more + "+" + NatText(n) + rest);
      assert spaces + "-" + NatText(n) + rest == [c] + (more + "-" + NatText(n) + rest);
      hide IsSpace;
      SpaceSkipped(c, more + NatText(n) + rest);
      SpaceSkipped(c, more + "+" + NatText(n) + rest);
      SpaceSkipped(c, more + "-" + NatText(n) + rest);
    }
  }

  lemma SpaceSkipped(c: char, s: string)
    requires IsSpace(c)
    ensures Atoi([c] + s) == Atoi(s)
  {
    assert ([c] + s)[1..] == s;
  }

  lemma SignedReads(n: nat, rest: string)
    requires rest == [] || !IsDigit(rest[0])
    ensures Atoi(NatText(n) + rest) == n && Atoi("+" + (NatText(n) + rest)) == n && Atoi("-" + (NatText(n) + rest)) == -(n as int)
  {
    var t := NatText(n) + rest;
    assert ("+" + t)[1..] == t && ("-" + t)[1..] == t;
    NatReads(n);
    DigitsAppend(NatText(n), rest, 0);
    DigitsStop(rest, n);
    AtoiSigned(t);
    AtoiSigned("-" + t);
    hide NatText, DigitsValue, AllDigits;
  }

  // ---- Lines ----

  /** A piece as fgets() reads it: at most 127 characters, a newline nowhere but at its end. */
  predicate IsPiece(l: string) {
    0 < |l| < 128 && '\n' !in l[..|l| - 1]
  }

  /** Full, or ended by a newline. */
  predicate IsWhole(l: string) {
    l != [] && (|l| == 127 || l[|l| - 1] == '\n')
  }

  lemma {:induction false} ChunkExactly(s: string, size: nat)
    requires s != [] && 1 < size
    ensures var k := ChunkLength(s, size);
            && 0 < k <= |s| && k <= size - 1 && '\n' !in s[..k - 1]
            && (s[k - 1] == '\n' || k == size - 1 || k == |s|)
  {
    if s[0] != '\n' && |s| > 1 && size > 2 {
      ChunkExactly(s[1..], size - 1);
      var k := ChunkLength(s[1..], size - 1);
      assert s[..k] == [s[0]] + s[1..][..k - 1];
    }
  }

  /** The pieces make up the file, and every one but the last is whole; that determines them. */
  lemma {:induction false} LinesExactly(s: string)
    ensures Concat(Lines(s)) == s
    ensures forall i :: 0 <= i < |Lines(s)| ==> IsPiece(Lines(s)[i]) && (i < |Lines(s)| - 1 ==> IsWhole(Lines(s)[i]))
  {
    if s != [] {
      var k := ChunkLength(s, LINE_SIZE);
      ChunkExactly(s, LINE_SIZE);
      LinesExactly(s[k..]);
      assert s[..k][..k - 1] == s[..k - 1] && s == s[..k] + s[k..];
      assert k == |s| ==> s[k..] == [];
    }
  }
}
