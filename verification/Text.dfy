/** The little text formats that configuration and data files share: MAC addresses, decimal numbers, lines. */
module Text {
  import opened Seqs
  import opened Macs

  /** Reading a C string: the terminator stands at its end. */
  function CharAt(s: string, i: int): char
    requires 0 <= i
  {
    if i < |s| then s[i] else '\0'
  }

  function From(s: string, i: int): string
    requires 0 <= i
  {
    if i <= |s| then s[i..] else ""
  }

  predicate StartsWith(s: string, p: string) {
    |p| <= |s| && s[..|p|] == p
  }

  predicate IsBlank(c: char) {
    c == ' ' || c == '\t'
  }

  // ---- Hexadecimal octets and MAC addresses ----

  const HEX_DIGITS := "0123456789abcdef"

  function HexNum(c: char): Option<int> {
    if '0' <= c <= '9' then Some(c as int - '0' as int)
    else if 'a' <= c <= 'f' then Some(c as int - 'a' as int + 10)
    else if 'A' <= c <= 'F' then Some(c as int - 'A' as int + 10)
    else None
  }

  function HexByte(s: string, at: nat): (r: Option<Byte>) {
    var a, b := HexNum(CharAt(s, at)), HexNum(CharAt(s, at + 1));
    if a.Some? && b.Some? then Some((a.value * 16 + b.value) as Byte) else None
  }

  /** Octets `i` to 5 of a colon-separated address that starts at `at`. */
  function HwaddrOctets(s: string, at: nat, i: nat): (r: Option<seq<Byte>>)
    requires i <= ETH_ALEN
    ensures r.Some? ==> |r.value| == ETH_ALEN - i
    decreases ETH_ALEN - i
  {
    if i == ETH_ALEN then Some([])
    else
      var b := HexByte(s, at);
      if b.None? || (i < ETH_ALEN - 1 && CharAt(s, at + 2) != ':') then None
      else
        var rest := HwaddrOctets(s, at + 3, i + 1);
        if rest.None? then None else Some([b.value] + rest.value)
  }

  /** `hwaddr_aton`: an address at position `at`, whatever follows it. */
  function HwaddrAton(s: string, at: nat): (r: Option<Mac>) {
    HwaddrOctets(s, at, 0)
  }

  function OctetText(b: Byte): (r: string)
    ensures |r| == 2
  {
    [HEX_DIGITS[b as int / 16], HEX_DIGITS[b as int % 16]]
  }

  /** The printed octets, with a colon between any two. */
  function OctetsText(bs: seq<Byte>): (r: string)
    ensures |r| == if bs == [] then 0 else 3 * |bs| - 1
  {
    if bs == [] then ""
    else if |bs| == 1 then OctetText(bs[0])
    else OctetText(bs[0]) + ":" + OctetsText(bs[1..])
  }

  const MAC_TEXT_LEN := 17

  function MacText(m: Mac): (r: string)
    ensures |r| == MAC_TEXT_LEN
  {
    OctetsText(m)
  }

  lemma HexDigitReads(d: int)
    requires 0 <= d < 16
    ensures HexNum(HEX_DIGITS[d]) == Some(d)
    ensures HEX_DIGITS[d] != '\n' && HEX_DIGITS[d] != '\0'
  {
  }

  lemma OctetReads(s: string, at: nat, b: Byte)
    requires at + 2 <= |s| && s[at..at + 2] == OctetText(b)
    ensures HexByte(s, at) == Some(b)
  {
    HexDigitReads(b as int / 16);
    HexDigitReads(b as int % 16);
    assert s[at] == s[at..at + 2][0] && s[at + 1] == s[at..at + 2][1];
  }

  lemma {:induction false} OctetsRead(s: string, at: nat, bs: seq<Byte>, i: nat)
    requires i < ETH_ALEN && |bs| == ETH_ALEN - i
    requires at + |OctetsText(bs)| <= |s| && s[at..at + |OctetsText(bs)|] == OctetsText(bs)
    ensures HwaddrOctets(s, at, i) == Some(bs)
    decreases |bs|
  {
    hide HexByte, OctetText;
    var t := OctetsText(bs);
    var part := s[at..at + |t|];
    assert s[at..at + 2] == part[..2] == t[..2] == OctetText(bs[0]);
    OctetReads(s, at, bs[0]);
    if i < ETH_ALEN - 1 {
      assert s[at + 2] == part[2] == t[2] == ':';
      assert s[at + 3..at + |t|] == part[3..] == t[3..] == OctetsText(bs[1..]);
      OctetsRead(s, at + 3, bs[1..], i + 1);
      assert bs == [bs[0]] + bs[1..];
    } else {
      assert HwaddrOctets(s, at + 3, i + 1) == Some([]);
      assert [bs[0]] + [] == bs;
    }
  }

  /** Reading a printed address gives it back. */
  lemma MacReads(s: string, at: nat, m: Mac)
    requires at + MAC_TEXT_LEN <= |s| && s[at..at + MAC_TEXT_LEN] == MacText(m)
    ensures HwaddrAton(s, at) == Some(m)
  {
    OctetsRead(s, at, m, 0);
  }

  /** A printed address consists of hexadecimal digits and colons. */
  lemma {:induction false} OctetsAreHex(bs: seq<Byte>)
    ensures forall c :: c in OctetsText(bs) ==> c == ':' || HexNum(c).Some?
    ensures bs != [] ==> HexNum(OctetsText(bs)[0]).Some?
  {
    if bs != [] {
      HexDigitReads(bs[0] as int / 16);
      HexDigitReads(bs[0] as int % 16);
      OctetsAreHex(bs[1..]);
    }
  }

  lemma {:induction false} OctetsAreOneLine(bs: seq<Byte>)
    ensures '\n' !in OctetsText(bs)
  {
    if bs != [] {
      HexDigitReads(bs[0] as int / 16);
      HexDigitReads(bs[0] as int % 16);
      OctetsAreOneLine(bs[1..]);
    }
  }

  // ---- Decimal numbers ----

  predicate IsDigit(c: char) {
    '0' <= c <= '9'
  }

  function DigitChar(d: int): char
    requires 0 <= d < 10
  {
    "0123456789"[d]
  }

  function NatText(n: nat): (r: string)
    ensures r != [] && IsDigit(r[0])
  {
    if n < 10 then [DigitChar(n)] else NatText(n / 10) + [DigitChar(n % 10)]
  }

  function IntText(n: int): string {
    if n < 0 then "-" + NatText(-n) else NatText(n)
  }

  /** The number of the leading digits of `s`, after `acc`. */
  function DigitsValue(s: string, acc: int): int {
    if s == [] || !IsDigit(s[0]) then acc else DigitsValue(s[1..], 10 * acc + (s[0] as int - '0' as int))
  }

  predicate IsSpace(c: char) {
    c == ' ' || c == '\t' || c == '\n' || c == '\r' || c == '\U{000B}' || c == '\U{000C}'
  }

  function Atoi(s: string): int {
    if s == [] then 0
    else if IsSpace(s[0]) then Atoi(s[1..])
    else if s[0] == '-' then -DigitsValue(s[1..], 0)
    else if s[0] == '+' then DigitsValue(s[1..], 0)
    else DigitsValue(s, 0)
  }

  function Pow10(k: nat): (p: nat)
    ensures p > 0
  {
    if k == 0 then 1 else 10 * Pow10(k - 1)
  }

  predicate AllDigits(s: string) {
    forall i :: 0 <= i < |s| ==> IsDigit(s[i])
  }

  lemma {:induction false} DigitsAppend(s: string, t: string, acc: int)
    requires AllDigits(s)
    ensures DigitsValue(s + t, acc) == DigitsValue(t, DigitsValue(s, acc))
  {
    if s == [] {
      assert s + t == t;
    } else {
      assert (s + t)[1..] == s[1..] + t;
      DigitsAppend(s[1..], t, 10 * acc + (s[0] as int - '0' as int));
    }
  }

  lemma {:induction false} NatReads(n: nat)
    ensures AllDigits(NatText(n)) && DigitsValue(NatText(n), 0) == n
    decreases n
  {
    if n < 10 {
      OneDigit(n, 0);
    } else {
      NatReads(n / 10);
      DigitsAppend(NatText(n / 10), [DigitChar(n % 10)], 0);
      OneDigit(n % 10, n / 10);
    }
  }

  lemma OneDigit(d: int, acc: int)
    requires 0 <= d < 10
    ensures IsDigit(DigitChar(d)) && DigitsValue([DigitChar(d)], acc) == 10 * acc + d
  {
    assert [DigitChar(d)][1..] == [];
  }

  /** Reading a printed number gives it back, as long as no digit follows. */
  lemma IntReads(n: int, rest: string)
    requires rest == [] || !IsDigit(rest[0])
    ensures Atoi(IntText(n) + rest) == n
  {
    hide DigitsValue, NatText, Atoi, AllDigits;
    var k := if n < 0 then -n else n;
    NatReads(k);
    DigitsAppend(NatText(k), rest, 0);
    DigitsStop(rest, k);
    var s := IntText(n) + rest;
    AtoiSigned(s);
    if n < 0 {
      assert s[0] == '-' && s[1..] == NatText(k) + rest;
    } else {
      assert s[0] == NatText(k)[0];
    }
  }

  lemma AtoiSigned(s: string)
    requires s != []
    ensures s[0] == '-' ==> Atoi(s) == -DigitsValue(s[1..], 0)
    ensures IsDigit(s[0]) ==> Atoi(s) == DigitsValue(s, 0)
  {
  }

  lemma DigitsStop(rest: string, acc: int)
    requires rest == [] || !IsDigit(rest[0])
    ensures DigitsValue(rest, acc) == acc
  {
  }

  lemma {:induction false} NatTextLength(n: nat, k: nat)
    requires n < Pow10(k) && 0 < k
    ensures |NatText(n)| <= k
    decreases n
  {
    if n >= 10 {
      NatTextLength(n / 10, k - 1);
    }
  }

  lemma IntIsOneLine(n: int)
    ensures '\n' !in IntText(n)
  {
    NatReads(if n < 0 then -n else n);
  }

  /** The values of a C `int`; printed, they take at most eleven characters. */
  type Int32 = n: int | -0x8000_0000 <= n < 0x8000_0000

  /** A number read into a C `int`; what atoi() does out of range is undefined, and reads as 0 here. */
  function AtoiInt(s: string): Int32 {
    var n := Atoi(s);
    if -0x8000_0000 <= n < 0x8000_0000 then n else 0
  }

  lemma Int32TextLength(n: Int32)
    ensures |IntText(n)| <= 11
  {
    assert Pow10(5) == 100000;
    assert Pow10(10) == 100000 * Pow10(5);
    var k: int := n;
    NatTextLength(if k < 0 then -k else k, 10);
  }

  // ---- Lines, as fgets() reads them ----

  const LINE_SIZE := 128

  /** The length of the next chunk: up to a newline, the end, or `size` - 1 characters. */
  function ChunkLength(s: string, size: nat): (k: nat)
    requires 0 < size
    ensures k <= |s| && k <= size - 1
    ensures s != [] && 1 < size ==> 0 < k
  {
    if s == [] || size == 1 then 0
    else if s[0] == '\n' then 1
    else 1 + ChunkLength(s[1..], size - 1)
  }

  function Lines(s: string): seq<string> {
    if s == [] then []
    else
      var k := ChunkLength(s, LINE_SIZE);
      [s[..k]] + Lines(s[k..])
  }

  lemma {:induction false} ChunkIsLine(l: string, rest: string, size: nat)
    requires '\n' !in l && |l| + 1 <= size - 1
    ensures ChunkLength(l + "\n" + rest, size) == |l| + 1
  {
    var s := l + "\n" + rest;
    if l == [] {
      assert s[0] == '\n';
    } else {
      assert s[0] == l[0];
      assert s[1..] == l[1..] + "\n" + rest;
      ChunkIsLine(l[1..], rest, size - 1);
    }
  }

  function Concat(lines: seq<string>): string {
    if lines == [] then "" else lines[0] + Concat(lines[1..])
  }

  predicate IsLine(l: string) {
    && 0 < |l| < LINE_SIZE && l[|l| - 1] == '\n' && '\n' !in l[..|l| - 1]
  }

  /** Reading back a file written line by line yields the lines. */
  lemma {:induction false} LinesRead(lines: seq<string>)
    requires forall l :: l in lines ==> IsLine(l)
    ensures Lines(Concat(lines)) == lines
  {
    if lines != [] {
      var l, rest := lines[0], Concat(lines[1..]);
      assert l in lines;
      assert l + rest == l[..|l| - 1] + "\n" + rest;
      ChunkIsLine(l[..|l| - 1], rest, LINE_SIZE);
      assert (l + rest)[..|l|] == l && (l + rest)[|l|..] == rest;
      LinesRead(lines[1..]);
    }
  }
}
