/**
 The Internet checksum in the SLIP tunnel (tools/tunslip.c): ip4sum, check_ip, the identification that
 write_to_serial fills in, and the checksums of a relayed DHCP reply.  Words are read and written in the
 byte order of the host, which is a parameter here.
 */
module SlipChecksum {
  import opened Common

  // ----- One's complement arithmetic -----

  function Pair(hi: Byte, lo: Byte): Word {
    hi * 256 + lo
  }

  /** Exchange of the two bytes of a word. */
  function Swap(x: Word): Word {
    Pair(x % 256, x / 256)
  }

  lemma SwapPair(hi: Byte, lo: Byte)
    ensures Swap(Pair(hi, lo)) == Pair(lo, hi)
  {
    var x := Pair(hi, lo);
    assert x / 256 == hi && x % 256 == lo;
  }

  /** The addition with end-around carry as ip4sum and write_to_serial do it. */
  function EndAroundAdd(a: Word, b: Word): Word {
    var s := (a + b) % 65536;
    if s < b then s + 1 else s
  }

  /** The remainder modulo 65535, but 65535 instead of 0 for every number except 0. */
  function Fold(n: nat): Word {
    if n == 0 then 0 else 1 + (n - 1) % 65535
  }

  /** One's complement arithmetic is arithmetic modulo 65535. */
  function Rem(n: int): nat {
    n % 65535
  }

  lemma RemAdd(a: int, b: int, c: int, d: int)
    requires Rem(a) == Rem(c) && Rem(b) == Rem(d)
    ensures Rem(a + b) == Rem(c + d)
  {
    var k, l := a / 65535 - c / 65535, b / 65535 - d / 65535;
    assert a == c + 65535 * k && b == d + 65535 * l;
    RemAddMultiple(c + d, k + l);
  }

  lemma RemAddMultiple(x: int, k: int)
    ensures Rem(x + 65535 * k) == Rem(x)
  {
    var q, r := x / 65535, x % 65535;
    var q', r' := (x + 65535 * k) / 65535, (x + 65535 * k) % 65535;
    assert 65535 * (q + k - q') == r' - r;
    assert q + k - q' == 0;
  }

  lemma RemScale(x: int, y: int)
    requires Rem(x) == Rem(y)
    ensures Rem(256 * x) == Rem(256 * y)
  {
    var d := x / 65535 - y / 65535;
    assert x == y + 65535 * d;
    assert 256 * x == 256 * y + 65535 * (256 * d);
    RemAddMultiple(256 * y, 256 * d);
  }

  lemma FoldUnique(n: nat, r: Word)
    requires Rem(r) == Rem(n) && (r == 0 <==> n == 0)
    ensures r == Fold(n)
  {
    if n > 0 {
      var q := (n - 1) / 65535;
      assert n == 65535 * q + Fold(n);
    }
  }

  lemma FoldRem(n: nat)
    ensures Rem(Fold(n)) == Rem(n) && (Fold(n) == 0 <==> n == 0)
    ensures Fold(n) in {0, 65535} <==> Rem(n) == 0
  {
    if n > 0 {
      var q := (n - 1) / 65535;
      assert n == 65535 * q + Fold(n);
    }
  }

  lemma EndAroundIsFold(a: Word, b: Word)
    ensures EndAroundAdd(a, b) == Fold(a + b)
  {
    if a + b < 65536 {
      assert a + b > 0 ==> (a + b - 1) % 65535 == a + b - 1;
    } else {
      assert (a + b) % 65536 == a + b - 65536;
      assert (a + b - 1) % 65535 == a + b - 65536;
    }
  }

  lemma FoldTwice(a: nat, b: nat)
    ensures Fold(Fold(a) + b) == Fold(a + b)
  {
    hide Rem, Fold;
    FoldRem(a);
    FoldRem(a + b);
    RemAdd(Fold(a), b, a, b);
    FoldUnique(Fold(a) + b, Fold(a + b));
  }

  /** Exchanging the bytes is multiplication by 256. */
  lemma SwapScales(x: Word)
    ensures Rem(Swap(x)) == Rem(256 * x)
    ensures Swap(Swap(x)) == x
    ensures Swap(x) == 0 <==> x == 0
    ensures Swap(65535 - x) == 65535 - Swap(x)
  {
    var hi, lo := x / 256, x % 256;
    assert x == 256 * hi + lo;
    assert Swap(x) == 256 * lo + hi;
    assert 256 * x == Swap(x) + 65535 * hi;
    RemAddMultiple(Swap(x), hi);
    assert Swap(x) / 256 == lo && Swap(x) % 256 == hi;
    assert 65535 - x == 256 * (255 - hi) + (255 - lo);
    assert (65535 - x) / 256 == 255 - hi && (65535 - x) % 256 == 255 - lo;
  }

  /** End-around addition does not depend on the byte order. */
  lemma ByteOrderIndependence(a: Word, b: Word)
    ensures Swap(EndAroundAdd(a, b)) == EndAroundAdd(Swap(a), Swap(b))
  {
    hide Swap, Fold, EndAroundAdd, Rem;
    EndAroundIsFold(a, b);
    EndAroundIsFold(Swap(a), Swap(b));
    FoldRem(a + b);
    SwapScales(a);
    SwapScales(b);
    SwapScales(Fold(a + b));
    RemScale(Fold(a + b), a + b);
    RemAdd(Swap(a), Swap(b), 256 * a, 256 * b);
    FoldUnique(Swap(a) + Swap(b), Swap(Fold(a + b)));
  }

  // ----- Sums over bytes -----

  /** The sum of the big-endian words of s; an odd last byte is the high half of a word. */
  function WordTotal(s: seq<Byte>): nat {
    if s == [] then 0
    else if |s| == 1 then Pair(s[0], 0)
    else Pair(s[0], s[1]) + WordTotal(s[2..])
  }

  lemma {:induction false} TotalConcat(s: seq<Byte>, t: seq<Byte>)
    requires |s| % 2 == 0
    ensures WordTotal(s + t) == WordTotal(s) + WordTotal(t)
  {
    if s == [] {
      assert s + t == t;
    } else {
      TotalConcat(s[2..], t);
      assert (s + t)[2..] == s[2..] + t;
    }
  }

  function PutWord(s: seq<Byte>, i: nat, w: Word): (r: seq<Byte>)
    requires i + 1 < |s|
    ensures |r| == |s|
  {
    s[i := w / 256][i + 1 := w % 256]
  }

  lemma {:induction false} TotalPut(s: seq<Byte>, i: nat, w: Word)
    requires i % 2 == 0 && i + 1 < |s|
    ensures WordTotal(PutWord(s, i, w)) == WordTotal(s) - Pair(s[i], s[i + 1]) + w
  {
    if i == 0 {
      assert PutWord(s, i, w)[2..] == s[2..];
    } else {
      TotalPut(s[2..], i - 2, w);
      assert PutWord(s, i, w)[2..] == PutWord(s[2..], i - 2, w);
    }
  }

  /** ip4sum: the end-around sum of the words at p, which starts from `start`. */
  method Ip4Sum(start: Word, p: array<Byte>, offset: nat, len: nat) returns (sum: Word)
    requires offset + len <= p.Length
    ensures sum == Fold(start + WordTotal(p[offset..offset + len]))
  {
    hide Fold, EndAroundAdd;
    sum := start;
    var i := 0;
    StartFold(start);
    ghost var all := p[offset..offset + len];
    while i + 1 < len
      invariant 0 <= i <= len && i % 2 == 0
      invariant sum == Fold(start + WordTotal(all[..i]))
    {
      var t := Pair(p[offset + i], p[offset + i + 1]);
      StepFold(start, all, i, 2);
      sum := EndAroundAdd(sum, t);
      i := i + 2;
    }
    if i < len {
      StepFold(start, all, i, 1);
      sum := EndAroundAdd(sum, Pair(p[offset + i], 0));
    }
    assert all[..len] == all;
  }

  lemma StartFold(start: Word)
    ensures Fold(start) == start
  {
  }

  lemma StepFold(start: Word, all: seq<Byte>, i: nat, k: nat)
    requires i % 2 == 0 && 1 <= k <= 2 && i + k <= |all|
    ensures EndAroundAdd(Fold(start + WordTotal(all[..i])), Pair(all[i], if k == 2 then all[i + 1] else 0))
            == Fold(start + WordTotal(all[..i + k]))
  {
    var t := Pair(all[i], if k == 2 then all[i + 1] else 0);
    var piece := all[i..i + k];
    assert WordTotal(piece) == t by {
      if k == 2 {
        assert piece[2..] == [];
      }
    }
    assert all[..i + k] == all[..i] + piece;
    TotalConcat(all[..i], piece);
    EndAroundIsFold(Fold(start + WordTotal(all[..i])), t);
    FoldTwice(start + WordTotal(all[..i]), t);
  }

  // ----- check_ip -----

  const TCP := 6
  const UDP := 17
  const ICMP := 1

  function HeaderLength(b: seq<Byte>): nat
    requires |b| > 0
  {
    4 * (b[0] % 16)
  }

  /** Length of what follows the header, as a 16-bit number. */
  function DataLength(b: seq<Byte>, len: nat): Word
    requires |b| > 0
  {
    (len - HeaderLength(b)) % 65536
  }

  /** Everything that check_ip looks at lies in the buffer. */
  predicate Readable(b: seq<Byte>, len: nat) {
    |b| >= 60 && len <= |b| && HeaderLength(b) + DataLength(b, len) <= |b|
  }

  function HeaderTotal(b: seq<Byte>): nat
    requires |b| >= 60
  {
    WordTotal(b[..HeaderLength(b)])
  }

  function DataTotal(b: seq<Byte>, len: nat): nat
    requires Readable(b, len)
  {
    WordTotal(b[HeaderLength(b)..HeaderLength(b) + DataLength(b, len)])
  }

  /** The data with its pseudo header: protocol and length, then both addresses. */
  function PseudoTotal(b: seq<Byte>, len: nat): nat
    requires Readable(b, len)
  {
    (b[9] + DataLength(b, len)) % 65536 + WordTotal(b[12..20]) + DataTotal(b, len)
  }

  /** The packet is accepted: every sum that check_ip takes is zero in one's complement arithmetic. */
  predicate Accepted(b: seq<Byte>, len: nat)
    requires Readable(b, len)
  {
    && b[0] / 16 == 4 && Pair(b[2], b[3]) == len
    && Rem(HeaderTotal(b)) == 0
    && (b[9] == TCP ==> Rem(PseudoTotal(b, len)) == 0)
    && (b[9] == UDP && Pair(b[26], b[27]) != 0 ==> Rem(PseudoTotal(b, len)) == 0)
    && (b[9] == ICMP ==> Rem(DataTotal(b, len)) == 0)
  }

  /** check_ip: 0 for an accepted packet, otherwise the code of the first check that fails. */
  method CheckIp(ip: array<Byte>, len: nat) returns (code: int)
    requires Readable(ip[..], len)
    ensures code == 0 <==> Accepted(ip[..], len)
    ensures code <= 0
    ensures code == -1 <==> ip[0] / 16 != 4
    ensures code == -2 <==> ip[0] / 16 == 4 && Pair(ip[2], ip[3]) > len
    ensures code == -3 <==> ip[0] / 16 == 4 && Pair(ip[2], ip[3]) < len
    ensures code == -4 <==> ip[0] / 16 == 4 && Pair(ip[2], ip[3]) == len && Rem(HeaderTotal(ip[..])) != 0
    ensures code == -5 ==> ip[9] == TCP
    ensures code == -6 ==> ip[9] == UDP
    ensures code == -7 ==> ip[9] == ICMP
    ensures code >= -7
  {
    hide Rem, Fold, WordTotal;
    ghost var b := ip[..];
    if ip[0] / 16 != 4 {
      return -1;
    }
    if Pair(ip[2], ip[3]) > len {
      return -2;
    }
    if Pair(ip[2], ip[3]) < len {
      return -3;
    }
    var hl := 4 * (ip[0] % 16);
    var sum := Ip4Sum(0, ip, 0, hl);
    assert ip[0..hl] == b[..hl];
    FoldRem(HeaderTotal(b));
    if sum != 65535 && sum != 0 {
      return -4;
    }
    if ip[9] == TCP || ip[9] == UDP {
      var tcpLen: Word := (len - hl) % 65536;
      var good := CheckTransport(ip, len, hl, tcpLen);
      if !good {
        if ip[9] == TCP {
          return -5;
        } else if Pair(ip[26], ip[27]) != 0 {
          return -6;
        }
      }
    } else if ip[9] == ICMP {
      var icmpLen: Word := (len - hl) % 65536;
      sum := Ip4Sum(0, ip, hl, icmpLen);
      assert ip[hl..hl + icmpLen] == b[hl..hl + icmpLen];
      FoldRem(DataTotal(b, len));
      if sum != 65535 && sum != 0 {
        return -7;
      }
    }
    return 0;
  }

  method CheckTransport(ip: array<Byte>, len: nat, hl: nat, dataLen: Word) returns (good: bool)
    requires Readable(ip[..], len) && hl == HeaderLength(ip[..]) && dataLen == DataLength(ip[..], len)
    ensures good <==> Rem(PseudoTotal(ip[..], len)) == 0
  {
    hide Rem, Fold, WordTotal;
    ghost var b := ip[..];
    var sum: Word := (ip[9] + dataLen) % 65536;
    ghost var start := sum;
    sum := Ip4Sum(sum, ip, 12, 8);
    assert ip[12..20] == b[12..20];
    sum := Ip4Sum(sum, ip, hl, dataLen);
    assert ip[hl..hl + dataLen] == b[hl..hl + dataLen];
    FoldTwice(start + WordTotal(b[12..20]), DataTotal(b, len));
    FoldRem(PseudoTotal(b, len));
    return sum == 65535 || sum == 0;
  }

  // ----- What the checksums detect -----

  lemma RemChange(total: int, before: int, after: int)
    requires Rem(total) == 0
    ensures Rem(total - before + after) == 0 <==> Rem(after) == Rem(before)
  {
    var k := total / 65535;
    if Rem(total - before + after) == 0 {
      var j := (total - before + after) / 65535;
      assert after == before + 65535 * (j - k);
      RemAddMultiple(before, j - k);
    }
    if Rem(after) == Rem(before) {
      RemAdd(total - before, after, total - before, before);
    }
  }

  /** A packet with a changed word in its header, behind the first, is not accepted. */
  lemma HeaderErrorIsDetected(b: seq<Byte>, len: nat, i: nat, w: Word)
    requires Readable(b, len) && Accepted(b, len) && i % 2 == 0 && 2 <= i < HeaderLength(b)
    requires w % 65535 != (256 * (b[i] as int) + b[i + 1]) % 65535
    ensures
      var b' := b[i := w / 256][i + 1 := w % 256];
      Readable(b', len) && !Accepted(b', len)
  {
    hide WordTotal, Rem, HeaderTotal, DataTotal, PseudoTotal, DataLength;
    RemIs(w);
    RemIs(Pair(b[i], b[i + 1]));
    HeaderChange(b, i, w);
    RemChange(HeaderTotal(b), Pair(b[i], b[i + 1]), w);
    SameData(b, len, i, w);
    if i == 2 {
      assert Pair(w / 256, w % 256) == w != len;
    }
  }

  lemma HeaderChange(b: seq<Byte>, i: nat, w: Word)
    requires |b| >= 60 && i % 2 == 0 && 2 <= i < HeaderLength(b)
    ensures i + 1 < HeaderLength(b) == HeaderLength(PutWord(b, i, w))
    ensures HeaderTotal(PutWord(b, i, w)) == HeaderTotal(b) - Pair(b[i], b[i + 1]) + w
  {
    hide WordTotal;
    var hl := HeaderLength(b);
    TotalPut(b[..hl], i, w);
    assert PutWord(b, i, w)[..hl] == PutWord(b[..hl], i, w);
  }

  lemma SameData(b: seq<Byte>, len: nat, i: nat, w: Word)
    requires Readable(b, len) && 2 <= i && i + 1 < |b|
    ensures PutWord(b, i, w) == b[i := w / 256][i + 1 := w % 256] && Readable(PutWord(b, i, w), len)
  {
  }

  lemma RemIs(x: int)
    ensures Rem(x) == x % 65535
  {
  }

  /**
   A packet with a changed word behind its header is not accepted either when it is a TCP or ICMP packet, or a UDP
   packet with a checksum; when the word is the UDP checksum, and is now 0, nothing is checked.
   */
  lemma DataErrorIsDetectedIff(b: seq<Byte>, len: nat, i: nat, w: Word)
    requires Readable(b, len) && Accepted(b, len) && i % 2 == 0 && HeaderLength(b) >= 20
    requires HeaderLength(b) <= i && i + 1 < HeaderLength(b) + DataLength(b, len)
    requires b[9] == 17 ==> b[26] != 0 || b[27] != 0
    requires w % 65535 != (256 * (b[i] as int) + b[i + 1]) % 65535
    ensures
      var b' := b[i := w / 256][i + 1 := w % 256];
      && Readable(b', len)
      && (Accepted(b', len) <==> b[9] !in {1, 6, 17} || (b[9] == 17 && b'[26] == b'[27] == 0))
  {
    hide WordTotal, Rem, HeaderTotal, DataTotal, PseudoTotal, HeaderLength, DataLength, PutWord;
    var old' := Pair(b[i], b[i + 1]);
    RemIs(w);
    RemIs(old');
    assert PutWord(b, i, w) == b[i := w / 256][i + 1 := w % 256] by {
      PutIs(b, i, w);
    }
    BehindHeader(b, len, i, w);
    DataChange(b, len, i, w);
    if Rem(PseudoTotal(b, len)) == 0 {
      RemChange(PseudoTotal(b, len), old', w);
    }
    if Rem(DataTotal(b, len)) == 0 {
      RemChange(DataTotal(b, len), old', w);
    }
  }

  lemma PutIs(b: seq<Byte>, i: nat, w: Word)
    requires i + 1 < |b|
    ensures PutWord(b, i, w) == b[i := w / 256][i + 1 := w % 256]
  {
  }

  lemma DataChange(b: seq<Byte>, len: nat, i: nat, w: Word)
    requires Readable(b, len) && i % 2 == 0 && HeaderLength(b) >= 20
    requires HeaderLength(b) <= i && i + 1 < HeaderLength(b) + DataLength(b, len)
    ensures
      var b' := PutWord(b, i, w);
      && Readable(b', len)
      && DataTotal(b', len) == DataTotal(b, len) - Pair(b[i], b[i + 1]) + w
      && PseudoTotal(b', len) == PseudoTotal(b, len) - Pair(b[i], b[i + 1]) + w
  {
    hide WordTotal;
    var b', lo, hi := PutWord(b, i, w), HeaderLength(b), HeaderLength(b) + DataLength(b, len);
    BehindHeader(b, len, i, w);
    TotalPut(b[lo..hi], i - lo, w);
    assert b'[lo..hi] == PutWord(b[lo..hi], i - lo, w);
  }

  /** The header does not change. */
  lemma BehindHeader(b: seq<Byte>, len: nat, i: nat, w: Word)
    requires Readable(b, len) && 20 <= HeaderLength(b) <= i && i + 1 < |b|
    ensures
      var b' := PutWord(b, i, w);
      && b'[0] == b[0] && b'[2] == b[2] && b'[3] == b[3] && b'[9] == b[9] && b'[12..20] == b[12..20]
      && Readable(b', len) && HeaderLength(b') == HeaderLength(b) && DataLength(b', len) == DataLength(b, len)
      && HeaderTotal(b') == HeaderTotal(b)
  {
    hide WordTotal;
    assert PutWord(b, i, w)[..HeaderLength(b)] == b[..HeaderLength(b)];
  }

  // ----- Filling in an identification -----

  /** The packet with identification v and a checksum that is corrected for it. */
  function WithIdentification(b: seq<Byte>, v: Word): seq<Byte>
    requires |b| >= 60
  {
    PutWord(PutWord(b, 4, v), 10, EndAroundAdd(Pair(b[10], b[11]), 65535 - v))
  }

  /** The corrected packet is accepted again, whatever else it holds. */
  lemma IdentificationKeepsAcceptance(b: seq<Byte>, len: nat, v: Word)
    requires Readable(b, len) && Accepted(b, len) && b[4] == 0 && b[5] == 0 && HeaderLength(b) >= 12
    ensures Readable(WithIdentification(b, v), len) && Accepted(WithIdentification(b, v), len)
  {
    hide Rem, WithIdentification, HeaderTotal, DataTotal, PseudoTotal, HeaderLength, DataLength, EndAroundAdd;
    IdentificationFields(b, len, v);
    IdentificationInHeader(b, len, v);
    StaysZero(HeaderTotal(b), Pair(b[10], b[11]), v);
  }

  lemma StaysZero(total: nat, c: Word, v: Word)
    requires Rem(total) == 0
    ensures Rem(total + v - c + EndAroundAdd(c, 65535 - v)) == 0
  {
    hide Rem, EndAroundAdd, Fold;
    EndAroundIsFold(c, 65535 - v);
    FoldRem(c + (65535 - v));
    var rest := total + v - c;
    RemAdd(rest, EndAroundAdd(c, 65535 - v), rest, c + (65535 - v));
    RemAddMultiple(total, 1);
  }

  /**
   With a header of eight bytes the checksum lies behind the header: the corrected packet has a right
   header sum exactly when the identification is zero in one's complement arithmetic.
   */
  lemma ShortHeaderIsSpoilt(b: seq<Byte>, len: nat, v: Word)
    requires Readable(b, len) && Accepted(b, len) && b[4] == 0 && b[5] == 0 && HeaderLength(b) == 8
    ensures Rem(HeaderTotal(WithIdentification(b, v))) == 0 <==> v in {0, 65535}
  {
    IdentificationAloneInHeader(b, v);
    hide WithIdentification, HeaderTotal;
    RemSum(HeaderTotal(b), v);
  }

  /**
   A header of fewer than twelve bytes does not hold both fields.  The corrected packet is accepted again unless the
   header ends between them, and then only if the identification is zero in one's complement arithmetic.
   */
  lemma ShortHeaderIff(b: seq<Byte>, len: nat, v: Word)
    requires Readable(b, len) && Accepted(b, len) && b[4] == 0 && b[5] == 0 && HeaderLength(b) < 12 <= len
    requires Readable(WithIdentification(b, v), len)
    ensures Accepted(WithIdentification(b, v), len) <==> HeaderLength(b) != 8 || v in {0, 65535}
  {
    hide Rem, WithIdentification, WordTotal, EndAroundAdd;
    var b', hl, c := WithIdentification(b, v), HeaderLength(b), Pair(b[10], b[11]);
    IdentificationFields(b, len, v);
    assert DataLength(b, len) == len - hl;
    if hl == 8 {
      ShortHeaderIsSpoilt(b, len, v);
      ChecksumInData(b, v, len);
      if v in {0, 65535} {
        if Rem(DataTotal(b, len)) == 0 {
          StaysZeroWithout(DataTotal(b, len), c, v);
        }
        if Rem(PseudoTotal(b, len)) == 0 {
          StaysZeroWithout(PseudoTotal(b, len), c, v);
        }
      }
    } else {
      HeaderUntouched(b, v);
      BothFields(b, v, hl, len);
      if Rem(DataTotal(b, len)) == 0 {
        StaysZero(DataTotal(b, len), c, v);
      }
      if Rem(PseudoTotal(b, len)) == 0 {
        StaysZero(PseudoTotal(b, len), c, v);
      }
    }
  }

  lemma HeaderUntouched(b: seq<Byte>, v: Word)
    requires |b| >= 60 && HeaderLength(b) <= 4
    ensures HeaderTotal(WithIdentification(b, v)) == HeaderTotal(b)
  {
    assert WithIdentification(b, v)[..HeaderLength(b)] == b[..HeaderLength(b)];
  }

  lemma ChecksumInData(b: seq<Byte>, v: Word, hi: nat)
    requires |b| >= 60 && 12 <= hi <= |b|
    ensures var c := Pair(b[10], b[11]);
      WordTotal(WithIdentification(b, v)[8..hi]) == WordTotal(b[8..hi]) - c + EndAroundAdd(c, 65535 - v)
  {
    hide WordTotal, EndAroundAdd;
    var c' := EndAroundAdd(Pair(b[10], b[11]), 65535 - v);
    TotalPut(b[8..hi], 2, c');
    assert WithIdentification(b, v)[8..hi] == PutWord(b[8..hi], 2, c');
  }

  lemma StaysZeroWithout(total: nat, c: Word, v: Word)
    requires Rem(total) == 0 && v in {0, 65535}
    ensures Rem(total - c + EndAroundAdd(c, 65535 - v)) == 0
  {
    hide Rem, EndAroundAdd;
    StaysZero(total, c, v);
    RemAddMultiple(total - c + EndAroundAdd(c, 65535 - v), v / 65535);
  }

  lemma RemSum(a: nat, v: Word)
    requires Rem(a) == 0
    ensures Rem(a + v) == 0 <==> v in {0, 65535}
  {
    RemAdd(a, v, 0, v);
  }

  lemma IdentificationFields(b: seq<Byte>, len: nat, v: Word)
    requires Readable(b, len)
    ensures var b' := WithIdentification(b, v);
      && |b'| == |b| && b'[0] == b[0] && b'[2] == b[2] && b'[3] == b[3] && b'[9] == b[9]
      && b'[12..20] == b[12..20] && b'[26] == b[26] && b'[27] == b[27]
      && Readable(b', len) && DataLength(b', len) == DataLength(b, len)
  {
  }

  lemma InBounds(b: seq<Byte>, len: nat, v: Word)
    requires Readable(b, len)
    ensures |b| >= 60 && Readable(WithIdentification(b, v), len)
  {
    IdentificationFields(b, len, v);
  }

  /** The sum of bytes that hold both fields. */
  lemma BothFields(b: seq<Byte>, v: Word, lo: nat, hi: nat)
    requires |b| >= 60 && lo <= 4 && lo % 2 == 0 && 12 <= hi <= |b| && b[4] == 0 && b[5] == 0
    ensures var c := Pair(b[10], b[11]);
      WordTotal(WithIdentification(b, v)[lo..hi]) == WordTotal(b[lo..hi]) + v - c + EndAroundAdd(c, 65535 - v)
  {
    hide WordTotal, EndAroundAdd;
    var c', part := EndAroundAdd(Pair(b[10], b[11]), 65535 - v), b[lo..hi];
    TotalPut(part, 4 - lo, v);
    TotalPut(PutWord(part, 4 - lo, v), 10 - lo, c');
    assert WithIdentification(b, v)[lo..hi] == PutWord(PutWord(part, 4 - lo, v), 10 - lo, c');
  }

  /** With both fields in the header, they change its sum and nothing else. */
  lemma IdentificationInHeader(b: seq<Byte>, len: nat, v: Word)
    requires Readable(b, len) && Readable(WithIdentification(b, v), len)
    requires b[4] == 0 && b[5] == 0 && HeaderLength(b) >= 12
    ensures var c := Pair(b[10], b[11]);
      HeaderTotal(WithIdentification(b, v)) == HeaderTotal(b) + v - c + EndAroundAdd(c, 65535 - v)
    ensures DataTotal(WithIdentification(b, v), len) == DataTotal(b, len)
    ensures PseudoTotal(WithIdentification(b, v), len) == PseudoTotal(b, len)
  {
    hide WordTotal, EndAroundAdd, WithIdentification, HeaderLength, DataLength, Pair;
    IdentificationFields(b, len, v);
    var b', lo, hi := WithIdentification(b, v), HeaderLength(b), HeaderLength(b) + DataLength(b, len);
    SameHeaderLength(b, b');
    BothFields(b, v, 0, lo);
    assert b'[0..lo] == b'[..lo] && b[0..lo] == b[..lo];
    DataUntouched(b, v, lo, hi);
  }

  lemma SameHeaderLength(b: seq<Byte>, b': seq<Byte>)
    requires |b| > 0 && |b'| > 0 && b'[0] == b[0]
    ensures HeaderLength(b') == HeaderLength(b)
    ensures HeaderLength(b) % 2 == 0 && HeaderLength(b) <= 60
  {
  }

  lemma DataUntouched(b: seq<Byte>, v: Word, lo: nat, hi: nat)
    requires |b| >= 60 && 12 <= lo <= hi <= |b|
    ensures WithIdentification(b, v)[lo..hi] == b[lo..hi]
  {
    hide EndAroundAdd;
  }

  lemma IdentificationAloneInHeader(b: seq<Byte>, v: Word)
    requires |b| >= 60 && b[4] == 0 && b[5] == 0 && HeaderLength(b) == 8
    ensures HeaderTotal(WithIdentification(b, v)) == HeaderTotal(b) + v
  {
    hide WordTotal, EndAroundAdd;
    TotalPut(b[..8], 4, v);
    assert WithIdentification(b, v)[..8] == PutWord(b[..8], 4, v);
  }

  // ----- The tunnel -----

  const BOOTPS := 67
  const BOOTPC := 68
  const DHCP_BASE_LEN := 44
  const OPTIONS_SIZE := 312

  /** A DHCP reply as the relay passes it on: one hop more, and no relay address. */
  function Relayed(reply: seq<Byte>): (r: seq<Byte>)
    requires |reply| == DHCP_BASE_LEN
    ensures |r| == DHCP_BASE_LEN
  {
    reply[..3] + [if reply[3] == 255 then 0 else reply[3] + 1] + reply[4..24] + [0, 0, 0, 0] + reply[28..]
  }

  /** The IP and UDP header of a reply with `size` bytes, before both checksums. */
  function ReplyHeader(size: nat, id: Word, src: seq<Byte>, dst: seq<Byte>): (h: seq<Byte>)
    requires 28 + size < 65536 && |src| == |dst| == 4
    ensures |h| == 28
  {
    [69, 0, (28 + size) / 256, (28 + size) % 256, id / 256, id % 256, 0, 0, 64, UDP, 0, 0] + src + dst
    + [0, BOOTPS, 0, BOOTPC, (8 + size) / 256, (8 + size) % 256, 0, 0]
  }

  class Tunnel {
    const littleEndian: bool
    var ipId: Word

    constructor (littleEndian: bool)
      ensures this.littleEndian == littleEndian && ipId == 0
    {
      this.littleEndian, ipId := littleEndian, 0;
    }

    /** htons and ntohs. */
    function Htons(x: Word): Word {
      if littleEndian then Swap(x) else x
    }

    /** A 16-bit field of the header, as the host reads it. */
    function Load(b: array<Byte>, i: nat): Word
      reads b
      requires i + 1 < b.Length
    {
      if littleEndian then Pair(b[i + 1], b[i]) else Pair(b[i], b[i + 1])
    }

    /** Assigning x to a 16-bit field: the field then holds the network word Htons(x). */
    method Store(b: array<Byte>, i: nat, x: Word)
      requires i + 1 < b.Length
      modifies b
      ensures b[..] == PutWord(old(b[..]), i, Htons(x))
    {
      if littleEndian {
        b[i], b[i + 1] := x % 256, x / 256;
      } else {
        b[i], b[i + 1] := x / 256, x % 256;
      }
    }

    lemma LoadIsHtons(b: array<Byte>, i: nat)
      requires i + 1 < b.Length
      ensures Load(b, i) == Htons(Pair(b[i], b[i + 1]))
    {
      SwapPair(b[i], b[i + 1]);
    }

    lemma LoadZero(b: array<Byte>, i: nat)
      requires i + 1 < b.Length
      ensures Load(b, i) == 0 <==> b[i] == b[i + 1] == 0
    {
    }

    lemma HtonsTwice(x: Word)
      ensures Htons(Htons(x)) == x && Htons(65535 - Htons(x)) == 65535 - x
    {
      SwapScales(x);
      SwapScales(65535 - x);
    }

    /** The correction of the checksum field gives the same bytes on either kind of host. */
    lemma CorrectionIsPortable(c: Word, v: Word)
      ensures Htons(EndAroundAdd(Htons(c), 65535 - Htons(v))) == EndAroundAdd(c, 65535 - v)
    {
      SwapScales(c);
      SwapScales(v);
      SwapScales(65535 - v);
      ByteOrderIndependence(Swap(c), Swap(65535 - v));
    }

    /** The test for the don't-fragment flag, on the field as the host reads it. */
    predicate FlagSet(b: array<Byte>)
      reads b
      requires b.Length >= 60
    {
      Load(b, 6) / 16384 % 2 == 1
    }

    /** Only on a big-endian host does the test look at the flag; otherwise at a bit of the fragment offset. */
    lemma FlagDependsOnHost(b: array<Byte>)
      requires b.Length >= 60
      ensures FlagSet(b) <==> (if littleEndian then b[7] else b[6]) / 64 % 2 == 1
    {
      var hi: int, lo: int := if littleEndian then b[7] else b[6], if littleEndian then b[6] else b[7];
      assert Load(b, 6) == 256 * hi + lo;
      assert Load(b, 6) / 16384 == hi / 64;
    }

    /**
     write_to_serial up to the SLIP encoding: what is encoded is the buffer, when the code is not negative.
     A packet without identification gets one, and then is never dropped for it.
     */
    method WriteToSerial(inbuf: array<Byte>, len: nat) returns (ecode: int)
      requires Readable(inbuf[..], len)
      modifies inbuf, this
      ensures ecode < 0 || ecode == 0
      ensures
        var fills := old(Accepted(inbuf[..], len)) && old(inbuf[4]) == old(inbuf[5]) == 0 && old(FlagSet(inbuf));
        && (fills ==> inbuf[..] == WithIdentification(old(inbuf[..]), old(ipId)) && ipId == (old(ipId) + 1) % 65536)
        && (!fills ==> inbuf[..] == old(inbuf[..]) && ipId == old(ipId))
      ensures ecode >= 0 ==> Readable(inbuf[..], len) && Accepted(inbuf[..], len)
      ensures old(HeaderLength(inbuf[..])) >= 12 ==> (ecode == 0 <==> old(Accepted(inbuf[..], len)))
      ensures Readable(inbuf[..], len) && (ecode == 0 <==> old(Accepted(inbuf[..], len)) && Accepted(inbuf[..], len))
      ensures old(HeaderLength(inbuf[..])) < 12 <= len && inbuf[..] != old(inbuf[..]) ==>
        (ecode == 0 <==> old(HeaderLength(inbuf[..])) != 8 || old(ipId) in {0, 65535})
    {
      hide Accepted, Readable, HeaderLength, DataLength, Load, FlagSet, WithIdentification, Swap, Pair;
      ghost var b := inbuf[..];
      InBounds(b, len, ipId);
      ecode := CheckIp(inbuf, len);
      if ecode < 0 {
        return;
      }
      LoadZero(inbuf, 4);
      if Load(inbuf, 4) == 0 && FlagSet(inbuf) {
        SetIdentification(inbuf);
        if HeaderLength(b) >= 12 {
          IdentificationKeepsAcceptance(b, len, old(ipId));
        } else if len >= 12 {
          ShortHeaderIff(b, len, old(ipId));
        }
        ecode := CheckIp(inbuf, len);
      }
    }

    method SetIdentification(inbuf: array<Byte>)
      requires inbuf.Length >= 60
      modifies inbuf, `ipId
      ensures inbuf[..] == WithIdentification(old(inbuf[..]), old(ipId)) && ipId == (old(ipId) + 1) % 65536
    {
      hide Swap, Pair, PutWord, EndAroundAdd, Htons, Load;
      ghost var b, v := inbuf[..], ipId;
      var nid := Htons(ipId);
      ipId := (ipId + 1) % 65536;
      Store(inbuf, 4, nid);
      HtonsTwice(v);
      PutKeeps(b, 4, v);
      assert inbuf[10] == inbuf[..][4 + 2..][4] && inbuf[11] == inbuf[..][4 + 2..][5];
      assert inbuf[10] == b[10] && inbuf[11] == b[11];
      nid := 65535 - nid;
      LoadIsHtons(inbuf, 10);
      var sum := AddEndAround(Load(inbuf, 10), nid);
      CorrectionIsPortable(Pair(b[10], b[11]), v);
      Store(inbuf, 10, sum);
    }

    method AddEndAround(x: Word, y: Word) returns (sum: Word)
      ensures sum == EndAroundAdd(x, y)
    {
      sum := (x + y) % 65536;
      if sum < y {
        sum := sum + 1;
      }
    }

    // ----- Relaying a DHCP reply -----

    /** Assigning htons(v) to a field. */
    method StoreNetwork(b: array<Byte>, i: nat, v: Word)
      requires i + 1 < b.Length
      modifies b
      ensures b[i] == v / 256 && b[i + 1] == v % 256
      ensures forall k :: 0 <= k < b.Length && k != i && k != i + 1 ==> b[k] == old(b[k])
    {
      HtonsTwice(v);
      Store(b, i, Htons(v));
    }

    method Copy(b: array<Byte>, i: nat, bytes: seq<Byte>)
      requires i + |bytes| <= b.Length
      modifies b
      ensures forall k :: 0 <= k < |bytes| ==> b[i + k] == bytes[k]
      ensures forall k :: 0 <= k < b.Length && !(i <= k < i + |bytes|) ==> b[k] == old(b[k])
    {
      forall k | 0 <= k < |bytes| {
        b[i + k] := bytes[k];
      }
    }

    /** The fields of both headers, with empty checksums. */
    method FillHeaders(pkt: array<Byte>, size: nat, src: seq<Byte>, dst: seq<Byte>)
      requires pkt.Length >= 60 && 28 + size < 65536 && |src| == |dst| == 4
      modifies pkt, `ipId
      ensures pkt[..28] == ReplyHeader(size, old(ipId), src, dst)
      ensures pkt[28..] == old(pkt[28..])
      ensures ipId == (old(ipId) + 1) % 65536
    {
      FillFirstWords(pkt, size);
      Copy(pkt, 12, src);
      Copy(pkt, 16, dst);
      FillUdpHeader(pkt, size);
    }

    method FillFirstWords(pkt: array<Byte>, size: nat)
      requires pkt.Length >= 60 && 28 + size < 65536
      modifies pkt, `ipId
      ensures pkt[..12] == [69, 0, (28 + size) / 256, (28 + size) % 256, old(ipId) / 256, old(ipId) % 256, 0, 0, 64,
                            UDP, 0, 0]
      ensures forall k :: 12 <= k < pkt.Length ==> pkt[k] == old(pkt[k])
      ensures ipId == (old(ipId) + 1) % 65536
    {
      pkt[0], pkt[1] := 69, 0;
      StoreNetwork(pkt, 2, 28 + size);
      StoreNetwork(pkt, 4, ipId);
      ipId := (ipId + 1) % 65536;
      StoreNetwork(pkt, 6, 0);
      pkt[8], pkt[9] := 64, UDP;
      StoreNetwork(pkt, 10, 0);
    }

    method FillUdpHeader(pkt: array<Byte>, size: nat)
      requires pkt.Length >= 60 && 28 + size < 65536
      modifies pkt
      ensures pkt[20..28] == [0, BOOTPS, 0, BOOTPC, (8 + size) / 256, (8 + size) % 256, 0, 0]
      ensures pkt[..20] == old(pkt[..20]) && pkt[28..] == old(pkt[28..])
    {
      StoreNetwork(pkt, 20, BOOTPS);
      StoreNetwork(pkt, 22, BOOTPC);
      StoreNetwork(pkt, 24, 8 + size);
      StoreNetwork(pkt, 26, 0);
    }

    /** Both checksums: afterwards check_ip accepts, and the UDP checksum is not the one that means "none". */
    method FillChecksums(pkt: array<Byte>, size: nat)
      requires 60 <= 28 + size <= pkt.Length && 28 + size < 65000
      requires pkt[0] == 69 && Pair(pkt[2], pkt[3]) == 28 + size && pkt[9] == UDP
      requires pkt[10] == pkt[11] == pkt[26] == pkt[27] == 0
      modifies pkt
      ensures exists x: Word, y: Word :: pkt[..] == PutWord(PutWord(old(pkt[..]), 10, x), 26, y)
      ensures Readable(pkt[..], 28 + size) && Accepted(pkt[..], 28 + size)
      ensures Pair(pkt[26], pkt[27]) != 0
    {
      hide Fold, Rem, WordTotal, Swap, Accepted, Readable, PutWord;
      ghost var b := pkt[..];
      FillHeaderSum(pkt);
      ghost var x := 65535 - Fold(WordTotal(b[..20]));
      PutKeeps(b, 10, x);
      assert pkt[26] == pkt[..][12..][14] && pkt[27] == pkt[..][12..][15];
      SameSlices(pkt[..], b, 12, 20);
      SameSlices(pkt[..], b, 20, 28 + size);
      ghost var y := UdpSum(pkt[..], size);
      PutKeeps(pkt[..], 26, y);
      FillUdpSum(pkt, size);
      FilledIsAccepted(b, size);
    }

    method FillHeaderSum(pkt: array<Byte>)
      requires pkt.Length >= 60
      modifies pkt
      ensures pkt[..] == PutWord(old(pkt[..]), 10, 65535 - Fold(WordTotal(old(pkt[..])[..20])))
    {
      hide Fold, WordTotal, Swap, PutWord;
      var sum := Ip4Sum(0, pkt, 0, 20);
      assert pkt[0..20] == pkt[..][..20];
      HtonsTwice(sum);
      Store(pkt, 10, 65535 - Htons(sum));
    }

    method FillUdpSum(pkt: array<Byte>, size: nat)
      requires 60 <= 28 + size <= pkt.Length && 28 + size < 65000
      modifies pkt
      ensures pkt[..] == PutWord(old(pkt[..]), 26, UdpSum(old(pkt[..]), size))
    {
      hide Fold, WordTotal, Swap, PutWord;
      var sum: Word := 17 + (8 + size);
      sum := Ip4Sum(sum, pkt, 12, 8);
      sum := Ip4Sum(sum, pkt, 20, 8 + size);
      assert pkt[12..20] == pkt[..][12..20] && pkt[20..28 + size] == pkt[..][20..28 + size];
      FoldTwice(25 + size + WordTotal(pkt[12..20]), WordTotal(pkt[20..28 + size]));
      HtonsTwice(sum);
      HtonsTwice(0);
      if sum != 65535 {
        Store(pkt, 26, 65535 - Htons(sum));
      } else {
        HtonsFull();
        Store(pkt, 26, 65535);
      }
    }

    lemma HtonsFull()
      ensures Htons(65535) == 65535
    {
    }

    /** relay_dhcp_to_client: the packet that is built is accepted, so that write_to_serial sends it as it is. */
    method RelayDhcpToClient(reply: seq<Byte>, options: seq<Byte>, giaddr: seq<Byte>)
      returns (pkt: array<Byte>, ecode: int)
      requires |reply| == DHCP_BASE_LEN && |options| <= OPTIONS_SIZE && |giaddr| == 4
      modifies this
      ensures fresh(pkt) && pkt.Length == 28 + DHCP_BASE_LEN + OPTIONS_SIZE
      ensures ecode == 0
      ensures
        var size := DHCP_BASE_LEN + |options|;
        && Readable(pkt[..], 28 + size) && Accepted(pkt[..], 28 + size)
        && pkt[28..28 + size] == Relayed(reply) + options
        && Pair(pkt[26], pkt[27]) != 0
      ensures
        var h := ReplyHeader(DHCP_BASE_LEN + |options|, old(ipId), giaddr,
          if reply[10] >= 128 then [255, 255, 255, 255] else reply[16..20]);
        forall k :: 0 <= k < 28 && k !in {10, 11, 26, 27} ==> pkt[k] == h[k]
      ensures ipId == (old(ipId) + 1) % 65536
      // The addresses and the ports.
      ensures pkt[12..16] == giaddr && pkt[20..24] == [0, 67, 0, 68]
      ensures pkt[16..20] == if reply[10] >= 128 then [255, 255, 255, 255] else reply[16..20]
      // Of the reply, only the hop count and the address of the relay change.
      ensures forall k :: 0 <= k < 44 && k != 3 && !(24 <= k < 28) ==> pkt[28 + k] == reply[k]
      ensures pkt[31] == (reply[3] as int + 1) % 256 && pkt[52..56] == [0, 0, 0, 0]
      ensures forall k :: 0 <= k < |options| ==> pkt[72 + k] == options[k]
    {
      hide Accepted, Readable, WithIdentification, Swap, Pair, PutWord, Relayed, ReplyHeader, HeaderLength, DataLength,
        FlagSet;
      pkt := new Byte[28 + DHCP_BASE_LEN + OPTIONS_SIZE](_ => 0);
      var size := DHCP_BASE_LEN + |options|;
      ghost var body := Relayed(reply) + options;
      Copy(pkt, 28, Relayed(reply) + options);
      ghost var copied := pkt[..];
      Slice(copied, 28, body);
      var dst := if reply[10] >= 128 then [255, 255, 255, 255] else reply[16..20];
      FillHeaders(pkt, size, giaddr, dst);
      ghost var h, filled := pkt[..28], pkt[..];
      HeaderBytes(h, size, old(ipId), giaddr, dst);
      SameBehind(filled, copied, 28, body);
      FillChecksums(pkt, size);
      ghost var x: Word, y: Word :| pkt[..] == PutWord(PutWord(filled, 10, x), 26, y);
      ChecksumsOnly(filled, x, y);
      FlagDependsOnHost(pkt);
      ghost var done := pkt[..];
      AcceptedHeader(done, 28 + size);
      ecode := WriteToSerial(pkt, 28 + size);
      assert pkt[..] == done;
      SameBehind(done, filled, 28, body);
      RelayedBytes(done, reply, options);
      RelayedHeader(done, size, old(ipId), giaddr, dst);
    }

    lemma RelayedHeader(pkt: seq<Byte>, size: nat, id: Word, src: seq<Byte>, dst: seq<Byte>)
      requires 28 + size < 65536 && |src| == |dst| == 4 && |pkt| >= 28
      requires var h := ReplyHeader(size, id, src, dst); forall k :: 0 <= k < 28 && k !in {10, 11, 26, 27} ==>
        pkt[k] == h[k]
      ensures pkt[12..16] == src && pkt[16..20] == dst && pkt[20..24] == [0, 67, 0, 68]
    {
      var h := ReplyHeader(size, id, src, dst);
      assert forall k :: 0 <= k < 4 ==> h[12 + k] == src[k] && h[16 + k] == dst[k];
      assert h[20] == 0 && h[21] == 67 && h[22] == 0 && h[23] == 68;
      hide ReplyHeader;
      Slice(pkt, 12, src);
      Slice(pkt, 16, dst);
      Slice(pkt, 20, [0, 67, 0, 68]);
    }

    lemma RelayedBytes(pkt: seq<Byte>, reply: seq<Byte>, options: seq<Byte>)
      requires |reply| == DHCP_BASE_LEN && 72 + |options| <= |pkt|
      requires pkt[28..72 + |options|] == Relayed(reply) + options
      ensures forall k :: 0 <= k < 44 && k != 3 && !(24 <= k < 28) ==> pkt[28 + k] == reply[k]
      ensures pkt[31] == (reply[3] as int + 1) % 256 && pkt[52..56] == [0, 0, 0, 0]
      ensures forall k :: 0 <= k < |options| ==> pkt[72 + k] == options[k]
    {
      hide Relayed;
      var base := Relayed(reply);
      RelayedBase(reply);
      var body := base + options;
      assert forall k :: 0 <= k < |body| ==> pkt[28 + k] == pkt[28..72 + |options|][k] == body[k];
      assert forall k :: 0 <= k < 44 ==> base[k] == body[k];
      assert forall k :: 0 <= k < |options| ==> options[k] == body[44 + k];
      assert pkt[52] == base[24] && pkt[53] == base[25] && pkt[54] == base[26] && pkt[55] == base[27];
    }

    lemma RelayedBase(reply: seq<Byte>)
      requires |reply| == DHCP_BASE_LEN
      ensures
        var base := Relayed(reply);
        && (forall k :: 0 <= k < 44 && k != 3 && !(24 <= k < 28) ==> base[k] == reply[k])
        && base[3] == (reply[3] as int + 1) % 256 && base[24] == base[25] == base[26] == base[27] == 0
    {
    }

    lemma HeaderBytes(h: seq<Byte>, size: nat, id: Word, src: seq<Byte>, dst: seq<Byte>)
      requires 28 + size < 65536 && |src| == |dst| == 4 && h == ReplyHeader(size, id, src, dst)
      ensures |h| == 28 && h[0] == 69 && Pair(h[2], h[3]) == 28 + size && h[6] == h[7] == 0 && h[9] == UDP
      ensures h[10] == h[11] == h[26] == h[27] == 0
    {
    }
  }

  /** The bytes from lo on, in two buffers that agree there. */
  lemma SameBehind(s: seq<Byte>, t: seq<Byte>, lo: nat, body: seq<Byte>)
    requires lo + |body| <= |s| == |t| && s[lo..] == t[lo..] && t[lo..lo + |body|] == body
    ensures s[lo..lo + |body|] == body
  {
    assert s[lo..lo + |body|] == s[lo..][..|body|];
    assert t[lo..lo + |body|] == t[lo..][..|body|];
  }

  lemma Slice(s: seq<Byte>, lo: nat, body: seq<Byte>)
    requires lo + |body| <= |s| && forall k :: 0 <= k < |body| ==> body[k] == s[lo + k]
    ensures s[lo..lo + |body|] == body
  {
  }

  /** Two words are stored, and nothing else changes. */
  lemma ChecksumsOnly(s: seq<Byte>, x: Word, y: Word)
    requires |s| >= 28
    ensures var t := PutWord(PutWord(s, 10, x), 26, y);
      && |t| == |s| && t[28..] == s[28..]
      && forall k :: 0 <= k < |s| && k !in {10, 11, 26, 27} ==> t[k] == s[k]
  {
    var t := PutWord(PutWord(s, 10, x), 26, y);
    assert forall k :: 28 <= k < |s| ==> t[k] == s[k];
  }

  lemma AcceptedHeader(b: seq<Byte>, len: nat)
    requires Readable(b, len) && b[0] == 69
    ensures HeaderLength(b) >= 12
  {
  }

  lemma SameSlices(s: seq<Byte>, t: seq<Byte>, lo: nat, hi: nat)
    requires 12 <= lo <= hi <= |s| == |t| && s[12..] == t[12..]
    ensures s[lo..hi] == t[lo..hi]
  {
    assert |s[lo..hi]| == |t[lo..hi]|;
    forall k | 0 <= k < hi - lo
      ensures s[lo..hi][k] == t[lo..hi][k]
    {
      assert s[lo + k] == s[12..][lo - 12 + k] && t[lo + k] == t[12..][lo - 12 + k];
    }
  }

  lemma PutKeeps(s: seq<Byte>, i: nat, w: Word)
    requires i + 1 < |s|
    ensures |PutWord(s, i, w)| == |s|
    ensures PutWord(s, i, w)[..i] == s[..i] && PutWord(s, i, w)[i + 2..] == s[i + 2..]
    ensures Pair(PutWord(s, i, w)[i], PutWord(s, i, w)[i + 1]) == w
  {
  }

  /** The UDP checksum that relay_dhcp_to_client stores. */
  function UdpSum(b: seq<Byte>, size: nat): (y: Word)
    requires 60 <= 28 + size <= |b|
    ensures y != 0
  {
    var sum := Fold(25 + size + WordTotal(b[12..20]) + WordTotal(b[20..28 + size]));
    if sum != 65535 then 65535 - sum else 65535
  }

  /** The complement of a sum makes the sum right; a sum of 65535 is right already. */
  lemma FilledIsAccepted(b: seq<Byte>, size: nat)
    requires 60 <= 28 + size <= |b| && 28 + size < 65000
    requires b[0] == 69 && Pair(b[2], b[3]) == 28 + size && b[9] == UDP
    requires b[10] == b[11] == b[26] == b[27] == 0
    ensures
      var b' := PutWord(PutWord(b, 10, 65535 - Fold(WordTotal(b[..20]))), 26, UdpSum(b, size));
      Readable(b', 28 + size) && Accepted(b', 28 + size)
  {
    hide Fold, Rem, WordTotal;
    var headerSum := Fold(WordTotal(b[..20]));
    var total := 25 + size + WordTotal(b[12..20]) + WordTotal(b[20..28 + size]);
    var y := UdpSum(b, size);
    var b' := PutWord(PutWord(b, 10, 65535 - headerSum), 26, y);
    assert b'[..20] == PutWord(b[..20], 10, 65535 - headerSum);
    TotalPut(b[..20], 10, 65535 - headerSum);
    ComplementIsZero(WordTotal(b[..20]));
    assert b'[12..20] == b[12..20];
    assert b'[20..28 + size] == PutWord(b[20..28 + size], 6, y);
    TotalPut(b[20..28 + size], 6, y);
    ComplementIsZero(total);
    assert HeaderLength(b') == 20 && DataLength(b', 28 + size) == 8 + size;
    assert PseudoTotal(b', 28 + size) == total + y;
  }

  lemma ComplementIsZero(total: nat)
    ensures Rem(total + (65535 - Fold(total))) == 0
    ensures Fold(total) == 65535 ==> Rem(total + 65535) == 0
  {
    hide Rem, Fold;
    FoldRem(total);
    RemAdd(total, 65535 - Fold(total), Fold(total), 65535 - Fold(total));
    RemZero();
    RemAddMultiple(total, 1);
  }

  lemma RemZero()
    ensures Rem(65535) == 0
  {
  }
}
