/** Checksums over chains of buffers and pseudo headers (lwip/src/core/inet_chksum.c). */
module ChecksumChain {
  import opened MachineInts
  import opened OnesComplement
  import opened Checksum

  /** One pbuf of a chain: where its payload starts and what it holds. */
  datatype Segment = Segment(address: nat, data: seq<byte>)

  ghost predicate Segments(segs: seq<Segment>) {
    forall i :: 0 <= i < |segs| ==> |segs[i].data| <= 0xffff
  }

  /** The bytes of a chain. */
  function Flat(segs: seq<Segment>): seq<byte> {
    if segs == [] then [] else segs[0].data + Flat(segs[1..])
  }

  lemma {:induction false} FlatAppend(segs: seq<Segment>, s: Segment)
    ensures Flat(segs + [s]) == Flat(segs) + s.data
  {
    if segs == [] {
      assert [s][1..] == [];
    } else {
      assert (segs + [s])[1..] == segs[1..] + [s];
      FlatAppend(segs[1..], s);
    }
  }

  lemma FlatTake(segs: seq<Segment>, i: nat)
    requires i < |segs|
    ensures Flat(segs[..i + 1]) == Flat(segs[..i]) + segs[i].data
  {
    assert segs[..i + 1] == segs[..i] + [segs[i]];
    FlatAppend(segs[..i], segs[i]);
  }

  /** `(u16_t)~x`. */
  function Complement(x: u16): (r: u16) {
    0xffff - x
  }

  /** `inet_chksum` with any of the interchangeable algorithms. */
  method InetChksum(e: Order, address: nat, data: seq<byte>) returns (r: u16)
    requires |data| <= 0xffff
    ensures r == Complement(OnesSum(e, data))
  {
    var sum := Standard2(e, address, data);
    r := Complement(sum);
  }

  // ------------------------------------------------------------- the chain loop

  /** What the chain loops keep: `acc`, its bytes swapped back if `swapped`, is the
      one's-complement sum of `init` and the bytes `p` summed so far. */
  ghost predicate Accumulates(e: Order, init: nat, p: seq<byte>, acc: u32, swapped: bool) {
    acc <= 0xffff && (if swapped then Swap(acc) else acc) == Norm(init + WordSum(e, p))
  }

  lemma SwapAccumulates(e: Order, init: nat, p: seq<byte>, acc: u32, swapped: bool)
    requires Accumulates(e, init, p, acc, swapped)
    ensures Accumulates(e, init, p, Swap(acc), !swapped)
  {
    hide Norm, WordSum, Swap;
    SwapTwice(acc);
  }

  /** Adding a buffer's own sum is right as long as the swap state matches the parity so far. */
  lemma AddAccumulates(e: Order, init: nat, p: seq<byte>, q: seq<byte>, acc: u32, swapped: bool)
    requires Accumulates(e, init, p, acc, swapped) && swapped == (|p| % 2 == 1)
    ensures Accumulates(e, init, p + q, Fold(acc + OnesSum(e, q)), swapped)
  {
    hide Norm, WordSum, OnesSum, Swap, Fold;
    var before := init + WordSum(e, p);
    OnesSumIsNorm(e, q);
    WordSumConcat(e, p, q);
    FoldOnce(acc + OnesSum(e, q));
    NormAdd(acc, WordSum(e, q));
    if swapped {
      SwapTwice(acc);
      SwapIsShift(before);
      NormAdd(256 * before, WordSum(e, q));
      SwapIsShift(256 * before + WordSum(e, q));
      Unshift(before, WordSum(e, q));
      ShiftStep(init, WordSum(e, p + q), init, WordSum(e, p) + 256 * WordSum(e, q));
    } else {
      NormAdd(before, WordSum(e, q));
    }
  }

  /** Shifting twice is the identity, so only the second summand stays shifted. */
  lemma Unshift(a: nat, b: nat)
    ensures Norm(256 * (256 * a + b)) == Norm(a + 256 * b)
  {
    hide Norm;
    NormCongruent(256 * (256 * a + b), a + 256 * b, a);
  }

  /** One round of a chain loop over the first `take` bytes of `s`. */
  method AddSegment(e: Order, s: Segment, take: nat, acc: u32, swapped: bool, ghost init: nat, ghost p: seq<byte>)
    returns (acc': u32, swapped': bool)
    requires take <= |s.data| <= 0xffff
    requires Accumulates(e, init, p, acc, swapped) && swapped == (|p| % 2 == 1)
    ensures Accumulates(e, init, p + s.data[..take], acc', swapped')
    ensures swapped' == if |s.data| % 2 == 1 then !swapped else swapped
  {
    hide Norm, WordSum, OnesSum, Swap, Fold;
    var sum := Standard2(e, s.address, s.data[..take]);
    AddAccumulates(e, init, p, s.data[..take], acc, swapped);
    acc', swapped' := Fold(acc + sum), swapped;
    if |s.data| % 2 != 0 {
      SwapAccumulates(e, init, p + s.data[..take], acc', swapped');
      swapped' := !swapped';
      acc' := Swap(acc');
    }
  }

  /** The loop shared by `inet_chksum_pbuf` and `inet_cksum_pseudo_base`. */
  method AddChain(e: Order, segs: seq<Segment>, start: u32) returns (acc: u32)
    requires Segments(segs) && start <= 0xffff
    ensures acc <= 0xffff && acc == Norm(start + WordSum(e, Flat(segs)))
  {
    hide Norm, Swap, Accumulates;
    var swapped := false;
    acc := start;
    StartAccumulates(e, start);
    for i := 0 to |segs|
      invariant Accumulates(e, start, Flat(segs[..i]), acc, swapped)
      invariant swapped == (|Flat(segs[..i])| % 2 == 1)
    {
      FlatTake(segs, i);
      assert segs[i].data[..|segs[i].data|] == segs[i].data;
      acc, swapped := AddSegment(e, segs[i], |segs[i].data|, acc, swapped, start, Flat(segs[..i]));
    }
    assert segs[..|segs|] == segs;
    EndAccumulates(e, start, Flat(segs), acc, swapped);
    if swapped {
      acc := Swap(acc);
    }
  }

  lemma StartAccumulates(e: Order, start: u32)
    requires start <= 0xffff
    ensures Accumulates(e, start, [], start, false)
  {
    NormSmall(start);
  }

  lemma EndAccumulates(e: Order, init: nat, p: seq<byte>, acc: u32, swapped: bool)
    requires Accumulates(e, init, p, acc, swapped)
    ensures acc <= 0xffff && (if swapped then Swap(acc) else acc) == Norm(init + WordSum(e, p))
  {
  }

  /** `inet_chksum_pbuf`: for every way to cut the data into buffers, the checksum of the
      data in one piece. */
  method InetChksumPbuf(e: Order, segs: seq<Segment>) returns (r: u16)
    requires Segments(segs)
    ensures r == Complement(OnesSum(e, Flat(segs)))
  {
    hide Norm, WordSum, OnesSum;
    OnesSumIsNorm(e, Flat(segs));
    var acc := AddChain(e, segs, 0);
    r := Complement(acc);
  }

  // -------------------------------------------------------------- pseudo headers

  /** The fields after the addresses: protocol and length as two words. */
  function ProtoBytes(proto: byte, len: u16): seq<byte> {
    [0, proto, len / 256, len % 256]
  }

  lemma ProtoSum(e: Order, proto: byte, len: u16)
    ensures WordSum(e, ProtoBytes(proto, len)) == Htons(e, proto) + Htons(e, len)
  {
    var p := ProtoBytes(proto, len);
    var hi, lo := len / 256, len % 256;
    Words4(e, p);
    assert len == 256 * hi + lo && hi % 256 == hi;
    assert Swap(len) == 256 * lo + hi && Swap(proto) == 256 * proto;
  }

  /** Adding protocol and length, folding and inverting: the end of both pseudo-header sums. */
  method FinishPseudo(e: Order, proto: byte, protoLen: u16, acc: u32) returns (r: u16)
    requires acc <= 0xffff
    ensures r == Complement(Norm(acc + WordSum(e, ProtoBytes(proto, protoLen))))
  {
    hide Norm, WordSum, Fold;
    ProtoSum(e, proto, protoLen);
    var sum := acc + Htons(e, proto);
    sum := sum + Htons(e, protoLen);
    FoldTwice(sum);
    sum := Fold(sum);
    sum := Fold(sum);
    r := Complement(sum);
  }

  /** `inet_cksum_pseudo_base`, started with the folded sum of the even-length bytes `front`. */
  method PseudoBase(e: Order, segs: seq<Segment>, proto: byte, protoLen: u16, acc: u32, ghost front: seq<byte>)
    returns (r: u16)
    requires Segments(segs) && |front| % 2 == 0 && acc == OnesSum(e, front)
    ensures r == Complement(OnesSum(e, front + ProtoBytes(proto, protoLen) + Flat(segs)))
  {
    hide Norm, WordSum, OnesSum;
    var sum := AddChain(e, segs, acc);
    PseudoSum(e, front, proto, protoLen, Flat(segs), acc, sum);
    r := FinishPseudo(e, proto, protoLen, sum);
  }

  lemma PseudoSum(e: Order, front: seq<byte>, proto: byte, len: u16, payload: seq<byte>, acc: u32, sum: u32)
    requires |front| % 2 == 0 && acc == OnesSum(e, front) && sum == Norm(acc + WordSum(e, payload))
    ensures Norm(sum + WordSum(e, ProtoBytes(proto, len))) == OnesSum(e, front + ProtoBytes(proto, len) + payload)
  {
    hide Norm, WordSum, OnesSum;
    var p := ProtoBytes(proto, len);
    OnesSumIsNorm(e, front);
    OnesSumIsNorm(e, front + p + payload);
    WordSumConcat(e, front + p, payload);
    WordSumConcat(e, front, p);
    NormAdd(WordSum(e, front), WordSum(e, payload));
    NormAdd(acc + WordSum(e, payload), WordSum(e, p));
    NormSame(acc + WordSum(e, payload), WordSum(e, front) + WordSum(e, payload), WordSum(e, p));
  }

  /** `inet_cksum_pseudo_partial_base`: the same over the first `chksumLen` payload bytes.
      `held` tells whether its assertion `chksum_len < 0x7fff` held in every round. */
  method PseudoPartialBase(e: Order, segs: seq<Segment>, proto: byte, protoLen: u16, chksumLen: u16, acc: u32,
                           ghost front: seq<byte>)
    returns (r: u16, held: bool)
    requires Segments(segs) && |front| % 2 == 0 && acc == OnesSum(e, front)
    ensures var n := if chksumLen < |Flat(segs)| then chksumLen else |Flat(segs)|;
            r == Complement(OnesSum(e, front + ProtoBytes(proto, protoLen) + Flat(segs)[..n]))
    ensures held <==> chksumLen == 0 || segs == [] || chksumLen - |segs[0].data| < 0x7fff
  {
    hide Norm, WordSum, OnesSum, Swap, Accumulates;
    var left, swapped, sum: u32, i: nat := chksumLen, false, acc, 0;
    held := true;
    StartAccumulates(e, acc);
    while i < |segs| && left > 0
      invariant i <= |segs| && 0 <= left <= chksumLen
      invariant chksumLen - left <= |Flat(segs[..i])| && (left > 0 ==> chksumLen - left == |Flat(segs[..i])|)
      invariant Accumulates(e, acc, Flat(segs[..i])[..chksumLen - left], sum, swapped)
      invariant left > 0 ==> swapped == ((chksumLen - left) % 2 == 1)
      invariant i > 0 ==> left == 0 || left <= chksumLen - |segs[0].data|
      invariant held <==> chksumLen == 0 || i == 0 || chksumLen - |segs[0].data| < 0x7fff
    {
      var take := |segs[i].data|;
      if take > left {
        take := left;
      }
      ghost var done := Flat(segs[..i]);
      FlatTake(segs, i);
      assert done[..chksumLen - left] == done;
      assert (done + segs[i].data)[..|done| + take] == done + segs[i].data[..take];
      sum, swapped := AddSegment(e, segs[i], take, sum, swapped, acc, done);
      left := left - take;
      held := held && left < 0x7fff;
      i := i + 1;
    }
    FlatSplit(segs, i);
    var n := if chksumLen < |Flat(segs)| then chksumLen else |Flat(segs)|;
    assert Flat(segs)[..n] == Flat(segs[..i])[..chksumLen - left];
    EndAccumulates(e, acc, Flat(segs)[..n], sum, swapped);
    if swapped {
      sum := Swap(sum);
    }
    PseudoSum(e, front, proto, protoLen, Flat(segs)[..n], acc, sum);
    r := FinishPseudo(e, proto, protoLen, sum);
  }

  lemma {:induction false} FlatSplit(segs: seq<Segment>, i: nat)
    requires i <= |segs|
    ensures Flat(segs) == Flat(segs[..i]) + Flat(segs[i..])
  {
    if i == 0 {
      assert segs[0..] == segs;
    } else {
      FlatSplit(segs[1..], i - 1);
      assert segs[1..][..i - 1] == segs[..i][1..] && segs[1..][i - 1..] == segs[i..];
    }
  }

  /** Adding the two halves of a 32-bit address held in memory. */
  method AddAddress(e: Order, start: u32, b: seq<byte>, i: nat) returns (acc: u32)
    requires i + 3 < |b| && start <= 0xf0000
    ensures acc == start + Word(e, b[i], b[i + 1]) + Word(e, b[i + 2], b[i + 3])
  {
    var addr := Load32(e, b[i], b[i + 1], b[i + 2], b[i + 3]);
    AddressHalves(e, b[i], b[i + 1], b[i + 2], b[i + 3]);
    acc := start + addr % 0x10000;
    acc := acc + addr / 0x10000 % 0x10000;
  }

  lemma AddressHalves(e: Order, a: byte, b: byte, c: byte, d: byte)
    ensures var addr := Load32(e, a, b, c, d);
            addr % 0x10000 + addr / 0x10000 % 0x10000 == Word(e, a, b) + Word(e, c, d)
  {
    var x: int, y: int := Word(e, a, b), Word(e, c, d);
    if e.Little? { Halves(y, x); } else { Halves(x, y); }
  }

  lemma Halves(hi: int, lo: int)
    requires 0 <= hi < 0x10000 && 0 <= lo < 0x10000
    ensures (0x10000 * hi + lo) % 0x10000 == lo && (0x10000 * hi + lo) / 0x10000 % 0x10000 == hi
  {
  }

  /** `inet_chksum_pseudo`: the checksum over the IPv4 pseudo header and the whole payload. */
  method InetChksumPseudo(e: Order, segs: seq<Segment>, proto: byte, protoLen: u16, src: seq<byte>, dest: seq<byte>)
    returns (r: u16)
    requires Segments(segs) && |src| == 4 && |dest| == 4
    ensures r == Complement(OnesSum(e, src + dest + ProtoBytes(proto, protoLen) + Flat(segs)))
  {
    hide Norm, WordSum, OnesSum, Fold, Word;
    var acc := AddAddress(e, 0, src, 0);
    acc := AddAddress(e, acc, dest, 0);
    AddressSum4(e, src, dest);
    FoldTwice(acc);
    acc := Fold(acc);
    acc := Fold(acc);
    r := PseudoBase(e, segs, proto, protoLen, acc, src + dest);
  }

  lemma AddressSum4(e: Order, src: seq<byte>, dest: seq<byte>)
    requires |src| == 4 && |dest| == 4
    ensures OnesSum(e, src + dest) == Norm(Word(e, src[0], src[1]) + Word(e, src[2], src[3])
                                           + Word(e, dest[0], dest[1]) + Word(e, dest[2], dest[3]))
  {
    hide Norm, Word;
    OnesSumIsNorm(e, src + dest);
    WordSumConcat(e, src, dest);
    Words4(e, src);
    Words4(e, dest);
  }

  lemma Words4(e: Order, b: seq<byte>)
    requires |b| == 4
    ensures WordSum(e, b) == Word(e, b[0], b[1]) + Word(e, b[2], b[3])
  {
    assert b[0..] == b;
    WordSumStep(e, b, 0);
    WordSumStep(e, b, 2);
    WordSumEnd(e, b, 4);
  }

  /** `ip6_chksum_pseudo`: the same with IPv6 addresses, read word by word in turn. */
  method Ip6ChksumPseudo(e: Order, segs: seq<Segment>, proto: byte, protoLen: u16, src: seq<byte>, dest: seq<byte>)
    returns (r: u16)
    requires Segments(segs) && |src| == 16 && |dest| == 16
    ensures r == Complement(OnesSum(e, src + dest + ProtoBytes(proto, protoLen) + Flat(segs)))
  {
    hide Norm, WordSum, OnesSum, Fold, Word;
    var acc: u32 := 0;
    assert src[..0] == [] && dest[..0] == [];
    EmptySum(e);
    for part := 0 to 4
      invariant acc == WordSum(e, src[..4 * part]) + WordSum(e, dest[..4 * part]) && acc <= 4 * part * 0xffff
    {
      NextWords(e, src, 4 * part);
      NextWords(e, dest, 4 * part);
      acc := AddAddress(e, acc, src, 4 * part);
      acc := AddAddress(e, acc, dest, 4 * part);
    }
    assert src[..16] == src && dest[..16] == dest;
    OnesSumIsNorm(e, src + dest);
    WordSumConcat(e, src, dest);
    FoldTwice(acc);
    acc := Fold(acc);
    acc := Fold(acc);
    r := PseudoBase(e, segs, proto, protoLen, acc, src + dest);
  }

  lemma EmptySum(e: Order)
    ensures WordSum(e, []) == 0
  {
  }

  lemma NextWords(e: Order, b: seq<byte>, i: nat)
    requires i % 2 == 0 && i + 4 <= |b|
    ensures WordSum(e, b[..i + 4]) == WordSum(e, b[..i]) + Word(e, b[i], b[i + 1]) + Word(e, b[i + 2], b[i + 3])
  {
    hide Word;
    assert b[..i + 4] == b[..i] + b[i..i + 4];
    WordSumConcat(e, b[..i], b[i..i + 4]);
    Words4(e, b[i..i + 4]);
  }

  // ------------------------------------------------------------ using the checksum

  /** `data` with the word `c` stored at offset `off` the way the host stores a word. */
  function Store(e: Order, data: seq<byte>, off: nat, c: u16): (r: seq<byte>)
    requires off + 1 < |data|
    ensures |r| == |data|
  {
    var first, second := if e.Little? then c % 256 else c / 256, if e.Little? then c / 256 else c % 256;
    data[off := first][off + 1 := second]
  }

  lemma StoreSum(e: Order, data: seq<byte>, off: nat, c: u16)
    requires off % 2 == 0 && off + 1 < |data| && data[off] == 0 && data[off + 1] == 0
    ensures WordSum(e, Store(e, data, off, c)) == WordSum(e, data) + c
  {
    hide Norm, WordSum;
    var d := Store(e, data, off, c);
    assert data == data[..off] + data[off..] && d == d[..off] + d[off..] && d[..off] == data[..off];
    WordSumConcat(e, data[..off], data[off..]);
    WordSumConcat(e, data[..off], d[off..]);
    WordSumStep(e, data, off);
    WordSumStep(e, d, off);
    assert data[off + 2..] == d[off + 2..];
  }

  /** Storing the checksum in a zeroed field at an even offset makes the data check to 0. */
  lemma StoredChecksumVerifies(e: Order, data: seq<byte>, off: nat)
    requires off % 2 == 0 && off + 1 < |data| && data[off] == 0 && data[off + 1] == 0
    ensures Complement(OnesSum(e, Store(e, data, off, Complement(OnesSum(e, data))))) == 0
  {
    hide Norm, WordSum, Store;
    var v := OnesSum(e, data);
    OnesSumIsNorm(e, data);
    StoreSum(e, data, off, Complement(v));
    OnesSumIsNorm(e, Store(e, data, off, Complement(v)));
    NormAdd(WordSum(e, data), Complement(v));
    NormSmall(v + Complement(v));
  }

  /** Version 2 needs its documented length limit: its 32-bit accumulator overflows on
      0x20004 bytes of 0xff, and the folded remainder is not the sum. */
  lemma {:induction false} LongSum(e: Order, n: nat)
    ensures WordSum(e, seq(2 * n, _ => 255)) == n * 0xffff
  {
    var s := seq(2 * n, _ => 255);
    if n > 0 {
      LongSum(e, n - 1);
      assert s[2..] == seq(2 * (n - 1), _ => 255);
    }
  }

  lemma LimitNeeded(e: Order)
    ensures var data: seq<byte> := seq(0x20004, _ => 255);
            Fold(Fold(WordSum(e, data) % 0x1_0000_0000)) != OnesSum(e, data)
  {
    hide Norm, Fold;
    var data: seq<byte> := seq(0x20004, _ => 255);
    LongSum(e, 65538);
    OnesSumIsNorm(e, data);
    FoldTwice(65534);
    NormSmall(65534);
    NormCongruent(65538 * 0xffff, 65535, 65537);
    NormSmall(65535);
  }
}
