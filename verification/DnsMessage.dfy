/** Reading a DNS response (`dns_recv`, lwip/src/core/dns.c): from the bytes of a message to what
    it says to the entry that asked. */
module DnsMessage {
  import opened MachineInts
  import opened DnsName
  import opened DnsTable

  const HEADER: nat := 12
  const QUERY: nat := 4
  const RECORD: nat := 10

  /** A 16-bit number in network order. */
  function U16(msg: seq<byte>, off: nat): nat
    requires off + 2 <= |msg|
  {
    var hi: int := msg[off];
    hi * 256 + msg[off + 1]
  }

  function U32(msg: seq<byte>, off: nat): nat
    requires off + 4 <= |msg|
  {
    U16(msg, off) * 0x10000 + U16(msg, off + 2)
  }

  /** The memory that the name in the table starts: the name, its zero byte, and whatever lies
      behind. */
  function Memory(name: seq<byte>, behind: nat -> byte): nat -> byte {
    (i: nat) => if i < |name| then name[i] else if i == |name| then 0 else behind(i)
  }

  /** A record that carries an address of the wanted family. */
  predicate Wanted(kind: nat, cls: nat, len: nat, v6: bool) {
    cls == 1 && if v6 then kind == 28 && len == 16 else kind == 1 && len == 4
  }

  /** The answers from `off` on, of which `n` are announced. */
  function ReadAnswers(msg: seq<byte>, off: nat, n: nat, v6: bool): Reply
    decreases n
  {
    if n == 0 || off >= |msg| then Nothing else
      var r := SkipFrom(msg, off);
      if r == FAIL || r + RECORD > |msg| then Ignored else
        var len, q := U16(msg, r + 8), r + RECORD;
        if Wanted(U16(msg, r), U16(msg, r + 2), len, v6) then
          if q + len > |msg| then Ignored else Found(msg[q..q + len], U32(msg, r + 4))
        else if q + len > 0xFFFF then Ignored
        else ReadAnswers(msg, q + len, n - 1, v6)
  }

  /** What `msg` says to an outstanding entry whose transaction id it carries; `sender` tells
      whether it comes from the server that was asked. */
  ghost function ReplyTo(msg: seq<byte>, e: Entry, sender: bool, behind: nat -> byte): Reply {
    if |msg| < HEADER + QUERY || msg[2] < 128 || U16(msg, 4) != 1 || !sender then Ignored else
      var r := CompareFrom(Memory(e.name, behind), 0, msg, HEADER);
      if r == FAIL || r + QUERY > |msg| then Ignored
      else if U16(msg, r + 2) != 1 || U16(msg, r) != (if IsV6(e.addrType) then 28 else 1) then Ignored
      else if msg[3] % 16 != 0 then Failure
      else ReadAnswers(msg, r + QUERY, U16(msg, 6), IsV6(e.addrType))
  }

  /** The loop over the answers. */
  method ScanAnswers(msg: seq<byte>, start: nat, count: nat, v6: bool) returns (reply: Reply)
    requires |msg| <= 0xFFFF && start <= 0xFFFF
    ensures reply == ReadAnswers(msg, start, count, v6)
  {
    hide SkipFrom, U16, U32;
    var res: nat, nanswers: nat := start, count;
    while nanswers > 0 && res < |msg|
      invariant res <= 0xFFFF && ReadAnswers(msg, res, nanswers, v6) == ReadAnswers(msg, start, count, v6)
      decreases nanswers
    {
      var r := SkipName(msg, res);
      if r == 0xFFFF { return Ignored; }
      if r + RECORD > |msg| { return Ignored; }
      var kind, cls, ttl, len := U16(msg, r), U16(msg, r + 2), U32(msg, r + 4), U16(msg, r + 8);
      res := r + RECORD;
      if cls == 1 {
        if kind == 1 && len == 4 {
          if !v6 {
            if res + 4 > |msg| { return Ignored; }
            return Found(msg[res..res + 4], ttl);
          }
        }
        if kind == 28 && len == 16 {
          if v6 {
            if res + 16 > |msg| { return Ignored; }
            return Found(msg[res..res + 16], ttl);
          }
        }
      }
      if res + len > 0xFFFF { return Ignored; }
      res := res + len;
      nanswers := nanswers - 1;
    }
    return Nothing;
  }

  /** `dns_recv` from the check of the header to the end of the answers. */
  method ReadReply(msg: seq<byte>, e: Entry, sender: bool, behind: nat -> byte) returns (reply: Reply)
    requires HEADER + QUERY <= |msg| <= 0xFFFF
    ensures reply == ReplyTo(msg, e, sender, behind)
  {
    if msg[2] < 128 { return Ignored; }
    if U16(msg, 4) != 1 { return Ignored; }
    if !sender { return Ignored; }
    var res := CompareName(Memory(e.name, behind), msg, HEADER);
    if res == 0xFFFF { return Ignored; }
    if res + QUERY > |msg| { return Ignored; }
    if U16(msg, res + 2) != 1 || (IsV6(e.addrType) && U16(msg, res) != 28)
       || (!IsV6(e.addrType) && U16(msg, res) != 1) { return Ignored; }
    res := res + QUERY;
    if msg[3] % 16 != 0 { return Failure; }
    reply := ScanAnswers(msg, res, U16(msg, 6), IsV6(e.addrType));
  }

  /** What is in a query: the id, recursion desired and nothing else in the flags, one question and
      no records, the name in labels, type A or AAAA, class IN. */
  lemma QueryHolds(txid: nat, name: seq<byte>, v6: bool)
    requires txid < 0x10000
    ensures var msg := Header(txid) + Encoded(Labels(name)) + Question(v6);
            && |msg| == HEADER + |name| + 2 + QUERY && U16(msg, 0) == txid && msg[2] == 1 && msg[3] == 0
            && U16(msg, 4) == 1 && U16(msg, 6) == 0 && U16(msg, 8) == 0 && U16(msg, 10) == 0
            && At(msg, HEADER, Encoded(Labels(name)))
            && U16(msg, HEADER + |name| + 2) == (if v6 then 28 else 1) && U16(msg, HEADER + |name| + 4) == 1
  {
    hide Wire, Encoded, Labels;
    WireIsEncoded(name);
    WireLength(name);
    var msg := Header(txid) + Encoded(Labels(name)) + Question(v6);
    assert msg[..HEADER] == Header(txid);
    assert msg[HEADER + |name| + 2..] == Question(v6);
  }

  // ------------------------------------------------------- responses as servers send them

  /** A resource record: `owner` is the encoded name it belongs to. */
  datatype Record = Record(owner: seq<byte>, kind: nat, cls: nat, ttl: nat, data: seq<byte>)

  function Word(x: nat): seq<byte> { [Hi(x), Lo(x)] }

  function RecordBytes(r: Record): seq<byte> {
    r.owner + Word(r.kind) + Word(r.cls) + Word(r.ttl / 0x10000) + Word(r.ttl % 0x10000) + Word(|r.data|) + r.data
  }

  /** Owners that servers send: a pointer to an earlier name, or a name of readable labels. */
  ghost predicate OwnerOk(owner: seq<byte>) {
    || (|owner| == 2 && owner[0] >= 192)
    || exists name :: |name| <= 255 && Fine(name) && owner == Wire(name)
  }

  ghost predicate RecordOk(r: Record) {
    OwnerOk(r.owner) && r.kind < 0x10000 && r.cls < 0x10000 && r.ttl < 0x1_0000_0000 && |r.data| < 0x10000
  }

  function AllBytes(rs: seq<Record>): seq<byte> {
    if rs == [] then [] else RecordBytes(rs[0]) + AllBytes(rs[1..])
  }

  /** An A record of 4 bytes or an AAAA record of 16 bytes, of class IN. */
  predicate Carries(r: Record, v6: bool) {
    r.cls == 1 && r.kind == (if v6 then 28 else 1) && |r.data| == (if v6 then 16 else 4)
  }

  /** What a list of records says: the first address of the wanted family. */
  function FirstAddress(rs: seq<Record>, v6: bool): Reply {
    if rs == [] then Nothing else if Carries(rs[0], v6) then Found(rs[0].data, rs[0].ttl) else FirstAddress(rs[1..], v6)
  }

  lemma OwnerSkipped(msg: seq<byte>, off: nat, owner: seq<byte>)
    requires OwnerOk(owner) && At(msg, off, owner) && off + |owner| < |msg| <= 0xFFFF
    ensures SkipFrom(msg, off) == off + |owner|
  {
    hide Wire, Fine, At;
    if |owner| == 2 && owner[0] >= 192 {
      AtIndex(msg, off, owner, 0);
    } else {
      var name :| |name| <= 255 && Fine(name) && owner == Wire(name);
      WireLength(name);
      SkipWire(name, msg, off);
    }
  }

  lemma AtSplit(msg: seq<byte>, off: nat, a: seq<byte>, b: seq<byte>)
    requires At(msg, off, a + b)
    ensures At(msg, off, a) && At(msg, off + |a|, b)
  {
    AtPart(msg, off, a + b, 0, |a|);
    AtPart(msg, off, a + b, |a|, |a + b|);
    assert (a + b)[0..|a|] == a && (a + b)[|a|..|a + b|] == b;
  }

  lemma WordAt(msg: seq<byte>, off: nat, x: nat, rest: seq<byte>)
    requires At(msg, off, Word(x) + rest) && x < 0x10000
    ensures off + 2 <= |msg| && U16(msg, off) == x && At(msg, off + 2, rest)
  {
    hide At;
    AtSplit(msg, off, Word(x), rest);
    AtIndex(msg, off, Word(x), 0);
    AtIndex(msg, off, Word(x), 1);
  }

  lemma RecordSplit(r: Record)
    ensures RecordBytes(r) ==
            r.owner + (Word(r.kind) + (Word(r.cls) + (Word(r.ttl / 0x10000) + (Word(r.ttl % 0x10000) + (Word(|r.data|) + r.data)))))
  {
    hide Word;
  }

  /** Where the parts of a record stand in a message. */
  lemma RecordAt(msg: seq<byte>, off: nat, r: Record)
    requires RecordOk(r) && At(msg, off, RecordBytes(r))
    ensures var q := off + |r.owner|;
            && At(msg, off, r.owner) && q + RECORD + |r.data| <= |msg|
            && U16(msg, q) == r.kind && U16(msg, q + 2) == r.cls && U32(msg, q + 4) == r.ttl
            && U16(msg, q + 8) == |r.data| && At(msg, q + RECORD, r.data)
  {
    hide OwnerOk, At, Word, U16, RecordBytes;
    var a5 := Word(|r.data|) + r.data;
    var a4 := Word(r.ttl % 0x10000) + a5;
    var a3 := Word(r.ttl / 0x10000) + a4;
    var a2 := Word(r.cls) + a3;
    RecordSplit(r);
    var q := off + |r.owner|;
    AtSplit(msg, off, r.owner, Word(r.kind) + a2);
    WordAt(msg, q, r.kind, a2);
    WordAt(msg, q + 2, r.cls, a3);
    WordAt(msg, q + 4, r.ttl / 0x10000, a4);
    WordAt(msg, q + 6, r.ttl % 0x10000, a5);
    WordAt(msg, q + 8, |r.data|, r.data);
    AtFits(msg, q + RECORD, r.data);
  }

  lemma AtFits(msg: seq<byte>, off: nat, s: seq<byte>)
    requires At(msg, off, s)
    ensures off + |s| <= |msg| && msg[off..off + |s|] == s
  {
  }

  /** Reading the answers of a response finds the first address of the wanted family among its
      records, whatever stands before it. */
  lemma {:induction false} AnswersRead(msg: seq<byte>, off: nat, rs: seq<Record>, v6: bool)
    requires |msg| <= 0xFFFF && At(msg, off, AllBytes(rs)) && forall i :: 0 <= i < |rs| ==> RecordOk(rs[i])
    ensures ReadAnswers(msg, off, |rs|, v6) == FirstAddress(rs, v6)
    decreases |rs|
  {
    hide At, RecordOk, RecordBytes, SkipFrom, U32;
    if rs != [] {
      var r := rs[0];
      AtSplit(msg, off, RecordBytes(r), AllBytes(rs[1..]));
      RecordAt(msg, off, r);
      RecordLength(r);
      OwnerOf(r);
      OwnerSkipped(msg, off, r.owner);
      AtFits(msg, off + |r.owner| + RECORD, r.data);
      AnswersRead(msg, off + |RecordBytes(r)|, rs[1..], v6);
    }
  }

  lemma RecordLength(r: Record)
    ensures |RecordBytes(r)| == |r.owner| + RECORD + |r.data|
  {
  }

  lemma OwnerOf(r: Record)
    requires RecordOk(r)
    ensures OwnerOk(r.owner)
  {
  }

  /** A response: one question, `flags2` and the records. */
  function Response(txid: nat, flags2: byte, name: seq<byte>, v6: bool, rs: seq<Record>): seq<byte> {
    Word(txid) + [128, flags2] + Word(1) + Word(|rs|) + [0, 0, 0, 0] + (Wire(name) + (Question(v6) + AllBytes(rs)))
  }

  ghost predicate ResponseOk(name: seq<byte>, rs: seq<Record>) {
    |name| <= 255 && |rs| < 0x10000 && forall i :: 0 <= i < |rs| ==> RecordOk(rs[i])
  }

  lemma ResponseParts(txid: nat, flags2: byte, name: seq<byte>, v6: bool, rs: seq<Record>)
    requires ResponseOk(name, rs)
    ensures var msg := Response(txid, flags2, name, v6, rs);
            && |msg| >= HEADER + QUERY && msg[2] == 128 && msg[3] == flags2 && U16(msg, 4) == 1 && U16(msg, 6) == |rs|
            && At(msg, HEADER, Wire(name) + (Question(v6) + AllBytes(rs)))
  {
    hide Wire, AllBytes, RecordOk;
    WireLength(name);
  }

  /** What the server says reaches the entry: a response to the question that was sent, in any
      letter case, gives the first address of the wanted family among its records, or says that
      there is none, or that the request failed. */
  lemma ResponseRead(txid: nat, flags2: byte, name: seq<byte>, rs: seq<Record>, e: Entry, behind: nat -> byte)
    requires ResponseOk(name, rs) && SameName(e.name, name) && Readable(Labels(e.name))
    requires |Response(txid, flags2, name, IsV6(e.addrType), rs)| <= 0xFFFF
    ensures ReplyTo(Response(txid, flags2, name, IsV6(e.addrType), rs), e, true, behind) ==
            if flags2 % 16 != 0 then Failure else FirstAddress(rs, IsV6(e.addrType))
  {
    hide Wire, AllBytes, RecordOk, At, CompareFrom, ReadAnswers, Readable, Labels, SameName, Fine, Response, U16;
    var v6 := IsV6(e.addrType);
    var msg := Response(txid, flags2, name, v6, rs);
    ResponseParts(txid, flags2, name, v6, rs);
    WireLength(name);
    AtSplit(msg, HEADER, Wire(name), Question(v6) + AllBytes(rs));
    var r := HEADER + |name| + 2;
    AtSplit(msg, r, Question(v6), AllBytes(rs));
    QuestionAt(msg, r, v6);
    NameCompared(e, name, msg, behind);
    AnswersRead(msg, r + QUERY, rs, v6);
  }

  lemma QuestionAt(msg: seq<byte>, off: nat, v6: bool)
    requires At(msg, off, Question(v6))
    ensures off + QUERY <= |msg| && U16(msg, off) == (if v6 then 28 else 1) && U16(msg, off + 2) == 1
  {
    hide At;
    var q := Question(v6);
    AtIndex(msg, off, q, 0);
    AtIndex(msg, off, q, 1);
    AtIndex(msg, off, q, 2);
    AtIndex(msg, off, q, 3);
  }

  lemma NameCompared(e: Entry, name: seq<byte>, msg: seq<byte>, behind: nat -> byte)
    requires |name| <= 255 && SameName(e.name, name) && Readable(Labels(e.name)) && At(msg, HEADER, Wire(name)) && |msg| <= 0xFFFF
    ensures |e.name| == |name| && CompareFrom(Memory(e.name, behind), 0, msg, HEADER) == HEADER + |name| + 2 != FAIL
  {
    hide Wire, At, CompareFrom, Readable, Labels, Fine, Encoded, SkipFrom;
    WireIsEncoded(name);
    NameRoundTrip(Memory(e.name, behind), e.name, name, msg, HEADER);
  }
}
