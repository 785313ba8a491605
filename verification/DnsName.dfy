/** Host names in DNS messages (lwip/src/core/dns.c; sections 3.1 and 4.1.2 of RFC 1035): what
    `dns_send` writes for a name, and how `dns_compare_name` and `dns_skip_name` read it back.

    A message is the flat contents of its pbuf chain; a name is a C string without its final
    zero byte. */
module DnsName {
  import opened MachineInts

  const DOT: byte := 46
  const FAIL: nat := 0xFFFF

  /** `lwip_tolower`. */
  function Lower(c: byte): byte {
    if 65 <= c <= 90 then c + 32 else c
  }

  /** The same name up to the case of its letters. */
  ghost predicate SameName(a: seq<byte>, b: seq<byte>) {
    |a| == |b| && forall i :: 0 <= i < |a| ==> Lower(a[i]) == Lower(b[i])
  }

  // -------------------------------------------------------------- what is written

  /** Where the first label of `name` ends. */
  function Cut(name: seq<byte>): (c: nat)
    ensures c <= |name|
  {
    if name == [] || name[0] == DOT then 0 else 1 + Cut(name[1..])
  }

  lemma {:induction false} CutIs(name: seq<byte>, c: nat)
    requires c <= |name| && (forall i :: 0 <= i < c ==> name[i] != DOT) && (c < |name| ==> name[c] == DOT)
    ensures Cut(name) == c
  {
    if c > 0 { CutIs(name[1..], c - 1); }
  }

  /** The labels of a name: what stands between its dots. */
  function Labels(name: seq<byte>): (ls: seq<seq<byte>>)
    ensures ls != []
  {
    var c := Cut(name);
    if c == |name| then [name] else [name[..c]] + Labels(name[c + 1..])
  }

  /** Every label after its length, with a zero byte behind the last. */
  function Encoded(labels: seq<seq<byte>>): seq<byte> {
    if labels == [] then [0] else [|labels[0]| % 256] + labels[0] + Encoded(labels[1..])
  }

  /** The same, label by label along the name. */
  function Wire(name: seq<byte>): seq<byte> {
    var c := Cut(name);
    [c % 256] + name[..c] + (if c == |name| then [0] else Wire(name[c + 1..]))
  }

  lemma {:induction false} WireIsEncoded(name: seq<byte>)
    ensures Wire(name) == Encoded(Labels(name))
    decreases |name|
  {
    var c, ls := Cut(name), Labels(name);
    if c < |name| {
      WireIsEncoded(name[c + 1..]);
      assert ls[0] == name[..c] && ls[1..] == Labels(name[c + 1..]);
    } else {
      assert ls[0] == name[..c] && ls[1..] == [];
      assert Encoded([]) == [0];
    }
  }

  /** The encoding takes two bytes more than the name, whatever the name: the buffer that
      `dns_send` allocates is filled exactly. */
  lemma {:induction false} WireLength(name: seq<byte>)
    ensures |Wire(name)| == |name| + 2
    decreases |name|
  {
    var c := Cut(name);
    if c < |name| { WireLength(name[c + 1..]); }
  }

  function Hi(x: nat): byte { x / 256 % 256 }

  function Lo(x: nat): byte { x % 256 }

  /** Identifier, recursion desired, one question. */
  function Header(txid: nat): seq<byte> {
    [Hi(txid), Lo(txid), 1, 0, 0, 1, 0, 0, 0, 0, 0, 0]
  }

  /** Type A or AAAA, class IN. */
  function Question(v6: bool): seq<byte> {
    [0, if v6 then 28 else 1, 0, 1]
  }

  /** `pbuf_take_at` on a buffer of one piece. */
  method Put(buf: array<byte>, at: nat, data: seq<byte>)
    requires at + |data| <= buf.Length
    modifies buf
    ensures buf[..] == old(buf[..])[..at] + data + old(buf[..])[at + |data|..]
  {
    forall i | 0 <= i < |data| {
      buf[at + i] := data[i];
    }
  }

  /** One round: the label that reaches from `h` to `k` goes behind what is written. */
  lemma WireRound(all: seq<byte>, done: seq<byte>, name: seq<byte>, h: nat, k: nat)
    requires h <= k <= |name| && (forall i :: h <= i < k ==> name[i] != DOT) && (k < |name| ==> name[k] == DOT)
    requires all == done + Wire(name[h..])
    ensures all == done + [(k - h) % 256] + name[h..k] + (if k == |name| then [0] else Wire(name[k + 1..]))
  {
    hide Wire;
    var rest := name[h..];
    CutIs(rest, k - h);
    WireUnfold(rest);
    assert rest[..k - h] == name[h..k];
    if k < |name| { assert rest[k - h + 1..] == name[k + 1..]; }
  }

  lemma WireUnfold(name: seq<byte>)
    ensures Wire(name) == [Cut(name) % 256] + name[..Cut(name)] + (if Cut(name) == |name| then [0] else Wire(name[Cut(name) + 1..]))
  {
  }

  /** The inner loop: the end of the label that starts at `part`, and its length in a `u8_t`. */
  method LabelEnd(name: seq<byte>, part: nat) returns (h: nat, n: byte)
    requires part <= |name| <= 255
    ensures part <= h <= |name| && n == h - part
    ensures (forall i :: part <= i < h ==> name[i] != DOT) && (h < |name| ==> name[h] == DOT)
  {
    h, n := part, 0;
    while h < |name| && name[h] != DOT
      invariant part <= h <= |name| && n == h - part
      invariant forall i :: part <= i < h ==> name[i] != DOT
    {
      h := h + 1;
      n := (n + 1) % 256;
    }
  }

  /** The conversion loop of `dns_send`. */
  method PutName(buf: array<byte>, start: nat, name: seq<byte>) returns (at: nat)
    requires |name| <= 255 && start + |name| + 2 <= buf.Length
    modifies buf
    ensures at + 1 == start + |name| + 2
    ensures buf[..at] + [0] == old(buf[..start]) + Wire(name)
  {
    hide Wire, Cut;
    at := start;
    var h: nat := 0;
    ghost var all := buf[..start] + Wire(name);
    WireLength(name);
    assert name[0..] == name;
    while true
      invariant h <= |name| && at <= |all| <= buf.Length
      invariant buf[..at] + Wire(name[h..]) == all
      decreases |name| - h
    {
      var part := h;
      var n;
      h, n := LabelEnd(name, part);
      WireRound(all, buf[..at], name, part, h);
      PutLabel(buf, at, n, name[part..h]);
      at := at + n + 1;
      if h == |name| { break; }
      h := h + 1;
    }
  }

  /** The query that `dns_send` builds. The name has at most 255 bytes because `dns_enqueue` cuts
      it to `DNS_MAX_NAME_LENGTH` - 1. */
  method BuildQuery(txid: nat, name: seq<byte>, v6: bool) returns (buf: array<byte>)
    requires |name| <= 255
    ensures buf[..] == Header(txid) + Encoded(Labels(name)) + Question(v6)
  {
    hide Wire, Cut, Encoded, Labels;
    buf := new byte[12 + |name| + 2 + 4];
    Put(buf, 0, Header(txid));
    WireIsEncoded(name);
    var at := PutName(buf, 12, name);
    Finish(buf, at, Question(v6), Header(txid) + Wire(name));
  }

  method PutLabel(buf: array<byte>, at: nat, n: byte, part: seq<byte>)
    requires at + 1 + |part| <= buf.Length
    modifies buf
    ensures buf[..at + 1 + |part|] == old(buf[..at]) + [n] + part
  {
    Put(buf, at, [n]);
    Put(buf, at + 1, part);
  }

  method Finish(buf: array<byte>, at: nat, question: seq<byte>, ghost all: seq<byte>)
    requires at + 1 + |question| == buf.Length && buf[..at] + [0] == all
    modifies buf
    ensures buf[..] == all + question
  {
    Put(buf, at, [0]);
    Put(buf, at + 1, question);
  }

  // ----------------------------------------------------------------- reading back

  /** `n` bytes of the message from `off` on are those of the query from `q` on, up to case. */
  ghost predicate Matches(query: nat -> byte, q: nat, msg: seq<byte>, off: nat, n: nat) {
    off + n <= |msg| && forall j :: off <= j < off + n ==> Lower(query(q + (j - off))) == Lower(msg[j])
  }

  /** What `dns_compare_name` answers from a label on. */
  ghost function CompareFrom(query: nat -> byte, q: nat, msg: seq<byte>, off: nat): (r: nat)
    decreases |msg| - off
  {
    if off >= |msg| || msg[off] >= 192 || !Matches(query, q, msg, off + 1, msg[off]) then FAIL else
      var e := off + 1 + msg[off];
      if e >= |msg| then FAIL else if msg[e] == 0 then e + 1 else CompareFrom(query, q + msg[off] + 1, msg, e)
  }

  /** What `dns_skip_name` answers from a label on. */
  function SkipFrom(msg: seq<byte>, off: nat): (r: nat)
    decreases |msg| - off
  {
    if off >= |msg| then FAIL
    else if msg[off] >= 192 then (if off + 1 == FAIL then FAIL else off + 2)
    else
      var e := off + 1 + msg[off];
      if e >= |msg| then FAIL else if msg[e] == 0 then e + 1 else SkipFrom(msg, e)
  }

  /** `pbuf_try_get_at`. */
  function TryGet(msg: seq<byte>, off: nat): int {
    if off < |msg| then msg[off] else -1
  }

  /** `dns_compare_name`: `query` is the memory that the name in the table starts, which the code
      may read beyond the end of the name. */
  method CompareName(query: nat -> byte, msg: seq<byte>, start: nat) returns (r: int)
    requires |msg| <= 0xFFFF && start <= 0xFFFF
    ensures r == CompareFrom(query, 0, msg, start)
  {
    var off, q: nat := start, 0;
    while true
      invariant off <= |msg| || off == start
      invariant CompareFrom(query, q, msg, off) == CompareFrom(query, 0, msg, start)
      decreases |msg| - off
    {
      var n := TryGet(msg, off);
      if n < 0 || off == 0xFFFF { return 0xFFFF; }
      ghost var at, q0 := off, q;
      off := off + 1;
      if n >= 192 { return 0xFFFF; }
      while n > 0
        invariant 0 <= n <= msg[at] && off == at + 1 + msg[at] - n && q == q0 + msg[at] - n && off <= |msg|
        invariant Matches(query, q0, msg, at + 1, msg[at] - n)
      {
        var c := TryGet(msg, off);
        if c < 0 { return 0xFFFF; }
        assert query(q) == query(q0 + (off - (at + 1)));
        if Lower(query(q)) != Lower(c) { return 0xFFFF; }
        if off == 0xFFFF { return 0xFFFF; }
        off, q, n := off + 1, q + 1, n - 1;
      }
      q := q + 1;
      n := TryGet(msg, off);
      if n < 0 { return 0xFFFF; }
      if n == 0 { break; }
    }
    if off == 0xFFFF { return 0xFFFF; }
    return off + 1;
  }

  /** `dns_skip_name`. */
  method SkipName(msg: seq<byte>, start: nat) returns (r: int)
    requires |msg| <= 0xFFFF && start <= 0xFFFF
    ensures r == SkipFrom(msg, start)
  {
    var off: nat := start;
    while true
      invariant off <= |msg| || off == start
      invariant SkipFrom(msg, off) == SkipFrom(msg, start)
      decreases |msg| - off
    {
      var n := TryGet(msg, off);
      off := (off + 1) % 0x10000;
      if n < 0 || off == 0 { return 0xFFFF; }
      if n >= 192 { break; }
      if off + n >= |msg| { return 0xFFFF; }
      off := off + n;
      n := TryGet(msg, off);
      if n < 0 { return 0xFFFF; }
      if n == 0 { break; }
    }
    if off == 0xFFFF { return 0xFFFF; }
    return off + 1;
  }

  // ------------------------------------------------------------------- round trip

  /** The names that come back: no label of 192 bytes or more, which would read as a pointer,
      and no empty label but the first, which would read as the end. */
  predicate Readable(labels: seq<seq<byte>>) {
    (forall i :: 0 <= i < |labels| ==> |labels[i]| < 192) && (forall i :: 0 < i < |labels| ==> labels[i] != [])
  }

  predicate At(msg: seq<byte>, off: nat, s: seq<byte>) {
    off + |s| <= |msg| && forall k :: off <= k < off + |s| ==> msg[k] == s[k - off]
  }

  /** The query holds `name` from `q` on, up to case. */
  ghost predicate Asks(query: nat -> byte, q: nat, name: seq<byte>) {
    forall i :: 0 <= i < |name| ==> Lower(query(q + i)) == Lower(name[i])
  }

  /** `Readable`, label by label along the name. */
  predicate Fine(name: seq<byte>) {
    var c := Cut(name);
    c < 192 && (c < |name| ==> Cut(name[c + 1..]) > 0 && Fine(name[c + 1..]))
  }

  lemma LabelsUnfold(name: seq<byte>)
    ensures Labels(name) == if Cut(name) == |name| then [name] else [name[..Cut(name)]] + Labels(name[Cut(name) + 1..])
  {
    hide Cut;
  }

  lemma LabelsParts(name: seq<byte>)
    ensures var c := Cut(name);
            Labels(name)[0] == name[..c] && Labels(name)[1..] == if c < |name| then Labels(name[c + 1..]) else []
  {
    hide Cut, Labels;
    LabelsUnfold(name);
    if Cut(name) == |name| { assert name[..|name|] == name; }
  }

  lemma ReadableCons(first: seq<byte>, rest: seq<seq<byte>>)
    ensures Readable([first] + rest) <==> |first| < 192 && (rest != [] ==> rest[0] != [] && Readable(rest))
  {
    var ls := [first] + rest;
    assert ls[0] == first;
    assert forall i :: 0 <= i < |rest| ==> rest[i] == ls[i + 1];
    if |first| < 192 && rest != [] && rest[0] != [] && Readable(rest) {
      forall i | 0 <= i < |ls| ensures |ls[i]| < 192 { if i > 0 { assert ls[i] == rest[i - 1]; } }
      forall i | 0 < i < |ls| ensures ls[i] != [] { assert ls[i] == rest[i - 1]; }
    }
  }

  lemma {:induction false} FineIsReadable(name: seq<byte>)
    ensures Fine(name) <==> Readable(Labels(name))
    decreases |name|
  {
    hide Labels, Readable, Cut;
    var c := Cut(name);
    LabelsParts(name);
    var ls := Labels(name);
    assert ls == [ls[0]] + ls[1..];
    ReadableCons(ls[0], ls[1..]);
    if c < |name| {
      FineIsReadable(name[c + 1..]);
      LabelsParts(name[c + 1..]);
    }
  }

  function Tail(name: seq<byte>): seq<byte> {
    if Cut(name) == |name| then [0] else Wire(name[Cut(name) + 1..])
  }

  lemma WireParts(name: seq<byte>)
    requires |name| <= 255
    ensures var w, c := Wire(name), Cut(name);
            && |w| == |name| + 2 && w[0] == c && w[1..1 + c] == name[..c] && w[1 + c..|w|] == Tail(name)
            && w[1 + c] == if c == |name| then 0 else Cut(name[c + 1..])
  {
    hide Cut, Wire;
    WireLength(name);
    WireUnfold(name);
    if Cut(name) < |name| { WireUnfold(name[Cut(name) + 1..]); }
  }

  lemma AtPart(msg: seq<byte>, off: nat, s: seq<byte>, i: nat, j: nat)
    requires At(msg, off, s) && i <= j <= |s|
    ensures At(msg, off + i, s[i..j])
  {
    forall k | off + i <= k < off + j ensures msg[k] == s[i..j][k - (off + i)] {
      assert msg[k] == s[k - off];
    }
  }

  /** Where the parts of an encoded name stand in a message. */
  lemma WireAt(msg: seq<byte>, off: nat, name: seq<byte>)
    requires At(msg, off, Wire(name)) && |name| <= 255
    ensures var c := Cut(name);
            && off + |name| + 2 <= |msg| && msg[off] == c && At(msg, off + 1, name[..c])
            && At(msg, off + 1 + c, Tail(name))
            && msg[off + 1 + c] == if c == |name| then 0 else Cut(name[c + 1..])
  {
    hide Cut, Wire, Tail, At;
    var c, w := Cut(name), Wire(name);
    WireParts(name);
    AtIndex(msg, off, w, 0);
    AtIndex(msg, off, w, 1 + c);
    AtPart(msg, off, w, 1, 1 + c);
    AtPart(msg, off, w, 1 + c, |w|);
  }

  lemma AtIndex(msg: seq<byte>, off: nat, s: seq<byte>, i: nat)
    requires At(msg, off, s) && i < |s|
    ensures off + |s| <= |msg| && msg[off + i] == s[i]
  {
    assert msg[off + i] == s[off + i - off];
  }

  lemma {:induction false} CompareWire(query: nat -> byte, q: nat, name: seq<byte>, msg: seq<byte>, off: nat)
    requires At(msg, off, Wire(name)) && |name| <= 255 && Asks(query, q, name) && |msg| <= 0xFFFF
    ensures var r := CompareFrom(query, q, msg, off);
            (r == off + |name| + 2 && r != FAIL) <==> (Fine(name) && off + |name| + 2 < FAIL)
    decreases |name|
  {
    hide Cut, Wire, At;
    WireAt(msg, off, name);
    var c := Cut(name);
    if c < 192 {
      MatchesLabel(query, q, name, msg, off);
      if c < |name| && Cut(name[c + 1..]) > 0 {
        AsksRest(query, q, name);
        CompareWire(query, q + c + 1, name[c + 1..], msg, off + 1 + c);
      }
    }
  }

  lemma MatchesLabel(query: nat -> byte, q: nat, name: seq<byte>, msg: seq<byte>, off: nat)
    requires Asks(query, q, name) && At(msg, off + 1, name[..Cut(name)])
    ensures Matches(query, q, msg, off + 1, Cut(name))
  {
    hide Cut;
    var c := Cut(name);
    forall j | off + 1 <= j < off + 1 + c ensures Lower(query(q + (j - (off + 1)))) == Lower(msg[j]) {
      var i := j - (off + 1);
      assert msg[j] == name[..c][j - (off + 1)];
      assert Lower(query(q + i)) == Lower(name[i]);
    }
  }

  lemma AsksRest(query: nat -> byte, q: nat, name: seq<byte>)
    requires Asks(query, q, name) && Cut(name) < |name|
    ensures Asks(query, q + Cut(name) + 1, name[Cut(name) + 1..])
  {
    hide Cut;
    var d := Cut(name) + 1;
    forall i | 0 <= i < |name| - d ensures Lower(query(q + d + i)) == Lower(name[d..][i]) {
      assert Lower(query(q + (d + i))) == Lower(name[d + i]);
    }
  }

  lemma {:induction false} SkipWire(name: seq<byte>, msg: seq<byte>, off: nat)
    requires At(msg, off, Wire(name)) && |name| <= 255 && |msg| <= 0xFFFF
    ensures var r := SkipFrom(msg, off);
            (r == off + |name| + 2 && r != FAIL) <==> (Fine(name) && off + |name| + 2 < FAIL)
    decreases |name|
  {
    hide Cut, Wire, At;
    WireAt(msg, off, name);
    var c := Cut(name);
    if c < 192 && c < |name| && Cut(name[c + 1..]) > 0 {
      SkipWire(name[c + 1..], msg, off + 1 + c);
    }
  }

  /** The dots fall in the same places whatever the case, and so do the labels. */
  lemma {:induction false} SameNameSameCut(a: seq<byte>, b: seq<byte>)
    requires SameName(a, b)
    ensures Cut(a) == Cut(b)
  {
    if a != [] {
      assert Lower(a[0]) == Lower(b[0]);
      SameNameSameCut(a[1..], b[1..]);
    }
  }

  lemma {:induction false} SameNameSameFine(a: seq<byte>, b: seq<byte>)
    requires SameName(a, b)
    ensures Fine(a) <==> Fine(b)
    decreases |a|
  {
    hide Cut;
    SameNameSameCut(a, b);
    var c := Cut(a);
    if c < |a| {
      SameNameSameCut(a[c + 1..], b[c + 1..]);
      SameNameSameFine(a[c + 1..], b[c + 1..]);
    }
  }

  /** Round trip: a message that carries what `dns_send` writes for a name, in any case, at an
      offset is taken for that name by `dns_compare_name`, which then answers the offset behind
      it; `dns_skip_name` answers the same offset. Both hold exactly for the names that are
      readable and lie before offset 65533. */
  lemma NameRoundTrip(query: nat -> byte, asked: seq<byte>, name: seq<byte>, msg: seq<byte>, off: nat)
    requires |asked| <= 255 && (forall i :: 0 <= i < |asked| ==> query(i) == asked[i]) && SameName(asked, name)
    requires At(msg, off, Encoded(Labels(name))) && |msg| <= 0xFFFF
    ensures var end := off + |asked| + 2;
            && (CompareFrom(query, 0, msg, off) == end != FAIL <==> Readable(Labels(asked)) && end < FAIL)
            && (SkipFrom(msg, off) == end != FAIL <==> Readable(Labels(asked)) && end < FAIL)
  {
    hide Labels, Encoded, Wire, Fine, Cut, At, Readable, CompareFrom, SkipFrom;
    WireIsEncoded(name);
    FineIsReadable(asked);
    SameNameSameFine(asked, name);
    assert Asks(query, 0, name);
    CompareWire(query, 0, name, msg, off);
    SkipWire(name, msg, off);
  }

  /** In particular for all names of RFC 1035: labels of 1 to 63 bytes. */
  lemma LegalNamesAreReadable(labels: seq<seq<byte>>)
    requires forall i :: 0 <= i < |labels| ==> 0 < |labels[i]| <= 63
    ensures Readable(labels)
  {
  }

  /** A name with a dot at its end does not come back: "a." is written with two zero bytes. */
  lemma TrailingDotDoesNotReturn()
    ensures Wire([97, DOT]) == [1, 97, 0, 0] && SkipFrom([1, 97, 0, 0], 0) == 3 && !Readable(Labels([97, DOT]))
  {
    CutIs([97, DOT], 1);
    CutIs([], 0);
    var rest: seq<byte> := [97, DOT][2..];
    assert rest == [];
    assert Wire([]) == [0, 0];
    WireUnfold([97, DOT]);
    LabelsParts([97, DOT]);
    LabelsParts([]);
    assert Labels([97, DOT])[1] == Labels([97, DOT])[1..][0] == [];
  }

  /** Whatever the message says, a match ends behind a zero byte inside it. */
  lemma {:induction false} CompareEnds(query: nat -> byte, q: nat, msg: seq<byte>, off: nat)
    ensures var r := CompareFrom(query, q, msg, off); r != FAIL ==> off < r <= |msg| && msg[r - 1] == 0
    decreases |msg| - off
  {
    if off < |msg| && off + 1 + msg[off] < |msg| { CompareEnds(query, q + msg[off] + 1, msg, off + 1 + msg[off]); }
  }
}
