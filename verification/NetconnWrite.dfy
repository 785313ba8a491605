/** Writing to a TCP netconn (lwip/src/api/api_msg.c): a write of several vectors that goes on,
    over as many attempts as it takes, until everything is handed to `tcp_write`.

    The TCP layer is the environment: `tcp_write` takes all it is given or nothing, the room in
    the send buffer shrinks by what it takes, and grows only between attempts. It is never short
    of memory for no bytes. */
module NetconnWrite {
  import opened MachineInts

  datatype TcpErr = Ok | Mem | WouldBlock | Route | Other

  /** What `tcp_write` may answer. */
  datatype Outcome = Accepted | Full | Refused

  /** What it answers for `n` bytes: memory is no matter if there are none. */
  function Answer(o: Outcome, n: nat): Outcome {
    if n == 0 && o.Full? then Accepted else o
  }

  function ErrOf(o: Outcome): TcpErr {
    match o
    case Accepted => Ok
    case Full => Mem
    case Refused => Other
  }

  // --------------------------------------------------------------------- cursor

  /** All vectors one after the other. */
  function Concat(vs: seq<seq<byte>>): seq<byte> {
    if vs == [] then [] else Concat(vs[..|vs| - 1]) + vs[|vs| - 1]
  }

  /** Where a write stands: `vector`, `vector_off` and `vector_cnt`, `offset`, and `tcp_sndbuf`. */
  datatype Cursor = Cursor(k: nat, off: nat, cnt: nat, offset: nat, sndbuf: nat)

  /** The cursor is at a place in the vectors, behind `offset` bytes. */
  predicate At(vs: seq<seq<byte>>, c: Cursor) {
    && c.k < |vs| && c.off <= |vs[c.k]| && c.sndbuf <= 0xffff
    && c.offset == |Concat(vs[..c.k])| + c.off
    && (if c.cnt > 0 then c.cnt == |vs| - c.k && (c.off < |vs[c.k]| || c.off == 0)
        else c.k == |vs| - 1 && c.off == |vs[c.k]|)
  }

  /** Bytes that are left of the current vector. */
  function Left(vs: seq<seq<byte>>, c: Cursor): nat
    requires c.k < |vs| && c.off <= |vs[c.k]|
  {
    |vs[c.k]| - c.off
  }

  function Min(a: nat, b: nat): nat { if a < b then a else b }

  /** What one round hands to `tcp_write`. */
  function Amount(vs: seq<seq<byte>>, c: Cursor): (n: nat)
    requires c.k < |vs| && c.off <= |vs[c.k]|
    ensures n <= Left(vs, c) && n <= c.sndbuf
  {
    Min(Min(Left(vs, c), 0xffff), c.sndbuf)
  }

  /** Whether the round wants another one: `diff` is compared as a `u16_t`. */
  predicate WantsMore(vs: seq<seq<byte>>, c: Cursor)
    requires c.k < |vs| && c.off <= |vs[c.k]|
  {
    var diff, len := Left(vs, c), Amount(vs, c);
    (len == 0xffff && diff > 0xffff) || (len == diff % 0x10000 && c.cnt > 1)
  }

  /** The cursor once `tcp_write` has taken the bytes. */
  function Taken(vs: seq<seq<byte>>, c: Cursor): Cursor
    requires c.k < |vs| && c.off <= |vs[c.k]| && c.cnt > 0
  {
    var n := Amount(vs, c);
    var c' := c.(off := c.off + n, offset := c.offset + n, sndbuf := c.sndbuf - n);
    if c'.off < |vs[c.k]| then c'
    else if c.cnt > 1 then c'.(k := c.k + 1, off := 0, cnt := c.cnt - 1)
    else c'.(cnt := 0)
  }

  lemma ConcatNext(vs: seq<seq<byte>>, k: nat)
    requires k < |vs|
    ensures Concat(vs[..k + 1]) == Concat(vs[..k]) + vs[k]
  {
    assert vs[..k + 1][..k] == vs[..k];
  }

  lemma {:induction false} ConcatPrefix(vs: seq<seq<byte>>, k: nat)
    requires k <= |vs|
    ensures Concat(vs[..k]) <= Concat(vs)
    decreases |vs| - k
  {
    if k == |vs| {
      assert vs[..k] == vs;
    } else {
      ConcatNext(vs, k);
      ConcatPrefix(vs, k + 1);
    }
  }

  /** The bytes that are handed over are those that come next in the vectors. */
  lemma TakenIsNext(vs: seq<seq<byte>>, c: Cursor)
    requires At(vs, c) && c.cnt > 0
    ensures At(vs, Taken(vs, c)) && c.offset + Amount(vs, c) <= |Concat(vs)|
    ensures vs[c.k][c.off..c.off + Amount(vs, c)] == Concat(vs)[c.offset..c.offset + Amount(vs, c)]
  {
    hide Concat;
    ConcatNext(vs, c.k);
    ConcatPrefix(vs, c.k + 1);
    SliceOf(Concat(vs), Concat(vs[..c.k]), vs[c.k], c.off, Amount(vs, c));
  }

  lemma SliceOf(all: seq<byte>, a: seq<byte>, v: seq<byte>, off: nat, n: nat)
    requires a + v <= all && off + n <= |v|
    ensures |a| + off + n <= |all| && v[off..off + n] == all[|a| + off..|a| + off + n]
  {
    var x, y := v[off..off + n], all[|a| + off..|a| + off + n];
    forall i | 0 <= i < n ensures x[i] == y[i] {
      assert (a + v)[|a| + off + i] == v[off + i];
    }
  }

  lemma AtBound(vs: seq<seq<byte>>, c: Cursor)
    requires At(vs, c)
    ensures c.offset <= |Concat(vs)| && (c.cnt == 0 ==> c.offset == |Concat(vs)|)
    ensures c.offset == |Concat(vs)| <==> c.cnt == 0 || (Left(vs, c) == 0 && |Concat(vs)| == |Concat(vs[..c.k + 1])|)
  {
    ConcatNext(vs, c.k);
    ConcatPrefix(vs, c.k + 1);
    if c.cnt == 0 { assert vs[..c.k + 1] == vs; }
  }

  // ---------------------------------------------------------------- termination

  /** No vector but the last is longer than a `u16_t` can tell. */
  predicate Small(vs: seq<seq<byte>>) {
    forall i :: 0 <= i < |vs| - 1 ==> |vs[i]| <= 0xffff
  }

  /** Where vector `j` begins in what is written. */
  function StartOf(vs: seq<seq<byte>>, j: nat): nat
    requires j <= |vs|
  {
    |Concat(vs[..j])|
  }

  /** The place `p` is a multiple of 65536 bytes before the end of a vector that is not the last. */
  predicate Wedges(vs: seq<seq<byte>>, p: nat) {
    exists j :: 0 <= j < |vs| - 1 && StartOf(vs, j) <= p < StartOf(vs, j + 1) && (StartOf(vs, j + 1) - p) % 0x10000 == 0
  }

  /** Bytes and vectors that are left. */
  function Rest(vs: seq<seq<byte>>, c: Cursor): nat {
    (if c.offset <= |Concat(vs)| then |Concat(vs)| - c.offset else 0) + c.cnt
  }

  /** The place where the loop goes round without end: nothing fits, and what is left of a long
      vector is a multiple of 65536, so that it looks finished. */
  predicate Stuck(vs: seq<seq<byte>>, c: Cursor) {
    && c.k < |vs| && c.off <= |vs[c.k]| && c.cnt > 1 && c.sndbuf == 0
    && Left(vs, c) > 0 && Left(vs, c) % 0x10000 == 0
  }

  /** A round that wants another one has come nearer to the end, unless it is stuck; and if it is
      stuck, the next round is the same again. Where the room in the send buffer ends does not
      change. */
  lemma RoundProgress(vs: seq<seq<byte>>, c: Cursor)
    requires At(vs, c) && c.cnt > 0
    ensures Rest(vs, c) >= 1
    ensures WantsMore(vs, c) && !Stuck(vs, c) ==> Rest(vs, Taken(vs, c)) < Rest(vs, c) && Taken(vs, c).cnt > 0
    ensures Stuck(vs, c) ==> WantsMore(vs, c) && Taken(vs, c) == c
    ensures Stuck(vs, c) ==> Wedges(vs, c.offset + c.sndbuf)
    ensures Taken(vs, c).offset + Taken(vs, c).sndbuf == c.offset + c.sndbuf
  {
    hide Wedges;
    AtBound(vs, c);
    if Stuck(vs, c) { StuckWedges(vs, c); }
  }

  lemma StuckWedges(vs: seq<seq<byte>>, c: Cursor)
    requires At(vs, c) && Stuck(vs, c)
    ensures Wedges(vs, c.offset + c.sndbuf)
  {
    hide Concat;
    ConcatNext(vs, c.k);
    assert StartOf(vs, c.k) <= c.offset < StartOf(vs, c.k + 1);
  }

  /** `n` rounds in which `tcp_write` takes what it is given; the second result tells whether the
      loop is still going. */
  function Rounds(vs: seq<seq<byte>>, c: Cursor, n: nat): (Cursor, bool)
    decreases n
  {
    if n == 0 then (c, true)
    else if c.k < |vs| && c.off <= |vs[c.k]| && c.cnt > 0 then
      if WantsMore(vs, c) then Rounds(vs, Taken(vs, c), n - 1) else (Taken(vs, c), false)
    else (c, false)
  }

  lemma {:induction false} StartsInOrder(vs: seq<seq<byte>>, i: nat, j: nat)
    requires i <= j <= |vs|
    ensures StartOf(vs, i) <= StartOf(vs, j)
    decreases j - i
  {
    if i < j {
      ConcatNext(vs, j - 1);
      StartsInOrder(vs, i, j - 1);
    }
  }

  /** If the room ends at such a place, every round wants another one. */
  lemma WedgedRound(vs: seq<seq<byte>>, c: Cursor)
    requires At(vs, c) && c.cnt > 0 && Wedges(vs, c.offset + c.sndbuf)
    ensures WantsMore(vs, c) && Taken(vs, c).cnt > 0
  {
    hide Concat;
    var p := c.offset + c.sndbuf;
    var j :| 0 <= j < |vs| - 1 && StartOf(vs, j) <= p < StartOf(vs, j + 1) && (StartOf(vs, j + 1) - p) % 0x10000 == 0;
    ConcatNext(vs, c.k);
    if j < c.k { StartsInOrder(vs, j + 1, c.k); }
    if c.k < j { StartsInOrder(vs, c.k + 1, j); }
  }

  lemma {:induction false} WedgedForever(vs: seq<seq<byte>>, c: Cursor, n: nat)
    requires At(vs, c) && c.cnt > 0 && Wedges(vs, c.offset + c.sndbuf)
    ensures Rounds(vs, c, n).1
    decreases n
  {
    hide Concat, Wedges, WantsMore, Taken;
    if n > 0 {
      WedgedRound(vs, c);
      TakenIsNext(vs, c);
      RoundProgress(vs, c);
      WedgedForever(vs, Taken(vs, c), n - 1);
    }
  }

  lemma {:induction false} OtherwiseEnds(vs: seq<seq<byte>>, c: Cursor)
    requires At(vs, c) && c.cnt > 0 && !Wedges(vs, c.offset + c.sndbuf)
    ensures !Rounds(vs, c, Rest(vs, c)).1
    decreases Rest(vs, c)
  {
    hide Concat, Wedges, Rest;
    RoundProgress(vs, c);
    TakenIsNext(vs, c);
    if WantsMore(vs, c) {
      var c' := Taken(vs, c);
      OtherwiseEnds(vs, c');
      RoundsLonger(vs, c', Rest(vs, c'), Rest(vs, c) - 1);
    }
  }

  lemma {:induction false} RoundsLonger(vs: seq<seq<byte>>, c: Cursor, n: nat, m: nat)
    requires n <= m && !Rounds(vs, c, n).1
    ensures !Rounds(vs, c, m).1
    decreases n
  {
    if n > 0 && c.k < |vs| && c.off <= |vs[c.k]| && c.cnt > 0 && WantsMore(vs, c) {
      RoundsLonger(vs, Taken(vs, c), n - 1, m - 1);
    }
  }

  ghost predicate Ends(vs: seq<seq<byte>>, c: Cursor) {
    exists n: nat :: !Rounds(vs, c, n).1
  }

  lemma AtParts(vs: seq<seq<byte>>, c: Cursor)
    requires At(vs, c)
    ensures c.k < |vs| && c.off <= |vs[c.k]|
  {
  }

  /** The loop of a blocking write ends exactly if the room in the send buffer does not end at a
      place that is a multiple of 65536 bytes before the end of a vector that is not the last. */
  lemma LoopEndsHere(vs: seq<seq<byte>>, c: Cursor)
    requires At(vs, c) && c.cnt > 0
    ensures Ends(vs, c) <==> !Wedges(vs, c.offset + c.sndbuf)
  {
    hide Rounds, Wedges, At, Rest;
    if Wedges(vs, c.offset + c.sndbuf) {
      forall n: nat ensures Rounds(vs, c, n).1 { WedgedForever(vs, c, n); }
    } else {
      OtherwiseEnds(vs, c);
      EndsAt(vs, c, Rest(vs, c));
    }
  }

  lemma SmallNeverWedges(vs: seq<seq<byte>>, p: nat)
    requires Small(vs)
    ensures !Wedges(vs, p)
  {
    hide Concat;
    forall j | 0 <= j < |vs| - 1 ensures StartOf(vs, j + 1) == StartOf(vs, j) + |vs[j]| { ConcatNext(vs, j); }
  }

  /** In particular it ends from every place and with every room exactly if no vector but the last
      is longer than 65535 bytes. */
  lemma LoopEndsIff(vs: seq<seq<byte>>)
    ensures Small(vs) <==> forall c :: At(vs, c) && c.cnt > 0 ==> Ends(vs, c)
  {
    hide Rounds, Ends, Wedges, Concat;
    if Small(vs) {
      forall c | At(vs, c) && c.cnt > 0 ensures Ends(vs, c) {
        SmallNeverWedges(vs, c.offset + c.sndbuf);
        LoopEndsHere(vs, c);
      }
    } else {
      var i :| 0 <= i < |vs| - 1 && |vs[i]| > 0xffff;
      var c := Cursor(i, 0, |vs| - i, |Concat(vs[..i])|, |vs[i]| % 0x10000);
      assert At(vs, c) && c.cnt > 0;
      LongVectorWedges(vs, i);
      LoopEndsHere(vs, c);
    }
  }

  lemma LongVectorWedges(vs: seq<seq<byte>>, i: nat)
    requires i < |vs| - 1 && |vs[i]| > 0xffff
    ensures Wedges(vs, StartOf(vs, i) + |vs[i]| % 0x10000)
  {
    hide Concat;
    ConcatNext(vs, i);
    var p := StartOf(vs, i) + |vs[i]| % 0x10000;
    assert StartOf(vs, i) <= p < StartOf(vs, i + 1);
  }

  lemma EndsAt(vs: seq<seq<byte>>, c: Cursor, n: nat)
    requires !Rounds(vs, c, n).1
    ensures Ends(vs, c)
  {
  }

  // ----------------------------------------------------------------- the netconn

  /** From `start` on, `sent` is the first `offset` bytes of the vectors, which are `len` long. */
  ghost predicate IsPrefix(vs: seq<seq<byte>>, offset: nat, len: nat, sent: seq<byte>, start: nat) {
    start + offset == |sent| && offset <= len == |Concat(vs)| && sent[start..] == Concat(vs)[..offset]
  }

  class Netconn {
    /** What the calls of `tcp_write` answer, in order. */
    const results: nat -> Outcome
    var calls: nat

    var writing: bool             // state is NETCONN_WRITE
    var dontblock: bool
    var vectors: seq<seq<byte>>
    var vector: nat
    var vectorOff: nat
    var vectorCnt: nat
    var offset: nat
    var len: nat
    var sndbuf: nat
    var err: TcpErr

    /** Everything that `tcp_write` has taken, and how much of it before this write. */
    ghost var sent: seq<byte>
    ghost var start: nat

    ghost function Where(): Cursor
      reads this
    {
      Cursor(vector, vectorOff, vectorCnt, offset, sndbuf)
    }

    /** What has been handed over since the write began is the first `offset` bytes of the
        vectors. */
    ghost predicate Handed()
      reads this
    {
      IsPrefix(vectors, offset, len, sent, start)
    }

    ghost predicate Valid()
      reads this
    {
      writing ==> At(vectors, Where()) && vectorCnt > 0 && offset < len && Handed()
    }

    /** What an attempt has done that began with call `first`, at offset `from` and with `room`
        bytes of room. It asks `tcp_write` at least once, unless it does not block and there is no
        room. If all is accepted, everything that fits is handed over, and the write ends exactly
        if that is all or it does not block. It goes on only if there is no room left or there was
        no memory; and it ends with the error that says why. */
    ghost predicate Moved(first: nat, from: nat, room: nat, noRoute: bool)
      reads this
    {
      && first <= calls && (calls == first ==> dontblock && room == 0)
      && ((forall k :: first <= k < calls ==> results(k).Accepted?) ==>
            offset == (if from + room < len then from + room else len) && (!writing <==> offset == len || dontblock || noRoute))
      && (writing ==> sndbuf == 0 || (calls > first && results(calls - 1).Full?))
      && (!writing ==> (err.Other? <==> calls > first && results(calls - 1).Refused?))
      && (!writing && !noRoute && !err.Other? ==> err == if offset == 0 then WouldBlock else Ok)
    }

    constructor (results: nat -> Outcome, sndbuf: nat)
      ensures Valid() && !writing && sent == []
    {
      this.results := results;
      calls, writing, this.sndbuf, sent := 0, false, sndbuf, [];
    }

    /** One call of `tcp_write` and what follows it, for `n` bytes. */
    method Hand(n: nat) returns (e: TcpErr)
      requires At(vectors, Where()) && vectorCnt > 0 && Handed() && n == Amount(vectors, Where())
      modifies this`calls, this`sent, this`sndbuf, this`offset, this`vectorOff, this`vector, this`vectorCnt
      ensures e == ErrOf(Answer(results(old(calls)), n)) && calls == old(calls) + 1 && Handed() && At(vectors, Where())
      ensures Where() == if e.Ok? then Taken(vectors, old(Where())) else old(Where())
      ensures old(sent) <= sent
    {
      hide Concat, Amount, IsPrefix;
      TakenIsNext(vectors, Where());
      e := ErrOf(Answer(results(calls), n));
      calls := calls + 1;
      if e.Ok? {
        sent := sent + vectors[vector][vectorOff..vectorOff + n];
        PrefixGrows(vectors, Where(), len, old(sent), start);
        sndbuf := sndbuf - n;
        offset := offset + n;
        vectorOff := vectorOff + n;
        if vectorOff == |vectors[vector]| {
          vectorCnt := vectorCnt - 1;
          if vectorCnt > 0 {
            vector := vector + 1;
            vectorOff := 0;
          }
        }
      }
    }

    /** One round of the loop of `lwip_netconn_do_writemore`. */
    method Round() returns (e: TcpErr, more: bool)
      requires At(vectors, Where()) && vectorCnt > 0 && Handed() && len > 0
      modifies this`calls, this`sent, this`sndbuf, this`offset, this`vectorOff, this`vector, this`vectorCnt
      ensures Handed() && At(vectors, Where()) && old(sent) <= sent && old(calls) <= calls <= old(calls) + 1
      ensures more ==> vectorCnt > 0 && e.Ok? && calls == old(calls) + 1 && !results(old(calls)).Refused?
      ensures offset + sndbuf == old(offset + sndbuf) && (e.Mem? ==> offset < len)
      ensures more && (dontblock || !Wedges(vectors, offset + sndbuf)) ==> Rest(vectors, Where()) < Rest(vectors, old(Where()))
      ensures (vectorCnt == 0 ==> e.Ok?) && !e.Route?
      ensures !more && dontblock && e.Ok? ==> offset > 0
      ensures calls == old(calls) ==> dontblock && sndbuf == 0 && Where() == old(Where()) && e == if offset == 0 then WouldBlock else Ok
      ensures !more && e.Ok? ==> sndbuf == 0 || offset == len
      ensures calls > old(calls) ==> e == ErrOf(Answer(results(old(calls)), old(Amount(vectors, Where()))))
    {
      hide Concat, Amount, WantsMore, Taken, Rest, IsPrefix, At, Wedges;
      ghost var c := Where();
      AtParts(vectors, c);
      var diff := |vectors[vector]| - vectorOff;
      var n := if diff > 0xffff then 0xffff else diff;
      var available := sndbuf;
      if available < n {
        n := available;
        if dontblock && n == 0 {
          e := if offset == 0 then WouldBlock else Ok;
          return e, false;
        }
      }
      AmountIs(vectors, c, n);
      RoundProgress(vectors, c);
      TakenIsNext(vectors, c);
      ConcatLength(vectors, offset, len, sent, start);
      LastRound(vectors, c);
      more := (n == 0xffff && diff > 0xffff) || (n == diff % 0x10000 && vectorCnt > 1);
      e := Hand(n);
      more := more && e.Ok?;
    }

    /** The loop of `lwip_netconn_do_writemore`. It may go round for ever only if the write blocks,
        the room ends at a place where it wedges, and `tcp_write` never refuses. */
    method WriteLoop() returns (e: TcpErr)
      requires Valid() && writing
      requires dontblock || !Wedges(vectors, offset + sndbuf) || exists n :: calls <= n && results(n).Refused?
      modifies this`calls, this`sent, this`sndbuf, this`offset, this`vectorOff, this`vector, this`vectorCnt
      ensures Handed() && At(vectors, Where()) && old(sent) <= sent
      ensures (vectorCnt == 0 ==> e.Ok?) && !e.Route? && (e.Mem? ==> offset < len)
      ensures dontblock && e.Ok? ==> offset > 0
      ensures e.WouldBlock? ==> dontblock && offset == 0
      ensures e.Ok? || e.WouldBlock? ==> offset == Min(len, old(offset + sndbuf))
      ensures e.Ok? ==> sndbuf == 0 || offset == len
      ensures old(calls) <= calls && (calls == old(calls) ==> dontblock && old(sndbuf) == 0)
      ensures e.Mem? ==> calls > old(calls) && results(calls - 1).Full?
      ensures e.Other? <==> calls > old(calls) && results(calls - 1).Refused?
    {
      hide Concat, Rest, IsPrefix, Wedges, At, Amount;
      ConcatLength(vectors, offset, len, sent, start);
      ghost var bounded := dontblock || !Wedges(vectors, offset + sndbuf);
      ghost var last: nat := calls;
      if !bounded { last :| calls <= last && results(last).Refused?; }
      var more := true;
      e := Ok;
      while more
        invariant Handed() && At(vectors, Where()) && (more ==> vectorCnt > 0) && old(sent) <= sent
        invariant more ==> bounded || (calls <= last && results(last).Refused?)
        invariant offset + sndbuf == old(offset + sndbuf) && offset <= len
        invariant old(calls) <= calls && (calls == old(calls) && !more ==> dontblock && sndbuf == old(sndbuf) == 0)
        invariant calls == old(calls) ==> sndbuf == old(sndbuf) && offset == old(offset)
        invariant more && calls > old(calls) ==> !results(calls - 1).Refused?
        invariant !more && (e.Ok? || e.WouldBlock?) ==> sndbuf == 0 || offset == len
        invariant !more && e.Mem? ==> calls > old(calls) && results(calls - 1).Full?
        invariant !more ==> (e.Other? <==> calls > old(calls) && results(calls - 1).Refused?)
        invariant !more ==> (vectorCnt == 0 ==> e.Ok?) && (e.Mem? ==> offset < len) && (dontblock && e.Ok? ==> offset > 0) && !e.Route?
        invariant !more && e.WouldBlock? ==> dontblock && offset == 0
        decreases more, if bounded then 0 else last - calls, Rest(vectors, Where())
      {
        e, more := Round();
        ConcatLength(vectors, offset, len, sent, start);
      }
    }

    /** `lwip_netconn_do_writemore`; `noRoute` tells whether `tcp_output` finds no route. The
        answer is `Mem` as long as the write is not finished. */
    method WriteMore(noRoute: bool) returns (r: TcpErr)
      requires Valid() && writing
      requires dontblock || !Wedges(vectors, offset + sndbuf) || exists n :: calls <= n && results(n).Refused?
      modifies this`calls, this`sent, this`sndbuf, this`offset, this`vectorOff, this`vector, this`vectorCnt,
               this`writing, this`err
      ensures Valid() && Handed() && old(sent) <= sent
      ensures r == if writing then Mem else Ok
      ensures writing ==> !dontblock && offset < len && vectorCnt > 0
      ensures !writing && err.Ok? && !dontblock ==> sent == sent[..start] + Concat(vectors)
      ensures !writing && err.Ok? && dontblock ==> 0 < offset <= len
      ensures !writing && err.WouldBlock? ==> dontblock && sent == sent[..start]
      ensures !writing ==> !err.Mem? && (err.Route? ==> noRoute)
      ensures noRoute ==> !writing && !err.Ok?
      ensures Moved(old(calls), old(offset), old(sndbuf), noRoute)
    {
      hide Concat, IsPrefix, At, Wedges;
      var e := WriteLoop();
      ConcatLength(vectors, offset, len, sent, start);
      PlaceLeft(vectors, Where());
      var finished := false;
      if e.Ok? {
        if offset == len || dontblock { finished := true; }
        if noRoute {
          e := Route;
          finished := true;
        }
      } else if e.Mem? {
        if noRoute {
          e := Route;
          finished := true;
        } else if dontblock {
          e := if offset == 0 then WouldBlock else Ok;
          finished := true;
        }
      } else {
        finished := true;
      }
      if finished {
        err := e;
        writing := false;
        if offset == len { PrefixAll(vectors, offset, len, sent, start); }
        NothingSent(vectors, offset, len, sent, start);
        return Ok;
      }
      return Mem;
    }

    /** `lwip_netconn_do_write` for a connected netconn; the sum of the vectors is at most
        `SSIZE_MAX`, which is left open here. */
    method DoWrite(vectors: seq<seq<byte>>, dontblock: bool, noRoute: bool) returns (r: TcpErr)
      requires Valid() && |Concat(vectors)| > 0 && sndbuf <= 0xffff
      requires dontblock || !Wedges(vectors, sndbuf) || exists n :: calls <= n && results(n).Refused?
      modifies this
      ensures Valid() && old(sent) <= sent
      ensures old(writing) ==> r.Other? && sent == old(sent) && writing
      ensures !old(writing) ==> start == |old(sent)| && this.vectors == vectors && Handed() && r == if writing then Mem else Ok
      ensures !old(writing) && !writing && err.Ok? && !dontblock ==> sent == old(sent) + Concat(vectors)
      ensures !old(writing) ==> Moved(old(calls), 0, old(sndbuf), noRoute) && len == |Concat(vectors)| && this.dontblock == dontblock
    {
      hide Concat, IsPrefix, At, Wedges, Moved;
      if writing { return Other; }
      writing := true;
      this.vectors, this.dontblock := vectors, dontblock;
      vector, vectorOff, vectorCnt, offset := 0, 0, |vectors|, 0;
      len := TotalLength(vectors);
      start := |sent|;
      FirstPlace(vectors, sndbuf);
      NoneYet(vectors, len, sent);
      r := WriteMore(noRoute);
      assert sent[..start] == old(sent);
    }

    /** `sent_tcp` and `poll_tcp`: room has come up in the send buffer, or may have. */
    method Resume(room: nat, noRoute: bool)
      requires Valid() && room <= 0xffff
      requires writing ==>
                 dontblock || !Wedges(vectors, offset + room) || exists n :: calls <= n && results(n).Refused?
      modifies this
      ensures Valid() && old(sent) <= sent && start == old(start) && vectors == old(vectors)
      ensures !old(writing) ==> !writing && sent == old(sent)
      ensures old(writing) ==> Handed()
      ensures old(writing) && !writing && err.Ok? && !dontblock ==> sent == sent[..start] + Concat(vectors)
      ensures old(writing) ==> Moved(old(calls), old(offset), room, noRoute) && len == old(len) && dontblock == old(dontblock)
    {
      hide Concat, IsPrefix, Wedges, Moved;
      sndbuf := room;
      if writing { var _ := WriteMore(noRoute); }
    }
  }

  /** Everything is handed over once `offset` has come to `len`. */
  lemma PrefixAll(vs: seq<seq<byte>>, offset: nat, len: nat, sent: seq<byte>, start: nat)
    requires IsPrefix(vs, offset, len, sent, start) && offset == len
    ensures sent == sent[..start] + Concat(vs)
  {
    assert Concat(vs)[..offset] == Concat(vs);
  }

  lemma NothingSent(vs: seq<seq<byte>>, offset: nat, len: nat, sent: seq<byte>, start: nat)
    requires IsPrefix(vs, offset, len, sent, start)
    ensures offset == 0 ==> sent == sent[..start]
  {
  }

  lemma NoneYet(vs: seq<seq<byte>>, len: nat, sent: seq<byte>)
    requires len == |Concat(vs)|
    ensures IsPrefix(vs, 0, len, sent, |sent|)
  {
  }

  lemma FirstPlace(vs: seq<seq<byte>>, sndbuf: nat)
    requires |Concat(vs)| > 0 && sndbuf <= 0xffff
    ensures vs != [] && At(vs, Cursor(0, 0, |vs|, 0, sndbuf))
  {
  }

  lemma PlaceLeft(vs: seq<seq<byte>>, c: Cursor)
    requires At(vs, c)
    ensures c.offset < |Concat(vs)| ==> c.cnt > 0
  {
    AtBound(vs, c);
  }

  /** The sum of the lengths, as `netconn_write_vectors_partly` forms it. */
  method TotalLength(vs: seq<seq<byte>>) returns (n: nat)
    ensures n == |Concat(vs)|
  {
    n := 0;
    for i := 0 to |vs|
      invariant n == |Concat(vs[..i])|
    {
      ConcatNext(vs, i);
      n := n + |vs[i]|;
    }
    assert vs[..|vs|] == vs;
  }

  lemma PrefixGrows(vs: seq<seq<byte>>, c: Cursor, len: nat, sent: seq<byte>, start: nat)
    requires At(vs, c) && c.cnt > 0 && IsPrefix(vs, c.offset, len, sent, start)
    ensures var n := Amount(vs, c); IsPrefix(vs, c.offset + n, len, sent + vs[c.k][c.off..c.off + n], start)
  {
    hide Concat, Amount;
    TakenIsNext(vs, c);
    var n, all := Amount(vs, c), Concat(vs);
    assert all[..c.offset + n] == all[..c.offset] + all[c.offset..c.offset + n];
    assert (sent + all[c.offset..c.offset + n])[start..] == sent[start..] + all[c.offset..c.offset + n];
  }

  lemma ConcatLength(vs: seq<seq<byte>>, offset: nat, len: nat, sent: seq<byte>, start: nat)
    requires IsPrefix(vs, offset, len, sent, start)
    ensures len == |Concat(vs)| && offset <= len
  {
  }

  lemma AmountIs(vs: seq<seq<byte>>, c: Cursor, n: nat)
    requires c.k < |vs| && c.off <= |vs[c.k]|
    requires n == Min(if Left(vs, c) > 0xffff then 0xffff else Left(vs, c), c.sndbuf)
    ensures n == Amount(vs, c)
    ensures WantsMore(vs, c) <==> (n == 0xffff && Left(vs, c) > 0xffff) || (n == Left(vs, c) % 0x10000 && c.cnt > 1)
  {
  }

  /** A round that does not want another one has handed over something, or all. */
  lemma LastRound(vs: seq<seq<byte>>, c: Cursor)
    requires At(vs, c) && c.cnt > 0 && |Concat(vs)| > 0
    ensures (c.sndbuf > 0 || Left(vs, c) == 0) && !WantsMore(vs, c) ==> Taken(vs, c).offset > 0
    ensures !WantsMore(vs, c) ==> Taken(vs, c).sndbuf == 0 || Taken(vs, c).offset == |Concat(vs)|
    ensures Taken(vs, c).offset >= c.offset
  {
    hide Concat;
    TakenIsNext(vs, c);
    AtBound(vs, c);
    AtBound(vs, Taken(vs, c));
  }
}
