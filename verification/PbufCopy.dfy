/** Copying one chain of packet buffers into another that is cut differently (`pbuf_copy`). */
module PbufCopy {
  import opened PbufStore
  import opened PbufLinking
  import opened PbufPool
  import opened PbufContents
  import opened PbufCopyable

  // ------------------------------------------------------------------ the copy loop

  ghost function Lens(mem: Mem, c: seq<nat>): seq<nat> {
    seq(|c|, i requires 0 <= i < |c| => if c[i] in mem then |mem[c[i]].data| else 0)
  }

  lemma {:induction false} SumLens(mem: Mem, c: seq<nat>)
    ensures Sum(Lens(mem, c)) == |Flat(mem, c)|
  {
    if c != [] {
      assert Lens(mem, c)[1..] == Lens(mem, c[1..]);
      SumLens(mem, c[1..]);
    }
  }

  lemma LensTail(mem: Mem, c: seq<nat>, i: nat)
    requires i < |c| && c[i] in mem
    ensures Lens(mem, c[i..])[1..] == Lens(mem, c[i + 1..]) && Lens(mem, c[i..])[0] == |mem[c[i]].data|
  {
    assert c[i..][1..] == c[i + 1..];
  }

  /** Where the copy stands: the `i`-th source and the `j`-th target pbuf, `a` and `b` bytes
      into them; `c` and `d` are the two chains, `m0` the memory at the start. */
  ghost predicate CopyAt(m0: Mem, m: Mem, chains: Chains, from: nat, to: nat, i: nat, a: nat, j: nat, b: nat) {
    && Wf(m0, chains) && from in m0 && to in m0
    && var c, d := ChainOf(m0, chains, from), ChainOf(m0, chains, to);
    && SameShape(m0, m, d) && (forall x :: x in d ==> x !in c)
    && i <= |c| && j <= |d|
    && (i < |c| ==> c[i] in m0 && a <= |m0[c[i]].data|) && (i == |c| ==> a == 0)
    && (j < |d| ==> d[j] in m0 && b <= |m0[d[j]].data|) && (j == |d| ==> b == 0)
    && |Flat(m0, c[..i])| + a == |Flat(m0, d[..j])| + b <= |Flat(m0, c)| <= |Flat(m0, d)|
    && Flat(m, d) == Overwrite(Flat(m0, d), 0, Flat(m0, c)[..|Flat(m0, c[..i])| + a])
  }

  lemma CopyStart(m0: Mem, chains: Chains, from: nat, to: nat)
    requires Wf(m0, chains) && from in m0 && to in m0
    requires forall x :: x in ChainOf(m0, chains, to) ==> x !in ChainOf(m0, chains, from)
    requires |Bytes(m0, chains, from)| <= |Bytes(m0, chains, to)|
    ensures CopyAt(m0, m0, chains, from, to, 0, 0, 0, 0)
    ensures |ChainOf(m0, chains, from)| > 0 && ChainOf(m0, chains, from)[0] == from
    ensures |ChainOf(m0, chains, to)| > 0 && ChainOf(m0, chains, to)[0] == to
  {
    hide Wf;
    BytesNull(m0, chains);
    DropStart(m0, chains, from);
    DropStart(m0, chains, to);
    var c, d := ChainOf(m0, chains, from), ChainOf(m0, chains, to);
    assert c[..0] == [] && d[..0] == [];
    FillStart(m0, d, 0);
    assert Flat(m0, c)[..0] == [];
  }

  /** `m` with `n` bytes of `src` from `a` on copied to `dst` at `b`. */
  function Transfer(m: Mem, src: nat, a: nat, dst: nat, b: nat, n: nat): Mem {
    if src in m && dst in m && a + n <= |m[src].data| && b + n <= |m[dst].data|
    then Written(m, dst, b, m[src].data[a..a + n]) else m
  }

  /** `n` more bytes are copied within the current pbufs. */
  lemma CopyWrite(m0: Mem, m: Mem, chains: Chains, held: map<nat, nat>,
                  from: nat, to: nat, i: nat, a: nat, j: nat, b: nat, n: nat)
    requires CopyAt(m0, m, chains, from, to, i, a, j, b) && Wf(m, chains) && Counted(m, held, NULL) && Sized(m) && Totals(m)
    requires var c, d := ChainOf(m0, chains, from), ChainOf(m0, chains, to);
             i < |c| && j < |d| && a + n <= |m0[c[i]].data| && b + n <= |m0[d[j]].data|
    ensures var c, d := ChainOf(m0, chains, from), ChainOf(m0, chains, to);
            && c[i] in m && d[j] in m && m[c[i]] == m0[c[i]] && |m[d[j]].data| == |m0[d[j]].data|
            && var m' := Transfer(m, c[i], a, d[j], b, n);
            && CopyAt(m0, m', chains, from, to, i, a + n, j, b + n)
            && Wf(m', chains) && Counted(m', held, NULL) && Sized(m') && Totals(m')
  {
    hide Wf, Flat, ChainOf, Counted, Totals, Sized, Overwrite, SameShape, Written;
    var c, d := ChainOf(m0, chains, from), ChainOf(m0, chains, to);
    CopyTargets(m0, m, chains, from, to, i, j);
    var part := m[c[i]].data[a..a + n];
    var m' := Written(m, d[j], b, part);
    WriteFlat(m, chains, to, j, b, part);
    ShapeKeeps(m, m', chains, held, d);
    ShapeStep(m0, m, m', d);
    SameLength(m0, m, d[..j]);
    SkipStep(m0, c, i);
    SkipEnd(m0, c, i + 1);
    var at := |Flat(m0, c[..i])| + a;
    assert Flat(m0, c)[..at] + part == Flat(m0, c)[..at + n];
    SkipStep(m0, d, j);
    SkipEnd(m0, d, j + 1);
    OverwriteMore(Flat(m0, d), 0, Flat(m0, c)[..at], part);
  }

  lemma CopyTargets(m0: Mem, m: Mem, chains: Chains, from: nat, to: nat, i: nat, j: nat)
    requires Wf(m0, chains) && from in m0 && to in m0
    requires var c, d := ChainOf(m0, chains, from), ChainOf(m0, chains, to);
             SameShape(m0, m, d) && (forall x :: x in d ==> x !in c) && i < |c| && j < |d|
    ensures var c, d := ChainOf(m0, chains, from), ChainOf(m0, chains, to);
            && c[i] in m && c[i] in m0 && d[j] in m && d[j] in m0 && m[c[i]] == m0[c[i]]
            && |m[d[j]].data| == |m0[d[j]].data| && ChainOf(m, chains, to) == d && to in m
            && (forall x :: x in d ==> x in m0 && x in m && |m[x].data| == |m0[x].data|)
  {
    hide Wf;
    DropStart(m0, chains, from);
    DropStart(m0, chains, to);
    var c, d := ChainOf(m0, chains, from), ChainOf(m0, chains, to);
    assert c[i] !in d;
  }

  lemma AdvanceFrom(m0: Mem, m: Mem, chains: Chains, from: nat, to: nat, i: nat, j: nat, b: nat)
    requires var c := ChainOf(m0, chains, from);
             i < |c| && c[i] in m0 && CopyAt(m0, m, chains, from, to, i, |m0[c[i]].data|, j, b)
    ensures CopyAt(m0, m, chains, from, to, i + 1, 0, j, b)
  {
    hide Wf, Flat, Overwrite, SameShape;
    DropStart(m0, chains, from);
    SkipStep(m0, ChainOf(m0, chains, from), i);
  }

  lemma AdvanceTo(m0: Mem, m: Mem, chains: Chains, from: nat, to: nat, i: nat, a: nat, j: nat)
    requires var d := ChainOf(m0, chains, to);
             j < |d| && d[j] in m0 && CopyAt(m0, m, chains, from, to, i, a, j, |m0[d[j]].data|)
    ensures CopyAt(m0, m, chains, from, to, i, a, j + 1, 0)
  {
    hide Wf, Flat, Overwrite, SameShape;
    DropStart(m0, chains, to);
    SkipStep(m0, ChainOf(m0, chains, to), j);
  }

  /** The test for a packet queue: the total says that nothing follows, yet a pbuf follows. */
  lemma QueueTest(m: Mem, m0: Mem, chains: Chains, start: nat, i: nat)
    requires Wf(m, chains) && Totals(m) && start in m && i < |ChainOf(m, chains, start)|
    requires |Bytes(m, chains, start)| <= 0xffff && m0.Keys == m.Keys
    requires forall x :: x in m ==> |m0[x].data| == |m[x].data|
    ensures var c := ChainOf(m, chains, start);
            && c[i] in m
            && (|m[c[i]].data| == m[c[i]].totLen && m[c[i]].next != NULL <==>
                |Lens(m0, c[i..])| > 1 && Sum(Lens(m0, c[i..])[1..]) == 0)
  {
    hide Wf, Totals, Flat, Sum;
    DropStart(m, chains, start);
    var c := ChainOf(m, chains, start);
    ChainAt(m, chains, start, i);
    TotalIsLength(m, chains, c[i]);
    SkipEnd(m, c, i);
    LensTail(m0, c, i);
    SumLens(m, c[i + 1..]);
    assert Lens(m0, c[i + 1..]) == Lens(m, c[i + 1..]);
    BytesStep(m, chains, c[i]);
    assert c[i..][1..] == c[i + 1..];
  }

  /** One round of the loop of `pbuf_copy` as `Outcome` sees it. */
  lemma OutcomeStep(m0: Mem, c: seq<nat>, d: seq<nat>, i: nat, a: nat, j: nat, b: nat, n: nat)
    requires i < |c| && j < |d| && c[i] in m0 && d[j] in m0 && a <= |m0[c[i]].data| && b <= |m0[d[j]].data|
    requires n == if |m0[d[j]].data| - b >= |m0[c[i]].data| - a then |m0[c[i]].data| - a else |m0[d[j]].data| - b
    ensures var i' := if a + n >= |m0[c[i]].data| then i + 1 else i;
            var a' := if a + n >= |m0[c[i]].data| then 0 else a + n;
            var j' := if b + n == |m0[d[j]].data| then j + 1 else j;
            var b' := if b + n == |m0[d[j]].data| then 0 else b + n;
            var f', t' := Lens(m0, c[i'..]), Lens(m0, d[j'..]);
            Outcome(Lens(m0, c[i..]), Lens(m0, d[j..]), a, b) ==
              if t' == [] && f' != [] then ErrArg
              else if |f'| > 1 && Sum(f'[1..]) == 0 then ErrVal
              else if |t'| > 1 && Sum(t'[1..]) == 0 then ErrVal
              else if f' == [] then Ok
              else Outcome(f', t', a', b')
  {
    hide Sum;
    LensTail(m0, c, i);
    LensTail(m0, d, j);
  }

  /** What remains to be done from a state of the copy on. */
  ghost function RestResult(m0: Mem, c: seq<nat>, d: seq<nat>, i: nat, a: nat, j: nat, b: nat): Err {
    if i < |c| && j < |d| && c[i] in m0 && d[j] in m0 && a <= |m0[c[i]].data| && b <= |m0[d[j]].data|
    then Outcome(Lens(m0, c[i..]), Lens(m0, d[j..]), a, b) else Ok
  }

  /** The outcome for two whole chains. */
  ghost function CopyResult(m0: Mem, chains: Chains, from: nat, to: nat): Err {
    RestResult(m0, ChainOf(m0, chains, from), ChainOf(m0, chains, to), 0, 0, 0, 0)
  }

  /** Whether the chain `from` is copied into the chain `to`, by the lengths of their pbufs. */
  ghost predicate Copyable(m0: Mem, chains: Chains, from: nat, to: nat) {
    Copies(Lens(m0, ChainOf(m0, chains, from)), Lens(m0, ChainOf(m0, chains, to)))
  }

  lemma CopyableIs(m0: Mem, chains: Chains, from: nat, to: nat)
    requires Wf(m0, chains) && from in m0 && to in m0
    requires |Bytes(m0, chains, from)| <= |Bytes(m0, chains, to)|
    ensures CopyResult(m0, chains, from, to) == Ok <==> Copyable(m0, chains, from, to)
  {
    hide Wf, Outcome, Copies, Flat;
    var c, d := ChainOf(m0, chains, from), ChainOf(m0, chains, to);
    WfParts(m0, chains);
    DropStart(m0, chains, from);
    DropStart(m0, chains, to);
    SumLens(m0, c);
    SumLens(m0, d);
    assert c[0..] == c && d[0..] == d;
    LensEmpty(m0, c, 0);
    LensEmpty(m0, d, 0);
    CopiesIff(Lens(m0, c), Lens(m0, d));
  }

  ghost predicate LooksLikeQueue(m: Mem, p: nat) {
    p in m && |m[p].data| == m[p].totLen && m[p].next != NULL
  }

  /** The bytes moved in one round. */
  ghost function RoundSize(m0: Mem, p: nat, a: nat, q: nat, b: nat): int
    requires p in m0 && q in m0
  {
    if |m0[q].data| - b >= |m0[p].data| - a then |m0[p].data| - a else |m0[q].data| - b
  }

  /** The memory parts of one round: bytes are moved and the cursors advance. */
  lemma CopyRoundState(m0: Mem, m: Mem, chains: Chains, held: map<nat, nat>,
                       from: nat, to: nat, i: nat, a: nat, j: nat, b: nat)
    returns (m': Mem, i': nat, a': nat, j': nat, b': nat)
    requires CopyAt(m0, m, chains, from, to, i, a, j, b) && Wf(m, chains) && Counted(m, held, NULL) && Sized(m) && Totals(m)
    requires i < |ChainOf(m0, chains, from)| && j < |ChainOf(m0, chains, to)|
    ensures var c, d := ChainOf(m0, chains, from), ChainOf(m0, chains, to);
            && c[i] in m0 && d[j] in m0 && c[i] in m && d[j] in m && a <= |m0[c[i]].data| && b <= |m0[d[j]].data|
            && |m[c[i]].data| == |m0[c[i]].data| && |m[d[j]].data| == |m0[d[j]].data|
            && var n := RoundSize(m0, c[i], a, d[j], b);
            && 0 <= n && m' == Transfer(m, c[i], a, d[j], b, n)
            && i' == (if a + n >= |m0[c[i]].data| then i + 1 else i) && a' == (if a + n >= |m0[c[i]].data| then 0 else a + n)
            && j' == (if b + n == |m0[d[j]].data| then j + 1 else j) && b' == (if b + n == |m0[d[j]].data| then 0 else b + n)
    ensures CopyAt(m0, m', chains, from, to, i', a', j', b')
    ensures Wf(m', chains) && Counted(m', held, NULL) && Sized(m') && Totals(m')
  {
    hide Wf, Flat, ChainOf, Counted, Totals, Sized, Overwrite, SameShape, Transfer;
    var c, d := ChainOf(m0, chains, from), ChainOf(m0, chains, to);
    CopyTargets(m0, m, chains, from, to, i, j);
    var n := RoundSize(m0, c[i], a, d[j], b);
    CopyWrite(m0, m, chains, held, from, to, i, a, j, b, n);
    m', i', a', j', b' := Transfer(m, c[i], a, d[j], b, n), i, a + n, j, b + n;
    if a' >= |m0[c[i]].data| {
      AdvanceFrom(m0, m', chains, from, to, i', j', b');
      i', a' := i' + 1, 0;
    }
    if b' == |m0[d[j]].data| {
      AdvanceTo(m0, m', chains, from, to, i', a', j');
      j', b' := j' + 1, 0;
    }
  }

  /** The `k`-th pbuf of a chain keeps its length and its link during the copy. */
  ghost predicate FieldAt(m0: Mem, m': Mem, c: seq<nat>, k: nat)
    requires k < |c|
  {
    && c[k] in m' && c[k] in m0 && c[k] != NULL && |m'[c[k]].data| == |m0[c[k]].data|
    && m'[c[k]].next == (if k + 1 < |c| then c[k + 1] else NULL)
  }

  /** The fields that the round looks at afterwards. */
  lemma RoundFields(m0: Mem, m': Mem, chains: Chains, from: nat, to: nat, i: nat, a: nat, j: nat, b: nat)
    requires CopyAt(m0, m', chains, from, to, i, a, j, b) && Wf(m', chains) && Totals(m')
    requires |Bytes(m0, chains, to)| <= 0xffff && |Bytes(m0, chains, from)| <= 0xffff
    ensures var c, d := ChainOf(m0, chains, from), ChainOf(m0, chains, to);
            && (forall k :: 0 <= k < |c| ==> FieldAt(m0, m', c, k))
            && (forall k :: 0 <= k < |d| ==> FieldAt(m0, m', d, k))
            && (i < |c| ==> (LooksLikeQueue(m', c[i]) <==> |Lens(m0, c[i..])| > 1 && Sum(Lens(m0, c[i..])[1..]) == 0))
            && (j < |d| ==> (LooksLikeQueue(m', d[j]) <==> |Lens(m0, d[j..])| > 1 && Sum(Lens(m0, d[j..])[1..]) == 0))
  {
    hide Wf, Totals, Flat, Sum, Overwrite, Lens;
    DropStart(m0, chains, from);
    DropStart(m0, chains, to);
    var c, d := ChainOf(m0, chains, from), ChainOf(m0, chains, to);
    ShapeChain(m0, m', chains, from, d, from);
    ShapeChain(m0, m', chains, to, d, to);
    SameLength(m0, m', c);
    SameLength(m0, m', d);
    forall k | 0 <= k < |c| ensures FieldAt(m0, m', c, k) {
      ChainAt(m0, chains, from, k);
    }
    forall k | 0 <= k < |d| ensures FieldAt(m0, m', d, k) {
      ChainAt(m0, chains, to, k);
    }
    if i < |c| { QueueTest(m', m0, chains, from, i); }
    if j < |d| { QueueTest(m', m0, chains, to, j); }
  }

  /** One round of the loop of `pbuf_copy`. */
  lemma CopyRound(m0: Mem, m: Mem, chains: Chains, held: map<nat, nat>,
                  from: nat, to: nat, i: nat, a: nat, j: nat, b: nat)
    returns (m': Mem, i': nat, a': nat, j': nat, b': nat)
    requires CopyAt(m0, m, chains, from, to, i, a, j, b) && Wf(m, chains) && Counted(m, held, NULL) && Sized(m) && Totals(m)
    requires i < |ChainOf(m0, chains, from)| && j < |ChainOf(m0, chains, to)|
    requires |Bytes(m0, chains, to)| <= 0xffff && |Bytes(m0, chains, from)| <= 0xffff
    ensures var c, d := ChainOf(m0, chains, from), ChainOf(m0, chains, to);
            && c[i] in m0 && d[j] in m0 && c[i] in m && d[j] in m
            && |m[c[i]].data| == |m0[c[i]].data| && |m[d[j]].data| == |m0[d[j]].data|
            && a <= |m0[c[i]].data| && b <= |m0[d[j]].data|
            && var n := RoundSize(m0, c[i], a, d[j], b);
            && 0 <= n && m' == Transfer(m, c[i], a, d[j], b, n)
            && i' == (if a + n >= |m0[c[i]].data| then i + 1 else i) && a' == (if a + n >= |m0[c[i]].data| then 0 else a + n)
            && j' == (if b + n == |m0[d[j]].data| then j + 1 else j) && b' == (if b + n == |m0[d[j]].data| then 0 else b + n)
            && c[i] in m' && d[j] in m' && |m'[c[i]].data| == |m0[c[i]].data| && |m'[d[j]].data| == |m0[d[j]].data|
            && m'[c[i]].next == (if i + 1 < |c| then c[i + 1] else NULL) && m'[d[j]].next == (if j + 1 < |d| then d[j + 1] else NULL)
            && (i' < |c| ==> c[i'] in m' && c[i'] != NULL) && (j' < |d| ==> d[j'] in m' && d[j'] != NULL)
            && i' + j' > i + j
            && RestResult(m0, c, d, i, a, j, b) ==
               (if j' == |d| && i' < |c| then ErrArg
                else if i' < |c| && LooksLikeQueue(m', c[i']) then ErrVal
                else if j' < |d| && LooksLikeQueue(m', d[j']) then ErrVal
                else if i' == |c| then Ok
                else RestResult(m0, c, d, i', a', j', b'))
    ensures CopyAt(m0, m', chains, from, to, i', a', j', b')
    ensures Wf(m', chains) && Counted(m', held, NULL) && Sized(m') && Totals(m')
  {
    hide Wf, Flat, ChainOf, Counted, Totals, Sized, CopyAt, Transfer, Outcome, Sum, Lens, LooksLikeQueue;
    var c, d := ChainOf(m0, chains, from), ChainOf(m0, chains, to);
    m', i', a', j', b' := CopyRoundState(m0, m, chains, held, from, to, i, a, j, b);
    RoundFields(m0, m', chains, from, to, i', a', j', b');
    assert FieldAt(m0, m', c, i) && FieldAt(m0, m', d, j);
    assert (i' < |c| ==> FieldAt(m0, m', c, i')) && (j' < |d| ==> FieldAt(m0, m', d, j'));
    LensEmpty(m0, c, i');
    LensEmpty(m0, d, j');
    CopyBounds(m0, m', chains, from, to, i', a', j', b');
    OutcomeStep(m0, c, d, i, a, j, b, RoundSize(m0, c[i], a, d[j], b));
  }

  lemma LensEmpty(m0: Mem, c: seq<nat>, i: nat)
    requires i <= |c|
    ensures Lens(m0, c[i..]) == [] <==> i == |c|
  {
  }

  lemma CopyBounds(m0: Mem, m: Mem, chains: Chains, from: nat, to: nat, i: nat, a: nat, j: nat, b: nat)
    requires CopyAt(m0, m, chains, from, to, i, a, j, b)
    ensures var c, d := ChainOf(m0, chains, from), ChainOf(m0, chains, to);
            && i <= |c| && j <= |d|
            && (i < |c| ==> c[i] in m0 && a <= |m0[c[i]].data|) && (j < |d| ==> d[j] in m0 && b <= |m0[d[j]].data|)
  {
    hide Wf, Flat;
  }

  /** At the end of the source chain everything has been copied. */
  lemma CopyEnd(m0: Mem, m: Mem, chains: Chains, from: nat, to: nat, a: nat, j: nat, b: nat)
    requires CopyAt(m0, m, chains, from, to, |ChainOf(m0, chains, from)|, a, j, b)
    ensures |Bytes(m0, chains, from)| <= |Bytes(m0, chains, to)|
    ensures Bytes(m, chains, to) == Overwrite(Bytes(m0, chains, to), 0, Bytes(m0, chains, from))
    ensures SameShape(m0, m, ChainOf(m0, chains, to))
  {
    hide Wf, Flat;
    var c := ChainOf(m0, chains, from);
    assert c[..|c|] == c;
    assert Flat(m0, c)[..|Flat(m0, c)|] == Flat(m0, c);
    ShapeChain(m0, m, chains, to, ChainOf(m0, chains, to), to);
  }

  lemma CopyShape(m0: Mem, m: Mem, chains: Chains, from: nat, to: nat, i: nat, a: nat, j: nat, b: nat)
    requires CopyAt(m0, m, chains, from, to, i, a, j, b)
    ensures SameShape(m0, m, ChainOf(m0, chains, to))
  {
    hide Wf, Flat, SameShape;
  }

  /** `pbuf_copy`. */
  method Copy(pool: Pool, pTo: nat, pFrom: nat) returns (r: Err)
    requires pool.Valid() && Totals(pool.mem)
    requires (pTo == NULL || pTo in pool.mem) && (pFrom == NULL || pFrom in pool.mem)
    requires forall x :: x in ChainOf(pool.mem, pool.chains, pTo) ==> x !in ChainOf(pool.mem, pool.chains, pFrom)
    requires |Bytes(pool.mem, pool.chains, pTo)| <= 0xffff && |Bytes(pool.mem, pool.chains, pFrom)| <= 0xffff
    modifies pool`mem
    ensures pool.Valid() && Totals(pool.mem)
    ensures SameShape(old(pool.mem), pool.mem, old(ChainOf(pool.mem, pool.chains, pTo)))
    ensures var s, t := old(Bytes(pool.mem, pool.chains, pFrom)), old(Bytes(pool.mem, pool.chains, pTo));
            && (pTo == NULL || pFrom == NULL || |t| < |s| ==> r == ErrArg && pool.mem == old(pool.mem))
            && (pTo != NULL && pFrom != NULL && |s| <= |t| ==>
                  r == CopyResult(old(pool.mem), old(pool.chains), pFrom, pTo))
            && (r == Ok <==> pTo != NULL && pFrom != NULL && |s| <= |t| && old(Copyable(pool.mem, pool.chains, pFrom, pTo)))
            && (r == Ok ==> |s| <= |t| && Bytes(pool.mem, pool.chains, pTo) == Overwrite(t, 0, s))
  {
    hide Wf, Flat, ChainOf, Counted, Totals, Sized, Overwrite, Outcome, CopyAt, SameShape, Lens, Copyable;
    ghost var m0, chains := pool.mem, pool.chains;
    TotalIsLength(m0, chains, pTo);
    TotalIsLength(m0, chains, pFrom);
    FillStart(m0, ChainOf(m0, chains, pTo), 0);
    if pTo == NULL || pFrom == NULL || pool.mem[pTo].totLen < pool.mem[pFrom].totLen {
      return ErrArg;
    }
    CopyStart(m0, chains, pFrom, pTo);
    CopyableIs(m0, chains, pFrom, pTo);
    ghost var c, d := ChainOf(m0, chains, pFrom), ChainOf(m0, chains, pTo);
    ghost var result := CopyResult(m0, chains, pFrom, pTo);
    var to, from, a: nat, b: nat := pTo, pFrom, 0, 0;
    ghost var i: nat, j: nat := 0, 0;
    while from != NULL
      invariant pool.Valid() && Totals(pool.mem) && CopyAt(m0, pool.mem, chains, pFrom, pTo, i, a, j, b)
      invariant i <= |c| && j <= |d| && from == (if i < |c| then c[i] else NULL) && to == (if j < |d| then d[j] else NULL)
      invariant i < |c| ==> j < |d| && result == RestResult(m0, c, d, i, a, j, b) && c[i] != NULL
      invariant i == |c| ==> result == Ok
      decreases |c| - i + |d| - j
    {
      ghost var m', i', a', j', b' := CopyRound(m0, pool.mem, chains, pool.held, pFrom, pTo, i, a, j, b);
      CopyShape(m0, m', chains, pFrom, pTo, i', a', j', b');
      var n := |pool.mem[to].data| - b;
      if |pool.mem[to].data| - b >= |pool.mem[from].data| - a {
        n := |pool.mem[from].data| - a;
      }
      pool.mem := Transfer(pool.mem, from, a, to, b, n);
      a, b := a + n, b + n;
      if a >= |pool.mem[from].data| {
        a, from := 0, pool.mem[from].next;
      }
      if b == |pool.mem[to].data| {
        b, to := 0, pool.mem[to].next;
        if to == NULL && from != NULL {
          return ErrArg;
        }
      }
      i, j := i', j';
      if from != NULL && |pool.mem[from].data| == pool.mem[from].totLen && pool.mem[from].next != NULL {
        return ErrVal;
      }
      if to != NULL && |pool.mem[to].data| == pool.mem[to].totLen && pool.mem[to].next != NULL {
        return ErrVal;
      }
    }
    CopyEnd(m0, pool.mem, chains, pFrom, pTo, a, j, b);
    return Ok;
  }
}
