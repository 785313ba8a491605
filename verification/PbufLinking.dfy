/** Linking and unlinking chains of packet buffers: what `pbuf_cat` and the operations that
    cut a chain do to chains, totals and reference counts. */
module PbufLinking {
  import opened MachineInts
  import opened PbufStore

  // --------------------------------------------------------------- concatenation

  /** `mem` with `d` added to the totals of the pbufs `c`. */
  function Bumped(mem: Mem, c: seq<nat>, d: nat): Mem {
    map p | p in mem :: if p in c then mem[p].(totLen := Sum16(mem[p].totLen, d)) else mem[p]
  }

  lemma BumpedNext(mem: Mem, c: seq<nat>, i: nat, d: nat)
    requires i < |c| && c[i] in mem && c[i] !in c[..i]
    ensures c[i] in Bumped(mem, c[..i], d) && Bumped(mem, c[..i], d)[c[i]] == mem[c[i]]
    ensures Bumped(mem, c[..i + 1], d) ==
            Bumped(mem, c[..i], d)[c[i] := mem[c[i]].(totLen := Sum16(mem[c[i]].totLen, d))]
  {
    assert c[..i + 1] == c[..i] + [c[i]];
  }

  /** The memory after `pbuf_cat`: the totals of the first chain grow, its last pbuf `last`
      links to `t`. */
  function Concatenated(mem: Mem, c: seq<nat>, last: nat, t: nat): Mem
    requires last in mem
  {
    var m := Bumped(mem, c, TotLen(mem, t));
    m[last := m[last].(next := t)]
  }

  ghost function CatChains(chains: Chains, c: seq<nat>, t: nat): Chains
    requires t in chains
  {
    map p | p in chains :: if p in c then chains[p] + chains[t] else chains[p]
  }

  /** The chains of two heads share no pbuf. */
  lemma {:induction false} HeadsApart(mem: Mem, chains: Chains, h: nat, t: nat, i: nat)
    requires Wf(mem, chains) && h in mem && t in mem && h != t && !Linked(mem, h) && !Linked(mem, t)
    requires i < |chains[t]|
    ensures chains[t][i] !in chains[h]
  {
    if chains[t][i] in chains[h] {
      if i == 0 {
        var j :| 0 <= j < |chains[h]| && chains[h][j] == t;
        if j > 0 {
          ChainAt(mem, chains, h, j - 1);
        }
      } else {
        ChainAt(mem, chains, t, i - 1);
        ChainEntered(mem, chains, h, chains[t][i - 1]);
        HeadsApart(mem, chains, h, t, i - 1);
      }
    }
  }

  /** What is known about the ends of the two chains of a concatenation. */
  ghost predicate CatReady(mem: Mem, chains: Chains, h: nat, t: nat) {
    && Wf(mem, chains) && h in mem && t in mem && h != t && !Linked(mem, h) && !Linked(mem, t)
  }

  ghost function Last(chains: Chains, h: nat): nat
    requires h in chains && |chains[h]| > 0
  {
    chains[h][|chains[h]| - 1]
  }

  lemma CatFacts(mem: Mem, chains: Chains, h: nat, t: nat)
    requires CatReady(mem, chains, h, t)
    ensures h in chains && t in chains && |chains[h]| > 0 && Last(chains, h) in mem
    ensures mem[Last(chains, h)].next == NULL && Last(chains, h) in chains[h]
    ensures forall p :: p in chains[h] ==> p in mem && p !in chains[t]
    ensures t !in chains[h] && h !in chains[t]
    ensures forall p :: p in mem && mem[p].next in chains[h] ==> p in chains[h]
    ensures forall p :: p in chains[h] && p != Last(chains, h) ==> mem[p].next in chains[h]
  {
    hide Wf, Linked;
    ChainKeys(mem, chains);
    ChainStep(mem, chains, h);
    ChainStep(mem, chains, t);
    var c := chains[h];
    ChainAt(mem, chains, h, |c| - 1);
    forall p | p in c ensures p in mem && p !in chains[t] && (p != Last(chains, h) ==> mem[p].next in c) {
      var j :| 0 <= j < |c| && c[j] == p;
      ChainAt(mem, chains, h, j);
      if p in chains[t] {
        var i :| 0 <= i < |chains[t]| && chains[t][i] == p;
        HeadsApart(mem, chains, h, t, i);
      }
    }
    assert c[0] == h && chains[t][0] == t;
    HeadsApart(mem, chains, h, t, 0);
    forall p | p in mem && mem[p].next in c ensures p in c {
      ChainEntered(mem, chains, h, p);
    }
  }

  /** The fields after concatenation. */
  lemma CatFields(mem: Mem, c: seq<nat>, last: nat, t: nat)
    requires last in mem
    ensures var mem' := Concatenated(mem, c, last, t);
            && mem'.Keys == mem.Keys
            && forall p :: p in mem ==>
              && mem'[p].ref == mem[p].ref && mem'[p].data == mem[p].data
              && mem'[p].next == (if p == last then t else mem[p].next)
              && mem'[p].totLen == (if p in c then Sum16(mem[p].totLen, TotLen(mem, t)) else mem[p].totLen)
  {
    hide Sum16;
  }

  lemma ChainStep(mem: Mem, chains: Chains, p: nat)
    requires Wf(mem, chains) && p in mem
    ensures p in chains && chains[p] == [p] + ChainOf(mem, chains, mem[p].next)
    ensures mem[p].next == NULL || (mem[p].next in mem && mem[p].next in chains)
    ensures NULL !in mem && NULL !in chains
  {
  }

  lemma CatChainsAt(chains: Chains, c: seq<nat>, t: nat, p: nat)
    requires t in chains
    ensures p in CatChains(chains, c, t) <==> p in chains
    ensures p in chains ==> CatChains(chains, c, t)[p] == if p in c then chains[p] + chains[t] else chains[p]
  {
  }

  lemma CatFactsAt(mem: Mem, chains: Chains, h: nat, t: nat, p: nat)
    requires CatReady(mem, chains, h, t) && p in mem && h in chains && |chains[h]| > 0
    ensures Wf(mem, chains) && t in mem && t !in chains[h]
    ensures p == Last(chains, h) ==> p in chains[h] && mem[p].next == NULL
    ensures p != Last(chains, h) ==> (p in chains[h] <==> mem[p].next in chains[h])
    ensures mem[p].next in chains[h] ==> mem[p].next in mem
  {
    hide Linked, Wf, Last;
    CatFacts(mem, chains, h, t);
  }

  lemma CatChainedAt(mem: Mem, mem': Mem, chains: Chains, h: nat, t: nat, p: nat)
    requires CatReady(mem, chains, h, t) && p in mem && mem'.Keys == mem.Keys
    requires h in chains && |chains[h]| > 0 && t in chains
    requires mem'[p].next == if p == Last(chains, h) then t else mem[p].next
    ensures var chains' := CatChains(chains, chains[h], t);
            p in chains' && chains'[p] == [p] + ChainOf(mem', chains', mem'[p].next)
  {
    hide Linked, Wf, CatReady, CatChains, Last;
    CatFactsAt(mem, chains, h, t, p);
    ChainStep(mem, chains, p);
    ChainStep(mem, chains, t);
    CatChainsAt(chains, chains[h], t, p);
    CatChainsAt(chains, chains[h], t, t);
    CatChainsAt(chains, chains[h], t, mem[p].next);
    var next := mem[p].next;
    if p == Last(chains, h) {
      assert chains[p] == [p];
    } else if p in chains[h] {
      assert chains[p] + chains[t] == [p] + (chains[next] + chains[t]);
    } else if next == NULL {
      assert chains[p] == [p];
    }
  }

  lemma CatWf(mem: Mem, chains: Chains, h: nat, t: nat)
    requires CatReady(mem, chains, h, t)
    ensures h in chains && t in chains && |chains[h]| > 0 && Last(chains, h) in mem
    ensures Wf(Concatenated(mem, chains[h], Last(chains, h), t), CatChains(chains, chains[h], t))
  {
    hide Sum16, Linked, Concatenated, Wf, CatChains;
    CatFacts(mem, chains, h, t);
    WfParts(mem, chains);
    ChainStep(mem, chains, h);
    var c, last := chains[h], Last(chains, h);
    var mem', chains' := Concatenated(mem, c, last, t), CatChains(chains, c, t);
    CatFields(mem, c, last, t);
    CatDisjoint(mem, mem', last, t);
    CatClosed(mem, mem', last, t);
    assert chains'.Keys == mem'.Keys by {
      forall p ensures p in chains' <==> p in mem' {
        CatChainsAt(chains, c, t, p);
        ChainKeys(mem, chains);
      }
    }
    forall p | p in mem' ensures chains'[p] == [p] + ChainOf(mem', chains', mem'[p].next) {
      CatChainedAt(mem, mem', chains, h, t, p);
    }
    WfFrom(mem', chains');
  }

  lemma ChainKeys(mem: Mem, chains: Chains)
    requires Wf(mem, chains)
    ensures chains.Keys == mem.Keys
  {
  }

  lemma WfFrom(mem: Mem, chains: Chains)
    requires Closed(mem) && Disjoint(mem) && chains.Keys == mem.Keys
    requires forall p :: p in mem ==> chains[p] == [p] + ChainOf(mem, chains, mem[p].next)
    ensures Wf(mem, chains)
  {
  }

  lemma CatClosed(mem: Mem, mem': Mem, last: nat, t: nat)
    requires Closed(mem) && mem'.Keys == mem.Keys && t in mem
    requires forall p :: p in mem ==> mem'[p].next == if p == last then t else mem[p].next
    ensures Closed(mem')
  {
  }

  lemma CatDisjoint(mem: Mem, mem': Mem, last: nat, t: nat)
    requires Disjoint(mem) && Closed(mem) && mem'.Keys == mem.Keys && t in mem && !Linked(mem, t)
    requires forall p :: p in mem ==> mem'[p].next == if p == last then t else mem[p].next
    ensures Disjoint(mem')
  {
  }

  /** The caller's reference to `t` becomes the reference of the link. */
  lemma CatCounted(mem: Mem, chains: Chains, held: map<nat, nat>, h: nat, t: nat)
    requires CatReady(mem, chains, h, t) && Counted(mem, held, NULL) && Held(held, t) >= 1
    ensures h in chains && |chains[h]| > 0 && Last(chains, h) in mem
    ensures Counted(Concatenated(mem, chains[h], Last(chains, h), t), held[t := Held(held, t) - 1], NULL)
  {
    hide Sum16, Linked, Disjoint, Concatenated, Chained;
    CatFacts(mem, chains, h, t);
    var c, last := chains[h], Last(chains, h);
    var mem', held' := Concatenated(mem, c, last, t), held[t := Held(held, t) - 1];
    CatFields(mem, c, last, t);
    forall p | p in mem' ensures mem'[p].ref >= 1 && mem'[p].ref == References(mem', held', NULL, p) {
      CatLinked(mem, mem', last, t, p);
      CountedAt(mem, held, NULL, p);
    }
  }

  lemma CatLinked(mem: Mem, mem': Mem, last: nat, t: nat, p: nat)
    requires mem'.Keys == mem.Keys && last in mem && mem[last].next == NULL && p in mem && NULL !in mem
    requires forall q :: q in mem ==> mem'[q].next == if q == last then t else mem[q].next
    ensures Linked(mem', p) == (Linked(mem, p) || p == t)
  {
    if Linked(mem, p) {
      var q :| q in mem && mem[q].next == p;
      assert q in mem' && mem'[q].next == p;
    }
    assert mem'[last].next == t;
  }

  lemma CatTotals(mem: Mem, chains: Chains, h: nat, t: nat)
    requires CatReady(mem, chains, h, t) && Totals(mem)
    ensures h in chains && |chains[h]| > 0 && Last(chains, h) in mem
    ensures Totals(Concatenated(mem, chains[h], Last(chains, h), t))
  {
    hide Linked, Sum16, Disjoint, Chained, Concatenated;
    CatFacts(mem, chains, h, t);
    var c, last := chains[h], Last(chains, h);
    var mem', d := Concatenated(mem, c, last, t), TotLen(mem, t);
    CatFields(mem, c, last, t);
    forall p | p in mem' ensures mem'[p].totLen == Sum16(|mem'[p].data|, TotLen(mem', mem'[p].next)) {
      assert mem[p].totLen == Sum16(|mem[p].data|, TotLen(mem, mem[p].next));
      Sum16Assoc(|mem[p].data|, TotLen(mem, mem[p].next), d);
    }
  }

  lemma HeadOfChain(mem: Mem, chains: Chains, h: nat)
    requires Wf(mem, chains) && h in mem
    ensures h in chains && h in chains[h]
  {
    assert chains[h][0] == h;
  }

  lemma Sum16Assoc(a: nat, b: nat, d: nat)
    ensures Sum16(Sum16(a, b), d) == Sum16(a, Sum16(b, d))
    ensures b == 0 ==> Sum16(Sum16(a, b), d) == Sum16(a, d)
  {
    ModAdd(d, a + b);
    ModAdd(a, b + d);
  }

  /** The contents of the new chain are the contents of the two chains, one after the other. */
  lemma CatBytes(mem: Mem, chains: Chains, h: nat, t: nat)
    requires CatReady(mem, chains, h, t)
    ensures h in chains && t in chains && |chains[h]| > 0 && Last(chains, h) in mem
    ensures Bytes(Concatenated(mem, chains[h], Last(chains, h), t), CatChains(chains, chains[h], t), h)
            == Bytes(mem, chains, h) + Bytes(mem, chains, t)
  {
    hide Linked, Sum16, Wf, Concatenated;
    CatFacts(mem, chains, h, t);
    CatFields(mem, chains[h], Last(chains, h), t);
    HeadOfChain(mem, chains, h);
    var mem' := Concatenated(mem, chains[h], Last(chains, h), t);
    FlatConcat(mem', chains[h], chains[t]);
    FlatSame(mem, mem', chains[h]);
    FlatSame(mem, mem', chains[t]);
  }

  /** Everything that `pbuf_cat` keeps. */
  lemma CatKeeps(mem: Mem, chains: Chains, held: map<nat, nat>, h: nat, t: nat)
    requires CatReady(mem, chains, h, t) && Counted(mem, held, NULL) && Held(held, t) >= 1 && Sized(mem)
    ensures h in chains && t in chains && |chains[h]| > 0 && Last(chains, h) in mem
    ensures var mem' := Concatenated(mem, chains[h], Last(chains, h), t);
            var chains' := CatChains(chains, chains[h], t);
            && Wf(mem', chains') && Counted(mem', held[t := Held(held, t) - 1], NULL) && Sized(mem')
            && (Totals(mem) ==> Totals(mem'))
            && Bytes(mem', chains', h) == Bytes(mem, chains, h) + Bytes(mem, chains, t)
  {
    hide Wf, Counted, Totals, Concatenated, CatChains, Bytes, Sum16, CatReady;
    CatWf(mem, chains, h, t);
    CatCounted(mem, chains, held, h, t);
    if Totals(mem) { CatTotals(mem, chains, h, t); }
    CatBytes(mem, chains, h, t);
    CatFields(mem, chains[h], Last(chains, h), t);
    Sum16Small();
  }

  lemma Sum16Small()
    ensures forall a: nat, b: nat :: Sum16(a, b) < 0x10000
  {
  }

  lemma BumpStart(mem: Mem, chains: Chains, h: nat, t: nat)
    requires CatReady(mem, chains, h, t)
    ensures h in chains && |chains[h]| > 0 && chains[h][0] == h && h in mem && t in mem
    ensures Bumped(mem, chains[h][..0], mem[t].totLen) == mem
  {
  }

  /** One step of the loop of `pbuf_cat`. */
  lemma BumpStep(mem: Mem, chains: Chains, h: nat, t: nat, i: nat)
    requires CatReady(mem, chains, h, t) && h in chains && i < |chains[h]| && t in mem
    ensures var c, d := chains[h], mem[t].totLen; var p, m := c[i], Bumped(mem, c[..i], d);
            && p in m && t in m && m[t].totLen == d && p in mem && m[p] == mem[p]
            && m[p := m[p].(totLen := Sum16(m[p].totLen, d))] == Bumped(mem, c[..i + 1], d)
            && mem[p].next == (if i + 1 < |c| then c[i + 1] else NULL)
            && (i + 1 < |c| ==> c[i + 1] in m && c[i + 1] != NULL)
  {
    hide Wf, Linked, Sum16;
    var c, d := chains[h], mem[t].totLen;
    ChainAt(mem, chains, h, i);
    if i + 1 < |c| { ChainAt(mem, chains, h, i + 1); }
    if c[i] in c[..i] {
      var j :| 0 <= j < i && c[j] == c[i];
      ChainDistinct(mem, chains, h, j, i);
    }
    BumpedNext(mem, c, i, d);
    CatFacts(mem, chains, h, t);
    BytesNull(mem, chains);
  }

  lemma BumpEnd(mem: Mem, chains: Chains, h: nat, t: nat)
    requires CatReady(mem, chains, h, t) && h in chains && |chains[h]| > 0 && t in mem
    ensures Last(chains, h) in mem
    ensures var c, d := chains[h], mem[t].totLen; var m := Bumped(mem, c[..|c|], d);
            m[Last(chains, h) := m[Last(chains, h)].(next := t)] == Concatenated(mem, c, Last(chains, h), t)
  {
    hide Wf, Linked, Sum16;
    CatFacts(mem, chains, h, t);
    assert chains[h][..|chains[h]|] == chains[h];
  }

  // ---------------------------------------------------------------------- cutting

  /** `mem` with the link of `p` removed. */
  function Unlinked(mem: Mem, p: nat): Mem {
    if p in mem then mem[p := mem[p].(next := NULL)] else mem
  }

  /** The link that is removed leaves its target with one reference too many. */
  lemma UnlinkCounted(mem: Mem, held: map<nat, nat>, p: nat)
    requires Closed(mem) && Disjoint(mem) && p in mem && Counted(mem, held, NULL)
    ensures Counted(Unlinked(mem, p), held, mem[p].next)
  {
    hide Linked, Disjoint;
    var mem', q := Unlinked(mem, p), mem[p].next;
    forall x | x in mem' ensures mem'[x].ref >= 1 && mem'[x].ref == References(mem', held, q, x) {
      UnlinkLinked(mem, p, x);
      CountedAt(mem, held, NULL, x);
      if x == q { LinkedBy(mem, p); }
    }
  }

  lemma UnlinkLinked(mem: Mem, p: nat, x: nat)
    requires p in mem && x in mem && Disjoint(mem) && NULL !in mem
    ensures Linked(Unlinked(mem, p), x) == (Linked(mem, x) && x != mem[p].next)
  {
    var mem' := Unlinked(mem, p);
    if Linked(mem, x) && x != mem[p].next {
      var r :| r in mem && mem[r].next == x;
      assert r in mem' && mem'[r].next == x;
    }
  }

  /** The chains after the chain of the head `h` has been cut behind its `k`-th pbuf. */
  ghost function CutChains(chains: Chains, c: seq<nat>, k: nat): Chains
    requires k < |c|
  {
    map p | p in chains :: if p in c[..k + 1] then Front(chains[p], |c| - k - 1) else chains[p]
  }

  /** `s` without its last `n` elements. */
  ghost function Front(s: seq<nat>, n: nat): seq<nat> {
    if n <= |s| then s[..|s| - n] else []
  }

  lemma CutChainsAt(mem: Mem, chains: Chains, h: nat, k: nat, p: nat)
    requires Wf(mem, chains) && h in mem && h in chains && !Linked(mem, h) && k < |chains[h]| && p in mem
    ensures var c := chains[h]; var mem', chains' := Unlinked(mem, c[k]), CutChains(chains, c, k);
            p in mem' && p in chains' && chains'[p] == [p] + ChainOf(mem', chains', mem'[p].next)
  {
    hide Linked, Wf, CutChains;
    var c := chains[h];
    ChainAt(mem, chains, h, k);
    ChainStep(mem, chains, p);
    CutChainsGet(chains, c, k, p);
    CutChainsGet(chains, c, k, mem[p].next);
    if p in c[..k + 1] {
      var j :| 0 <= j < k + 1 && c[j] == p;
      ChainAt(mem, chains, h, j);
      if j < k {
        assert c[j + 1] == c[..k + 1][j + 1];
        ChainDistinct(mem, chains, h, j, k);
        FrontCons(p, chains[mem[p].next], |c| - k - 1);
      } else {
        assert chains[p] == c[k..] && Front(c[k..], |c| - k - 1) == [p];
      }
    } else {
      CutKeepsOut(mem, chains, h, k, p);
    }
  }

  lemma FrontCons(p: nat, s: seq<nat>, n: nat)
    requires n <= |s|
    ensures Front([p] + s, n) == [p] + Front(s, n)
  {
  }

  lemma CutChainsGet(chains: Chains, c: seq<nat>, k: nat, p: nat)
    requires k < |c|
    ensures p in CutChains(chains, c, k) <==> p in chains
    ensures p in chains ==>
      CutChains(chains, c, k)[p] == if p in c[..k + 1] then Front(chains[p], |c| - k - 1) else chains[p]
  {
  }

  /** A pbuf outside the front part does not link into it. */
  lemma CutKeepsOut(mem: Mem, chains: Chains, h: nat, k: nat, p: nat)
    requires Wf(mem, chains) && h in mem && h in chains && !Linked(mem, h) && k < |chains[h]| && p in mem
    requires p !in chains[h][..k + 1]
    ensures mem[p].next !in chains[h][..k + 1] && p != chains[h][k]
  {
    hide Linked, Wf;
    var c := chains[h];
    assert c[k] == c[..k + 1][k];
    if mem[p].next in c[..k + 1] {
      var j :| 0 <= j < k + 1 && c[j] == mem[p].next;
      ChainEntered(mem, chains, h, p);
      InFront(mem, chains, h, k, j, p);
    }
  }

  lemma InFront(mem: Mem, chains: Chains, h: nat, k: nat, j: nat, p: nat)
    requires Wf(mem, chains) && h in mem && h in chains && j <= k < |chains[h]|
    requires p in chains[h] && p in mem && mem[p].next == chains[h][j]
    ensures p in chains[h][..k + 1]
  {
    hide Linked, Wf;
    var c := chains[h];
    var i :| 0 <= i < |c| && c[i] == p;
    ChainAt(mem, chains, h, i);
    ChainAt(mem, chains, h, j);
    ChainStep(mem, chains, h);
    if i + 1 < j { ChainDistinct(mem, chains, h, i + 1, j); }
    if j < i + 1 && i + 1 < |c| { ChainDistinct(mem, chains, h, j, i + 1); }
    assert i < k;
    assert c[..k + 1][i] == p;
  }

  lemma CutWf(mem: Mem, chains: Chains, h: nat, k: nat)
    requires Wf(mem, chains) && h in mem && h in chains && !Linked(mem, h) && k < |chains[h]|
    ensures chains[h][k] in mem
    ensures Wf(Unlinked(mem, chains[h][k]), CutChains(chains, chains[h], k))
  {
    hide Linked, Wf, CutChains, Closed, Disjoint, ChainOf;
    ChainKeys(mem, chains);
    WfParts(mem, chains);
    ChainAt(mem, chains, h, k);
    var c := chains[h];
    var mem', chains' := Unlinked(mem, c[k]), CutChains(chains, c, k);
    CutKeys(chains, c, k);
    UnlinkParts(mem, c[k]);
    forall p | p in mem' ensures chains'[p] == [p] + ChainOf(mem', chains', mem'[p].next) {
      CutChainsAt(mem, chains, h, k, p);
    }
    WfFrom(mem', chains');
  }

  lemma UnlinkParts(mem: Mem, p: nat)
    requires Closed(mem) && Disjoint(mem)
    ensures Closed(Unlinked(mem, p)) && Disjoint(Unlinked(mem, p))
  {
  }

  lemma CutKeys(chains: Chains, c: seq<nat>, k: nat)
    requires k < |c|
    ensures CutChains(chains, c, k).Keys == chains.Keys
  {
  }

  /** A difference in a `u16_t`. */
  function Diff16(a: nat, b: nat): nat {
    (a - b) % 0x10000
  }

  lemma DiffOfSum(a: nat, b: nat)
    requires b < 0x10000
    ensures Diff16(Sum16(a, b), a) == b
  {
    var k := (a + b) / 0x10000;
    assert Sum16(a, b) - a == b - 0x10000 * k;
    ModShift(b, k);
  }

  lemma ModShift(b: nat, k: nat)
    requires b < 0x10000
    ensures (b - 0x10000 * k) % 0x10000 == b
    decreases k
  {
    if k > 0 {
      ModShift(b, k - 1);
      assert b - 0x10000 * k == (b - 0x10000 * (k - 1)) - 0x10000;
    }
  }

  /** `mem` after the head `p` has been cut off from the rest of its chain. */
  function Detached(mem: Mem, p: nat): Mem {
    if p in mem then mem[p := mem[p].(next := NULL, totLen := |mem[p].data|)] else mem
  }

  lemma DetachKeeps(mem: Mem, chains: Chains, held: map<nat, nat>, p: nat)
    requires Wf(mem, chains) && Counted(mem, held, NULL) && Sized(mem) && Totals(mem)
    requires p in mem && p in chains && |chains[p]| > 0 && !Linked(mem, p) && mem[p].next != NULL
    ensures mem[p].next in mem && Diff16(mem[p].totLen, |mem[p].data|) == mem[mem[p].next].totLen
    ensures var chains' := CutChains(chains, chains[p], 0);
            && Wf(Detached(mem, p), chains') && Counted(Detached(mem, p), held, mem[p].next)
            && Sized(Detached(mem, p)) && Totals(Detached(mem, p))
            && ChainOf(Detached(mem, p), chains', mem[p].next) == chains[p][1..]
            && ChainOf(Detached(mem, p), chains', p) == [p]
  {
    hide Wf, Counted, CutChains, Linked, Sum16, Diff16;
    WfParts(mem, chains);
    ChainStep(mem, chains, p);
    BytesStep(mem, chains, p);
    var q := mem[p].next;
    assert mem[p].totLen == Sum16(|mem[p].data|, mem[q].totLen);
    DiffOfSum(|mem[p].data|, mem[q].totLen);
    CutWf(mem, chains, p, 0);
    UnlinkCounted(mem, held, p);
    var mem1, mem2 := Unlinked(mem, p), Detached(mem, p);
    SameLinks(mem1, mem2, CutChains(chains, chains[p], 0));
    SameParts(mem1, mem2, CutChains(chains, chains[p], 0), held, q);
    DetachTotals(mem, p);
    CutChainsGet(chains, chains[p], 0, q);
    CutChainsGet(chains, chains[p], 0, p);
  }

  /** Changes that leave links and reference counts alone. */
  lemma SameParts(mem: Mem, mem': Mem, chains: Chains, held: map<nat, nat>, extra: nat)
    requires mem'.Keys == mem.Keys
    requires forall p :: p in mem ==> mem'[p].next == mem[p].next && mem'[p].ref == mem[p].ref
    ensures Wf(mem, chains) ==> Wf(mem', chains)
    ensures Counted(mem, held, extra) ==> Counted(mem', held, extra)
  {
    hide Linked;
    SameLinks(mem, mem', chains);
  }

  /** Only `p` itself has a new total, and nothing links to it. */
  lemma DetachTotals(mem: Mem, p: nat)
    requires Totals(mem) && Sized(mem) && NULL !in mem && p in mem && !Linked(mem, p)
    ensures Totals(Detached(mem, p))
  {
    hide Sum16, Linked;
    var mem' := Detached(mem, p);
    forall x | x in mem' ensures mem'[x].totLen == Sum16(|mem'[x].data|, TotLen(mem', mem'[x].next)) {
      LinkedBy(mem, x);
      if x == p { Sum16Zero(|mem[p].data|); }
    }
  }

  lemma Sum16Zero(a: nat)
    requires a < 0x10000
    ensures Sum16(a, 0) == a
  {
  }

  lemma HeadsNotNull(mem: Mem, chains: Chains, h: nat, t: nat)
    requires CatReady(mem, chains, h, t)
    ensures h != NULL && t != NULL && h in chains && t in mem
  {
  }

  /** A head without successor is already detached. */
  lemma DetachAlone(mem: Mem, chains: Chains, p: nat)
    requires Wf(mem, chains) && Totals(mem) && Sized(mem) && p in mem && mem[p].next == NULL
    ensures p in chains && chains[p] == [p] && mem[p].totLen == |mem[p].data|
    ensures Detached(mem, p) == mem && AfterDrop(mem, [], 0) == mem
  {
    hide Sum16, Wf;
    ChainStep(mem, chains, p);
    assert mem[p].totLen == Sum16(|mem[p].data|, 0);
    Sum16Zero(|mem[p].data|);
    assert Without(mem, []) == mem;
  }

  /** Dropping a chain leaves pbufs outside it alone. */
  lemma DropOutside(mem: Mem, chains: Chains, c: seq<nat>, k: nat, p: nat)
    requires k <= |c| && p !in c
    ensures p in AfterDrop(mem, c, k) <==> p in mem
    ensures p in mem ==> AfterDrop(mem, c, k)[p] == mem[p]
    ensures p in ChainsWithout(chains, c[..k]) <==> p in chains
    ensures p in chains ==> ChainsWithout(chains, c[..k])[p] == chains[p]
  {
  }

  /** The first pbuf of a dropped chain survives exactly if nothing was deallocated. */
  lemma DropFirst(mem: Mem, c: seq<nat>, k: nat)
    requires k <= |c| && |c| > 0 && c[0] in mem
    ensures c[0] in AfterDrop(mem, c, k) <==> k == 0
  {
  }

  // -------------------------------------------------------------- removing from the front

  /** The memory after the head `f` has been unlinked and one reference to it dropped. */
  function Popped(mem: Mem, f: nat): Mem {
    if f !in mem then mem
    else if mem[f].ref <= 1 then mem - {f}
    else mem[f := mem[f].(next := NULL, ref := mem[f].ref - 1)]
  }

  lemma PopIsDrop(mem: Mem, f: nat)
    requires f in mem && mem[f].ref >= 1
    ensures var k := if mem[f].ref == 1 then 1 else 0;
            Popped(mem, f) == AfterDrop(Unlinked(mem, f), [f], k)
  {
    assert [f][..1] == [f] && [f][..0] == [];
  }

  /** The successor of a popped head is a head, and other pbufs stay linked as they were. */
  lemma PopLinked(mem: Mem, f: nat)
    requires Closed(mem) && Disjoint(mem) && f in mem && !Linked(mem, f)
    ensures mem[f].next in mem ==> !Linked(Popped(mem, f), mem[f].next)
  {
  }

  lemma UnlinkSized(mem: Mem, f: nat)
    requires Sized(mem)
    ensures Sized(Unlinked(mem, f))
  {
  }

  /** Hiding `n` bytes of the head `p`. */
  function Shortened(mem: Mem, p: nat, n: nat): Mem
    requires p in mem && n <= |mem[p].data|
  {
    mem[p := mem[p].(data := mem[p].data[n..], totLen := Diff16(mem[p].totLen, n))]
  }

  lemma ShortenKeeps(mem: Mem, chains: Chains, held: map<nat, nat>, p: nat, n: nat)
    requires Wf(mem, chains) && Counted(mem, held, NULL) && Sized(mem)
    requires p in mem && !Linked(mem, p) && n <= |mem[p].data|
    ensures var mem' := Shortened(mem, p, n);
            && Wf(mem', chains) && Counted(mem', held, NULL) && Sized(mem')
            && (Totals(mem) <==> Totals(mem'))
            && Bytes(mem', chains, p) == Bytes(mem, chains, p)[n..]
  {
    hide Wf, Counted, Linked, Bytes, Sum16, Diff16;
    var mem' := Shortened(mem, p, n);
    SameParts(mem, mem', chains, held, NULL);
    BytesStep(mem, chains, p);
    BytesStep(mem', chains, p);
    ShortenTotals(mem, p, n);
    ShortenBytes(mem, mem', chains, p);
    DiffSmall(mem[p].totLen, n);
    var rest := Bytes(mem, chains, mem[p].next);
    assert (mem[p].data + rest)[n..] == mem[p].data[n..] + rest;
  }

  lemma DiffSmall(a: nat, b: nat)
    ensures Diff16(a, b) < 0x10000
  {
  }

  lemma ShortenBytes(mem: Mem, mem': Mem, chains: Chains, p: nat)
    requires Wf(mem, chains) && p in mem && mem'.Keys == mem.Keys
    requires forall x :: x in mem && x != p ==> mem'[x] == mem[x]
    ensures Bytes(mem', chains, mem[p].next) == Bytes(mem, chains, mem[p].next)
  {
    hide Wf, Flat;
    BytesStep(mem, chains, p);
    FlatSame(mem, mem', ChainOf(mem, chains, mem[p].next));
  }

  lemma ShortenTotals(mem: Mem, p: nat, n: nat)
    requires Sized(mem) && p in mem && !Linked(mem, p) && n <= |mem[p].data|
    ensures Totals(mem) <==> Totals(Shortened(mem, p, n))
  {
    hide Sum16, Diff16, Linked;
    var mem' := Shortened(mem, p, n);
    forall x | x in mem ensures
      (mem[x].totLen == Sum16(|mem[x].data|, TotLen(mem, mem[x].next)) <==>
       mem'[x].totLen == Sum16(|mem'[x].data|, TotLen(mem', mem'[x].next)))
    {
      LinkedBy(mem, x);
      if x == p { ShortenSum(|mem[p].data|, n, TotLen(mem, mem[p].next), mem[p].totLen); }
    }
  }

  lemma ShortenSum(len: nat, n: nat, rest: nat, tot: nat)
    requires n <= len < 0x10000 && tot < 0x10000
    ensures tot == Sum16(len, rest) <==> Diff16(tot, n) == Sum16(len - n, rest)
  {
  }

  lemma DiffZero(a: nat)
    requires a < 0x10000
    ensures Diff16(a, 0) == a
  {
  }

  /** `s` without its first `n` elements, empty if there are fewer. */
  function Suffix(s: seq<byte>, n: nat): seq<byte> {
    if n <= |s| then s[n..] else []
  }

  lemma SuffixStep(a: seq<byte>, b: seq<byte>, n: nat)
    ensures Suffix(a + b, |a| + n) == Suffix(b, n)
  {
  }

  /** Whether popping the pbuf `b` leaves its total right. */
  predicate PopsCleanly(b: Pbuf) {
    b.ref == 1 || b.totLen == |b.data|
  }

  /** Whether all pbufs of `c` can be popped without a total going stale. */
  ghost predicate AllPopCleanly(mem: Mem, c: seq<nat>) {
    forall x :: x in c ==> x in mem && PopsCleanly(mem[x])
  }

  /** How many pbufs at the front of the chain `c` lie wholly within the first `size` bytes; an
      empty pbuf behind the last of these bytes is not one of them. */
  ghost function WholePbufs(mem: Mem, c: seq<nat>, size: nat): (k: nat)
    ensures k <= |c|
  {
    if c == [] || size == 0 || c[0] !in mem || size < |mem[c[0]].data| then 0
    else 1 + WholePbufs(mem, c[1..], size - |mem[c[0]].data|)
  }

  lemma WholeStep(mem: Mem, c: seq<nat>, k: nat, left: nat)
    requires k < |c| && c[k] in mem && left > 0 && left >= |mem[c[k]].data|
    ensures WholePbufs(mem, c[k..], left) == 1 + WholePbufs(mem, c[k + 1..], left - |mem[c[k]].data|)
  {
    assert c[k..][1..] == c[k + 1..];
  }

  lemma WholeEnd(mem: Mem, c: seq<nat>, k: nat, left: nat)
    requires k <= |c| && (k < |c| ==> c[k] in mem && (left == 0 || left < |mem[c[k]].data|))
    ensures WholePbufs(mem, c[k..], left) == 0
  {
  }

  /** That number without the recursion: the pbufs counted have at most `size` bytes, without
      the last one they have fewer, and with the next one they would have more unless they
      have exactly `size` bytes. */
  lemma {:induction false} WholePbufsIs(mem: Mem, c: seq<nat>, size: nat)
    requires forall x :: x in c ==> x in mem
    ensures var k := WholePbufs(mem, c, size);
            && |Flat(mem, c[..k])| <= size && (k > 0 ==> |Flat(mem, c[..k - 1])| < size)
            && (k < |c| ==> |Flat(mem, c[..k])| == size || size < |Flat(mem, c[..k + 1])|)
  {
    var k := WholePbufs(mem, c, size);
    if c != [] {
      assert c[0] in c;
      assert c[..1] == [c[0]];
      if k == 0 {
        FrontLength(mem, c, 1);
      } else {
        var n := |mem[c[0]].data|;
        WholePbufsIs(mem, c[1..], size - n);
        FrontLength(mem, c, k);
        if k > 1 { FrontLength(mem, c, k - 1); }
        if k < |c| { FrontLength(mem, c, k + 1); }
      }
    }
  }

  lemma FrontLength(mem: Mem, c: seq<nat>, k: nat)
    requires 0 < k <= |c| && c[0] in mem
    ensures |Flat(mem, c[..k])| == |mem[c[0]].data| + |Flat(mem, c[1..][..k - 1])|
  {
    assert c[..k][1..] == c[1..][..k - 1];
  }

  /** `mem'` is `mem` after the front of the chain `c` was removed: each of the first `k` pbufs lost
      a reference and, if it is still there, its link but not its total; the others of the chain
      keep links and references; nothing else changed. */
  ghost predicate FrontRemoved(mem: Mem, mem': Mem, c: seq<nat>, k: nat)
    requires k <= |c|
  {
    && (forall x :: x in c[..k] ==> x in mem && (x in mem' <==> mem[x].ref > 1))
    && (forall x :: x in c[..k] && x in mem' ==> x in mem && mem[x].ref > 0 && mem'[x] == mem[x].(next := NULL, ref := mem[x].ref - 1))
    && (forall x :: x in mem && x !in c ==> x in mem' && mem'[x] == mem[x])
    && (forall x :: x in mem' ==> x in mem) && SameNodes(mem, mem', c[k..])
  }

  /** The whole pbufs are popped and then some bytes of the next one are hidden. */
  lemma FrontIsRemoved(mem: Mem, chains: Chains, m: Mem, mem': Mem, q: nat, k: nat)
    requires Wf(mem, chains) && (q == NULL || q in mem) && k <= |ChainOf(mem, chains, q)|
    requires PoppedAll(mem, m, ChainOf(mem, chains, q)[..k])
    requires var c := ChainOf(mem, chains, q); var r := if k < |c| then c[k] else NULL;
             && (forall x :: x in m <==> x in mem')
             && (forall x :: x in m ==> mem'[x].next == m[x].next && mem'[x].ref == m[x].ref)
             && (forall x :: x in m && x != r ==> mem'[x] == m[x])
    ensures FrontRemoved(mem, mem', ChainOf(mem, chains, q), k)
  {
    hide Wf, ChainOf, PoppedAll, FrontRemoved, SameNodes;
    var c := ChainOf(mem, chains, q);
    RestStays(mem, chains, m, q, k);
    HeadNotInFront(mem, chains, q, k);
    FrontThenHidden(mem, m, mem', c, k, if k < |c| then c[k] else NULL);
  }

  lemma HeadNotInFront(mem: Mem, chains: Chains, q: nat, k: nat)
    requires Wf(mem, chains) && (q == NULL || q in mem) && k <= |ChainOf(mem, chains, q)|
    ensures var c := ChainOf(mem, chains, q); var r := if k < |c| then c[k] else NULL;
            (forall x :: x in c[..k] ==> x in c && x != r) && (r == NULL || r in c) && NULL !in mem
  {
    hide Wf;
    var c := ChainOf(mem, chains, q);
    DropStart(mem, chains, q);
    BytesNull(mem, chains);
    forall x | x in c[..k] ensures x in c && x != if k < |c| then c[k] else NULL {
      var i :| 0 <= i < k && c[..k][i] == x;
      assert c[i] == x;
      if k < |c| { ChainDistinct(mem, chains, q, i, k); }
    }
  }

  lemma FrontThenHidden(mem: Mem, m: Mem, mem': Mem, c: seq<nat>, k: nat, r: nat)
    requires k <= |c| && PoppedAll(mem, m, c[..k]) && SameNodes(mem, m, c[k..])
    requires (forall x :: x in c[..k] ==> x in c && x != r) && (r == NULL || r in c) && NULL !in mem
    requires (forall x :: x in m <==> x in mem') && (forall x :: x in m && x != r ==> mem'[x] == m[x])
    requires forall x :: x in m ==> mem'[x].next == m[x].next && mem'[x].ref == m[x].ref
    ensures FrontRemoved(mem, mem', c, k)
  {
  }

  /** `mem'` is `mem` after the pbufs `gone` have been popped one after the other. */
  ghost predicate PoppedAll(mem: Mem, mem': Mem, gone: seq<nat>) {
    && (forall x :: x in mem' ==> x in mem)
    && (forall x :: x in mem && x !in gone ==> x in mem' && mem'[x] == mem[x])
    && (forall x :: x in gone ==> x in mem && mem[x].ref >= 1 && (x in mem' <==> mem[x].ref > 1))
    && (forall x :: x in gone && x in mem' ==> mem'[x] == mem[x].(next := NULL, ref := mem[x].ref - 1))
  }

  lemma PoppedMore(mem: Mem, mem': Mem, c: seq<nat>, k: nat)
    requires k < |c| && PoppedAll(mem, mem', c[..k]) && c[k] in mem && c[k] !in c[..k] && mem[c[k]].ref >= 1
    ensures PoppedAll(mem, Popped(mem', c[k]), c[..k + 1])
  {
    assert c[..k + 1] == c[..k] + [c[k]];
  }

  /** Popping does not touch the contents of the rest of the chain. */
  lemma PopBytes(mem: Mem, mem': Mem, chains: Chains, chains': Chains, f: nat)
    requires Wf(mem, chains) && f in mem && mem' == Popped(mem, f)
    requires ChainOf(mem', chains', mem[f].next) == ChainOf(mem, chains, mem[f].next)
    ensures Bytes(mem', chains', mem[f].next) == Bytes(mem, chains, mem[f].next)
  {
    hide Wf, Flat;
    BytesStep(mem, chains, f);
    FlatSame(mem, mem', ChainOf(mem, chains, mem[f].next));
  }

  /** After popping the first `k` pbufs of a chain, totals are right exactly if each of them
      popped cleanly. */
  lemma PoppedTotals(mem: Mem, chains: Chains, mem': Mem, q: nat, k: nat)
    requires Wf(mem, chains) && Sized(mem) && q in mem && q in chains && !Linked(mem, q) && k <= |chains[q]|
    requires PoppedAll(mem, mem', chains[q][..k]) && Totals(mem)
    ensures Totals(mem') <==> AllPopCleanly(mem, chains[q][..k])
  {
    hide Wf, Linked, Sum16;
    var gone := chains[q][..k];
    BytesNull(mem, chains);
    forall x | x in mem' && x !in gone
      ensures mem'[x].totLen == Sum16(|mem'[x].data|, TotLen(mem', mem'[x].next))
    {
      NextOf(mem, chains, x);
      if k > 0 { CutKeepsOut(mem, chains, q, k - 1, x); }
    }
    forall x | x in mem' && x in gone
      ensures mem'[x].totLen == Sum16(|mem'[x].data|, TotLen(mem', mem'[x].next)) <==> PopsCleanly(mem[x])
    {
      Sum16Zero(|mem[x].data|);
    }
  }

  lemma SuffixZero(s: seq<byte>)
    ensures Suffix(s, 0) == s && forall n: nat :: Suffix([], n) == []
  {
  }

  lemma TailStep(c: seq<nat>, k: nat)
    requires k < |c|
    ensures c[k..] == [c[k]] + c[k + 1..]
  {
  }

  lemma PoppedNone(mem: Mem)
    ensures PoppedAll(mem, mem, [])
  {
  }

  lemma PopReady(mem: Mem, chains: Chains, held: map<nat, nat>, q: nat, k: nat)
    requires Wf(mem, chains) && Counted(mem, held, NULL) && q in mem && q in chains && k < |chains[q]|
    ensures var c := chains[q];
            c[k] in mem && c[k] !in c[..k] && mem[c[k]].ref >= 1
            && mem[c[k]].next == (if k + 1 < |c| then c[k + 1] else NULL)
  {
    hide Wf, Linked;
    NextSurvives(mem, chains, q, k);
    CountedAt(mem, held, NULL, chains[q][k]);
  }

  lemma PoppedKeeps(mem: Mem, mem': Mem, gone: seq<nat>, x: nat)
    requires PoppedAll(mem, mem', gone) && x in mem && x !in gone
    ensures x in mem' && mem'[x] == mem[x]
  {
  }

  lemma AllocKeeps(mem: Mem, chains: Chains, held: map<nat, nat>, p: nat, data: seq<byte>)
    requires Wf(mem, chains) && Counted(mem, held, NULL) && p != NULL && p !in mem && |data| < 0x10000
    ensures var mem' := mem[p := Pbuf(NULL, data, |data|, 1)];
            && Wf(mem', chains[p := [p]]) && Counted(mem', held[p := 1], NULL) && !Linked(mem', p)
            && (Sized(mem) ==> Sized(mem')) && (Totals(mem) ==> Totals(mem'))
  {
    hide Wf, Counted, Totals, Linked;
    WfParts(mem, chains);
    var mem' := mem[p := Pbuf(NULL, data, |data|, 1)];
    AllocLinks(mem, mem', p);
    AllocChained(mem, chains, p, data);
    AllocCounted(mem, held, p, data);
    AllocTotals(mem, p, data);
  }

  lemma AllocLinks(mem: Mem, mem': Mem, p: nat)
    requires Closed(mem) && p != NULL && p !in mem && mem'.Keys == mem.Keys + {p} && mem'[p].next == NULL
    requires forall x :: x in mem ==> mem'[x] == mem[x]
    ensures forall x :: x != NULL ==> Linked(mem', x) == Linked(mem, x)
    ensures !Linked(mem', p)
  {
    forall x | x != NULL ensures Linked(mem', x) == Linked(mem, x) {
      if Linked(mem, x) {
        var q :| q in mem && mem[q].next == x;
        assert q in mem' && mem'[q].next == x;
      }
    }
  }

  lemma AllocChained(mem: Mem, chains: Chains, p: nat, data: seq<byte>)
    requires Wf(mem, chains) && p != NULL && p !in mem
    ensures Wf(mem[p := Pbuf(NULL, data, |data|, 1)], chains[p := [p]])
  {
    hide Wf, Closed, Disjoint;
    var mem', chains' := mem[p := Pbuf(NULL, data, |data|, 1)], chains[p := [p]];
    ChainKeys(mem, chains);
    WfParts(mem, chains);
    BytesNull(mem, chains);
    AllocParts(mem, mem', p);
    forall x | x in mem' ensures chains'[x] == [x] + ChainOf(mem', chains', mem'[x].next) {
      if x != p { ChainStep(mem, chains, x); }
    }
    WfFrom(mem', chains');
  }

  lemma AllocParts(mem: Mem, mem': Mem, p: nat)
    requires Closed(mem) && Disjoint(mem) && p != NULL && p !in mem
    requires mem'.Keys == mem.Keys + {p} && mem'[p].next == NULL && forall x :: x in mem ==> mem'[x] == mem[x]
    ensures Closed(mem') && Disjoint(mem')
  {
  }

  lemma AllocCounted(mem: Mem, held: map<nat, nat>, p: nat, data: seq<byte>)
    requires Closed(mem) && Counted(mem, held, NULL) && p != NULL && p !in mem
    ensures Counted(mem[p := Pbuf(NULL, data, |data|, 1)], held[p := 1], NULL)
  {
    hide Linked;
    var mem' := mem[p := Pbuf(NULL, data, |data|, 1)];
    AllocLinks(mem, mem', p);
  }

  lemma AllocTotals(mem: Mem, p: nat, data: seq<byte>)
    requires Closed(mem) && p != NULL && p !in mem && |data| < 0x10000
    ensures Totals(mem) ==> Totals(mem[p := Pbuf(NULL, data, |data|, 1)])
  {
    hide Sum16;
    Sum16Zero(|data|);
  }

  /** The pbufs of `c` keep their links and references. */
  ghost predicate SameNodes(mem: Mem, mem': Mem, c: seq<nat>) {
    forall x :: x in c ==> x in mem && x in mem' && mem'[x].next == mem[x].next && mem'[x].ref == mem[x].ref
  }

  /** What is behind the pbufs that were popped is as before. */
  lemma RestStays(mem: Mem, chains: Chains, mem': Mem, q: nat, k: nat)
    requires Wf(mem, chains) && (q == NULL || q in mem) && k <= |ChainOf(mem, chains, q)|
    requires PoppedAll(mem, mem', ChainOf(mem, chains, q)[..k])
    ensures SameNodes(mem, mem', ChainOf(mem, chains, q)[k..])
  {
    hide Wf;
    var c := ChainOf(mem, chains, q);
    DropStart(mem, chains, q);
    forall x | x in c[k..] ensures x in mem && x in mem' && mem'[x] == mem[x] {
      var j :| 0 <= j < |c[k..]| && c[k..][j] == x;
      assert c[k + j] == x;
      if x in c[..k] {
        var i :| 0 <= i < k && c[..k][i] == x;
        ChainDistinct(mem, chains, q, i, k + j);
      }
    }
  }

  /** The same for the front of a chain that may be empty. */
  lemma FrontTotals(mem: Mem, chains: Chains, mem': Mem, q: nat, k: nat)
    requires Wf(mem, chains) && Sized(mem) && (q == NULL || (q in mem && !Linked(mem, q))) && k <= |ChainOf(mem, chains, q)|
    requires PoppedAll(mem, mem', ChainOf(mem, chains, q)[..k]) && Totals(mem)
    ensures Totals(mem') <==> AllPopCleanly(mem, ChainOf(mem, chains, q)[..k])
  {
    hide Wf, Linked, Totals;
    DropStart(mem, chains, q);
    if q == NULL {
      assert mem' == mem;
      assert AllPopCleanly(mem, []);
    } else {
      PoppedTotals(mem, chains, mem', q, k);
    }
  }
}
