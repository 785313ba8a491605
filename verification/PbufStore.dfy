/** The memory of packet buffers (lwip/src/core/pbuf.c) as a value: which pbufs exist, how
    they are chained, and how their reference counts are accounted for. */
module PbufStore {
  import opened MachineInts

  /** The null pointer; pbufs have other addresses. */
  const NULL: nat := 0

  /** `struct pbuf`: `data` is the payload between `payload` and `payload + len`. */
  datatype Pbuf = Pbuf(next: nat, data: seq<byte>, totLen: nat, ref: nat)

  type Mem = map<nat, Pbuf>

  /** For every pbuf the addresses from it to the end of its chain. */
  type Chains = map<nat, seq<nat>>

  /** No pbuf links to a pbuf that does not exist. */
  ghost predicate Closed(mem: Mem) {
    NULL !in mem && forall p :: p in mem ==> mem[p].next == NULL || mem[p].next in mem
  }

  /** Chains do not share pbufs. */
  ghost predicate Disjoint(mem: Mem) {
    forall p, q :: p in mem && q in mem && p != q && mem[p].next == mem[q].next ==> mem[p].next == NULL
  }

  /** Chains are finite. */
  ghost predicate Chained(mem: Mem, chains: Chains) {
    && chains.Keys == mem.Keys
    && forall p :: p in mem ==> chains[p] == [p] + ChainOf(mem, chains, mem[p].next)
  }

  ghost function ChainOf(mem: Mem, chains: Chains, p: nat): seq<nat> {
    if p in mem && p in chains then chains[p] else []
  }

  /** Whether some pbuf links to `p`. */
  ghost predicate Linked(mem: Mem, p: nat) {
    exists q :: q in mem && mem[q].next == p
  }

  function Held(held: map<nat, nat>, p: nat): nat {
    if p in held then held[p] else 0
  }

  /** `ref` counts the references that callers hold plus the link of the chain; `extra` may
      have one reference more, which is about to be dropped. */
  ghost predicate Counted(mem: Mem, held: map<nat, nat>, extra: nat) {
    && (forall p :: p !in mem ==> Held(held, p) == 0)
    && forall p :: p in mem ==> mem[p].ref >= 1 && mem[p].ref == References(mem, held, extra, p)
  }

  ghost function References(mem: Mem, held: map<nat, nat>, extra: nat, p: nat): nat {
    Held(held, p) + (if Linked(mem, p) then 1 else 0) + (if p == extra then 1 else 0)
  }

  /** `tot_len` is the 16-bit sum of the lengths from the pbuf to the end of its chain. */
  ghost predicate Totals(mem: Mem) {
    forall p :: p in mem ==> mem[p].totLen == Sum16(|mem[p].data|, TotLen(mem, mem[p].next))
  }

  /** A sum in a `u16_t`. */
  function Sum16(a: nat, b: nat): nat {
    (a + b) % 0x10000
  }

  function TotLen(mem: Mem, p: nat): nat {
    if p in mem then mem[p].totLen else 0
  }

  /** Lengths fit their 16-bit fields. */
  ghost predicate Sized(mem: Mem) {
    forall p :: p in mem ==> |mem[p].data| < 0x10000 && mem[p].totLen < 0x10000
  }

  ghost predicate Wf(mem: Mem, chains: Chains) {
    Closed(mem) && Disjoint(mem) && Chained(mem, chains)
  }

  // --------------------------------------------------------------------- chains

  /** The pbufs of a chain, one by one. */
  lemma {:induction false} ChainAt(mem: Mem, chains: Chains, p: nat, i: nat)
    requires Wf(mem, chains) && p in mem && i < |chains[p]|
    ensures chains[p][i] in mem && chains[chains[p][i]] == chains[p][i..]
    ensures mem[chains[p][i]].next == if i + 1 < |chains[p]| then chains[p][i + 1] else NULL
    decreases i
  {
    var next := mem[p].next;
    if i == 0 {
      assert chains[p][0..] == chains[p];
      if next != NULL { assert chains[p][1] == chains[next][0]; }
    } else {
      assert next != NULL;
      assert chains[p][1..] == chains[next] && chains[p][i] == chains[next][i - 1];
      ChainAt(mem, chains, next, i - 1);
      assert chains[next][i - 1..] == chains[p][i..];
    }
  }

  lemma ChainDistinct(mem: Mem, chains: Chains, p: nat, i: nat, j: nat)
    requires Wf(mem, chains) && p in mem && i < j < |chains[p]|
    ensures chains[p][i] != chains[p][j]
  {
    ChainAt(mem, chains, p, i);
    ChainAt(mem, chains, p, j);
    assert |chains[p][i..]| != |chains[p][j..]|;
  }

  /** A chain that nothing links to is entered only through its own links. */
  lemma ChainEntered(mem: Mem, chains: Chains, h: nat, q: nat)
    requires Wf(mem, chains) && h in mem && !Linked(mem, h)
    requires q in mem && mem[q].next in chains[h]
    ensures q in chains[h]
  {
    var c := chains[h];
    var j :| 0 <= j < |c| && c[j] == mem[q].next;
    ChainAt(mem, chains, h, j);
    if j > 0 {
      ChainAt(mem, chains, h, j - 1);
      assert q == c[j - 1];
    }
  }

  // -------------------------------------------------------------------- contents

  /** The bytes of the chain that starts at `p`. */
  ghost function Bytes(mem: Mem, chains: Chains, p: nat): seq<byte> {
    Flat(mem, ChainOf(mem, chains, p))
  }

  ghost function Flat(mem: Mem, c: seq<nat>): seq<byte> {
    if c == [] then [] else (if c[0] in mem then mem[c[0]].data else []) + Flat(mem, c[1..])
  }

  lemma BytesStep(mem: Mem, chains: Chains, p: nat)
    requires Wf(mem, chains) && p in mem
    ensures Bytes(mem, chains, p) == mem[p].data + Bytes(mem, chains, mem[p].next)
    ensures ChainOf(mem, chains, p) == [p] + ChainOf(mem, chains, mem[p].next)
    ensures p !in ChainOf(mem, chains, mem[p].next)
  {
    var rest := ChainOf(mem, chains, mem[p].next);
    assert chains[p][1..] == rest;
    if p in rest {
      var j :| 0 <= j < |rest| && rest[j] == p;
      ChainDistinct(mem, chains, p, 0, j + 1);
    }
  }

  lemma {:induction false} FlatConcat(mem: Mem, a: seq<nat>, b: seq<nat>)
    ensures Flat(mem, a + b) == Flat(mem, a) + Flat(mem, b)
  {
    if a == [] {
      assert a + b == b;
    } else {
      assert (a + b)[1..] == a[1..] + b;
      FlatConcat(mem, a[1..], b);
    }
  }

  /** Contents depend only on the pbufs of the chain. */
  lemma {:induction false} FlatSame(mem: Mem, mem': Mem, c: seq<nat>)
    requires forall p :: p in c ==> (p in mem <==> p in mem') && (p in mem ==> mem[p].data == mem'[p].data)
    ensures Flat(mem, c) == Flat(mem', c)
  {
    if c != [] { FlatSame(mem, mem', c[1..]); }
  }

  /** With right totals, `tot_len` is the length of the contents (16 bits). */
  lemma {:induction false} TotalIsLength(mem: Mem, chains: Chains, p: nat)
    requires Wf(mem, chains) && Totals(mem) && (p == NULL || p in mem)
    ensures TotLen(mem, p) == |Bytes(mem, chains, p)| % 0x10000
    decreases |ChainOf(mem, chains, p)|
  {
    hide Wf, Bytes, ChainOf;
    if p != NULL {
      BytesStep(mem, chains, p);
      NextOf(mem, chains, p);
      TotalIsLength(mem, chains, mem[p].next);
      ModAdd(|mem[p].data|, |Bytes(mem, chains, mem[p].next)|);
    } else {
      BytesNull(mem, chains);
    }
  }

  lemma ModAdd(a: nat, b: nat)
    ensures (a + b % 0x10000) % 0x10000 == (a + b) % 0x10000
  {
  }

  lemma NextOf(mem: Mem, chains: Chains, p: nat)
    requires Wf(mem, chains) && p in mem
    ensures p != NULL && (mem[p].next == NULL || mem[p].next in mem)
  {
  }

  lemma BytesNull(mem: Mem, chains: Chains)
    requires Wf(mem, chains)
    ensures NULL !in mem && ChainOf(mem, chains, NULL) == [] && Bytes(mem, chains, NULL) == []
  {
  }

  // ------------------------------------------------------------ dropping references

  /** The pbufs of `mem` without `gone`. */
  function Without(mem: Mem, gone: seq<nat>): Mem {
    map p | p in mem && p !in gone :: mem[p]
  }

  function ChainsWithout(chains: Chains, gone: seq<nat>): Chains {
    map p | p in chains && p !in gone :: chains[p]
  }

  /** The memory after the first `k` pbufs of the chain `c` have been deallocated and the
      next one has lost a reference. */
  function AfterDrop(mem: Mem, c: seq<nat>, k: nat): Mem
    requires k <= |c|
  {
    var m := Without(mem, c[..k]);
    if k < |c| && c[k] in m && m[c[k]].ref > 0 then m[c[k] := m[c[k]].(ref := m[c[k]].ref - 1)] else m
  }

  lemma WithoutNext(mem: Mem, c: seq<nat>, k: nat)
    requires k < |c|
    ensures Without(mem, c[..k]) - {c[k]} == Without(mem, c[..k + 1])
  {
    assert c[..k + 1] == c[..k] + [c[k]];
  }

  lemma ChainsWithoutNext(chains: Chains, c: seq<nat>, k: nat)
    requires k < |c|
    ensures ChainsWithout(chains, c[..k]) - {c[k]} == ChainsWithout(chains, c[..k + 1])
  {
    assert c[..k + 1] == c[..k] + [c[k]];
  }

  /** The `k`-th pbuf is still there when the first `k` are gone. */
  lemma NextSurvives(mem: Mem, chains: Chains, p: nat, k: nat)
    requires Wf(mem, chains) && p in mem && k < |chains[p]|
    ensures var c := chains[p];
            && c[k] in Without(mem, c[..k]) && c[k] in mem && Without(mem, c[..k])[c[k]] == mem[c[k]]
            && mem[c[k]].next == if k + 1 < |c| then c[k + 1] else NULL
  {
    var c := chains[p];
    ChainAt(mem, chains, p, k);
    if c[k] in c[..k] {
      var j :| 0 <= j < k && c[j] == c[k];
      ChainDistinct(mem, chains, p, j, k);
    }
  }

  /** Deallocating a pbuf that nothing links to. */
  lemma RemoveKeepsWf(mem: Mem, chains: Chains, p: nat)
    requires Wf(mem, chains) && p in mem && !Linked(mem, p)
    ensures Wf(mem - {p}, chains - {p})
  {
    var mem' := mem - {p};
    forall q | q in mem' ensures (chains - {p})[q] == [q] + ChainOf(mem', chains - {p}, mem'[q].next) {
      assert mem[q].next != p;
    }
  }

  lemma RemoveKeepsTotals(mem: Mem, p: nat)
    requires Totals(mem) && p in mem && !Linked(mem, p)
    ensures Totals(mem - {p})
  {
    hide Sum16;
    var mem' := mem - {p};
    forall q | q in mem' ensures mem'[q].totLen == Sum16(|mem'[q].data|, TotLen(mem', mem'[q].next)) {
      assert mem[q].next != p;
    }
  }

  lemma RemoveLinks(mem: Mem, p: nat, q: nat)
    requires p in mem && q in mem && p != q && Disjoint(mem) && q != NULL
    ensures Linked(mem - {p}, q) == (Linked(mem, q) && q != mem[p].next)
  {
    var mem' := mem - {p};
    if Linked(mem, q) && q != mem[p].next {
      var r :| r in mem && mem[r].next == q;
      assert r in mem' && mem'[r].next == q;
    }
  }

  /** When its last reference is dropped a pbuf is not linked, and removing it leaves its
      successor with one reference too many. */
  lemma LastReference(mem: Mem, held: map<nat, nat>, p: nat)
    requires Closed(mem) && Disjoint(mem) && p in mem && Counted(mem, held, p) && mem[p].ref == 1
    ensures !Linked(mem, p) && Counted(mem - {p}, held, mem[p].next)
  {
    hide Linked, Disjoint;
    var mem' := mem - {p};
    forall q | q in mem' ensures mem'[q].ref >= 1 && mem'[q].ref == References(mem', held, mem[p].next, q) {
      RemoveLinks(mem, p, q);
      if q == mem[p].next { LinkedBy(mem, p); }
    }
  }

  lemma LinkedBy(mem: Mem, p: nat)
    requires p in mem
    ensures Linked(mem, mem[p].next)
  {
  }

  /** Another reference remains. */
  lemma OtherReference(mem: Mem, held: map<nat, nat>, p: nat)
    requires Closed(mem) && p in mem && Counted(mem, held, p) && mem[p].ref > 1
    ensures Counted(mem[p := mem[p].(ref := mem[p].ref - 1)], held, NULL)
  {
    hide Linked;
    var mem' := mem[p := mem[p].(ref := mem[p].ref - 1)];
    SameLinks(mem, mem', map[]);
  }

  lemma SameTotals(mem: Mem, mem': Mem)
    requires mem'.Keys == mem.Keys
    requires forall p :: p in mem ==> mem'[p].(ref := 0) == mem[p].(ref := 0)
    ensures Totals(mem') == Totals(mem)
  {
    hide Sum16;
    forall p | p in mem ensures TotLen(mem', mem'[p].next) == TotLen(mem, mem[p].next)
                        ensures mem'[p].totLen == mem[p].totLen && mem'[p].data == mem[p].data {
      assert mem'[p].(ref := 0) == mem[p].(ref := 0);
    }
  }

  /** Changes that leave the `next` fields alone. */
  lemma SameLinks(mem: Mem, mem': Mem, chains: Chains)
    requires mem'.Keys == mem.Keys && forall p :: p in mem ==> mem'[p].next == mem[p].next
    ensures Closed(mem) ==> Closed(mem')
    ensures Disjoint(mem) ==> Disjoint(mem')
    ensures Chained(mem, chains) ==> Chained(mem', chains)
    ensures forall p :: Linked(mem', p) == Linked(mem, p)
  {
    forall p ensures Linked(mem', p) == Linked(mem, p) {
      if Linked(mem, p) {
        var q :| q in mem && mem[q].next == p;
        assert q in mem' && mem'[q].next == p;
      }
    }
  }

  lemma WfParts(mem: Mem, chains: Chains)
    requires Wf(mem, chains)
    ensures Closed(mem) && Disjoint(mem)
  {
  }

  lemma CountedAt(mem: Mem, held: map<nat, nat>, extra: nat, p: nat)
    requires Counted(mem, held, extra) && p in mem
    ensures mem[p].ref >= 1 && mem[p].ref == References(mem, held, extra, p)
  {
  }

  /** Nothing removed yet. */
  lemma DropStart(mem: Mem, chains: Chains, start: nat)
    requires Wf(mem, chains) && (start == NULL || start in mem)
    ensures var c := ChainOf(mem, chains, start);
            && Without(mem, c[..0]) == mem && ChainsWithout(chains, c[..0]) == chains
            && (start == NULL ==> c == []) && (start != NULL ==> start in chains && |c| > 0 && c[0] == start && c == chains[start])
            && (forall i :: 0 <= i < |c| ==> c[i] in mem && c[i] != NULL)
  {
    hide Wf;
    WfParts(mem, chains);
    NothingGone(mem, chains, ChainOf(mem, chains, start));
    if start != NULL {
      HeadFirst(mem, chains, start);
      forall i | 0 <= i < |chains[start]| ensures chains[start][i] in mem { ChainAt(mem, chains, start, i); }
    }
  }

  lemma NothingGone(mem: Mem, chains: Chains, c: seq<nat>)
    ensures Without(mem, c[..0]) == mem && ChainsWithout(chains, c[..0]) == chains
  {
  }

  lemma HeadFirst(mem: Mem, chains: Chains, p: nat)
    requires Wf(mem, chains) && p in mem
    ensures p in chains && |chains[p]| > 0 && chains[p][0] == p
  {
  }

  /** A change of one reference count. */
  lemma RefOnly(mem: Mem, chains: Chains, p: nat, ref: nat)
    requires Wf(mem, chains) && p in mem
    ensures var mem' := mem[p := mem[p].(ref := ref)];
            Wf(mem', chains) && Totals(mem') == Totals(mem)
  {
    hide Totals;
    var mem' := mem[p := mem[p].(ref := ref)];
    SameLinks(mem, mem', chains);
    SameTotals(mem, mem');
  }

  /** A caller gives up one of its references to `p`. */
  lemma GiveUp(mem: Mem, held: map<nat, nat>, p: nat)
    requires Counted(mem, held, NULL) && p in mem && NULL !in mem && Held(held, p) >= 1
    ensures Counted(mem, held[p := Held(held, p) - 1], p)
  {
    hide Linked;
  }

  /** The reference that is one too many becomes one that the caller holds. */
  lemma TakeOver(mem: Mem, held: map<nat, nat>, p: nat)
    requires Counted(mem, held, p) && p in mem && NULL !in mem
    ensures Counted(mem, held[p := Held(held, p) + 1], NULL)
  {
    hide Linked;
  }

  lemma AddReference(mem: Mem, held: map<nat, nat>, p: nat)
    requires Counted(mem, held, NULL) && p in mem && NULL !in mem
    ensures Counted(mem[p := mem[p].(ref := mem[p].ref + 1)], held[p := Held(held, p) + 1], NULL)
  {
    hide Linked;
    SameLinks(mem, mem[p := mem[p].(ref := mem[p].ref + 1)], map[]);
  }

  lemma DropSized(mem: Mem, c: seq<nat>, k: nat)
    requires Sized(mem) && k <= |c|
    ensures Sized(AfterDrop(mem, c, k))
  {
  }
}
