/** Allocating a chain from the pool of fixed-size pbufs (`pbuf_alloc` with `PBUF_POOL`,
    lwip/src/core/pbuf.c). */
module PbufAlloc {
  import opened MachineInts
  import opened PbufStore
  import opened PbufLinking
  import opened PbufPool
  import opened PbufOwned

  /** Where the part of pbuf `j` begins, if the first pbuf has room for `first` bytes and every other
      one for `cap`. */
  function Begin(j: nat, first: nat, cap: nat): nat {
    if j == 0 then 0 else Begin(j - 1, first, cap) + if j == 1 then first else cap
  }

  /** How many pbufs from `j` on are needed for `n` bytes in all, one at least. */
  function Needed(n: nat, j: nat, first: nat, cap: nat): nat
    requires first > 0 && cap > 0
    decreases if Begin(j + 1, first, cap) < n then n - Begin(j + 1, first, cap) else 0
  {
    1 + if Begin(j + 1, first, cap) < n then Needed(n, j + 1, first, cap) else 0
  }

  /** That number: the least, but at least one more, with room for all the bytes. */
  lemma {:induction false} NeededIs(n: nat, j: nat, first: nat, cap: nat)
    requires first > 0 && cap > 0
    ensures var k := j + Needed(n, j, first, cap); k > j && n <= Begin(k, first, cap) && (k > j + 1 ==> Begin(k - 1, first, cap) < n)
    ensures j > 0 ==> Begin(j, first, cap) == first + (j - 1) * cap
    decreases if Begin(j + 1, first, cap) < n then n - Begin(j + 1, first, cap) else 0
  {
    if Begin(j + 1, first, cap) < n { NeededIs(n, j + 1, first, cap); }
    BeginIs(j, first, cap);
  }

  lemma {:induction false} BeginIs(j: nat, first: nat, cap: nat)
    ensures j > 0 ==> Begin(j, first, cap) == first + (j - 1) * cap
  {
    if j > 1 { BeginIs(j - 1, first, cap); }
  }

  /** The part of `s` that pbuf `j` holds. */
  function Part(s: seq<byte>, j: nat, first: nat, cap: nat): seq<byte> {
    var b, e := Begin(j, first, cap), Begin(j + 1, first, cap);
    if b >= |s| || b > e then [] else s[b..if e < |s| then e else |s|]
  }

  /** Pbuf `j` of `i`: its total counts all that is still to come. */
  function PoolPbuf(a: seq<nat>, s: seq<byte>, first: nat, cap: nat, i: nat, j: nat): Pbuf
    requires j < i <= |a|
  {
    Pbuf(if j + 1 < i then a[j + 1] else NULL, Part(s, j, first, cap),
         if Begin(j, first, cap) <= |s| then |s| - Begin(j, first, cap) else 0, 1)
  }

  ghost predicate Apart(a: seq<nat>) {
    forall j, k :: 0 <= j < k < |a| ==> a[j] != a[k]
  }

  /** Addresses at which there is no pbuf. */
  ghost predicate Vacant(mem: Mem, a: seq<nat>) {
    (forall j :: 0 <= j < |a| ==> a[j] != NULL && a[j] !in mem) && Apart(a)
  }

  /** Pbuf `j` of the new chain, which has `i` pbufs, is in memory. */
  ghost predicate NewAt(mem: Mem, a: seq<nat>, s: seq<byte>, first: nat, cap: nat, i: nat, j: nat)
    requires j < i <= |a|
  {
    a[j] in mem && mem[a[j]] == PoolPbuf(a, s, first, cap, i, j)
  }

  /** `mem'` is `mem` and the first `i` pbufs of the new chain. */
  ghost predicate Grown(mem: Mem, mem': Mem, a: seq<nat>, s: seq<byte>, first: nat, cap: nat, i: nat) {
    && i <= |a|
    && (forall x :: x in mem' <==> x in mem || x in a[..i])
    && (forall x :: x in mem ==> mem'[x] == mem[x])
    && (forall j :: 0 <= j < i ==> NewAt(mem', a, s, first, cap, i, j))
  }

  ghost function Index(a: seq<nat>, x: nat): (j: nat)
    requires x in a
    ensures j < |a| && a[j] == x
  {
    var j :| 0 <= j < |a| && a[j] == x; j
  }

  /** `chains` and those of the new pbufs. */
  ghost function NewChains(chains: Chains, a: seq<nat>): Chains {
    map x | x in chains.Keys + (set y | y in a) :: if x in a then a[Index(a, x)..] else chains[x]
  }

  lemma ApartAt(a: seq<nat>, j: nat, k: nat)
    requires Apart(a) && j < k < |a|
    ensures a[j] != a[k]
  {
  }

  lemma GrownLinks(mem: Mem, mem': Mem, a: seq<nat>, s: seq<byte>, first: nat, cap: nat)
    requires Vacant(mem, a) && Grown(mem, mem', a, s, first, cap, |a|) && Closed(mem)
    ensures forall x :: x in mem ==> Linked(mem', x) == Linked(mem, x)
    ensures forall j :: 0 <= j < |a| ==> (Linked(mem', a[j]) <==> j > 0)
  {
    hide Part, Begin;
    assert a[..|a|] == a;
    forall x | x in mem ensures Linked(mem', x) == Linked(mem, x) {
      if Linked(mem, x) {
        var q :| q in mem && mem[q].next == x;
        assert q in mem' && mem'[q].next == x;
      } else if Linked(mem', x) {
        var q :| q in mem' && mem'[q].next == x;
        var k := GrownNew(mem, mem', a, s, first, cap, q);
      }
    }
    forall j | 0 <= j < |a| ensures Linked(mem', a[j]) <==> j > 0 {
      if j > 0 {
        assert NewAt(mem', a, s, first, cap, |a|, j - 1);
      } else if Linked(mem', a[0]) {
        var q :| q in mem' && mem'[q].next == a[0];
        assert q !in mem;
        var k := GrownNew(mem, mem', a, s, first, cap, q);
      }
    }
  }

  /** What is known of a pbuf that was there before. */
  lemma GrownOld(mem: Mem, mem': Mem, a: seq<nat>, s: seq<byte>, first: nat, cap: nat, x: nat)
    requires Closed(mem) && Vacant(mem, a) && Grown(mem, mem', a, s, first, cap, |a|) && x in mem
    ensures x in mem' && mem'[x] == mem[x] && x !in a && mem[x].next !in a
    ensures mem[x].next != NULL ==> mem[x].next in mem && mem[x].next in mem' && mem'[mem[x].next] == mem[mem[x].next]
  {
  }

  /** What is known of a new pbuf. */
  lemma GrownNew(mem: Mem, mem': Mem, a: seq<nat>, s: seq<byte>, first: nat, cap: nat, x: nat) returns (j: nat)
    requires Vacant(mem, a) && Grown(mem, mem', a, s, first, cap, |a|) && x in mem' && x !in mem
    ensures j < |a| && a[j] == x && mem'[x] == PoolPbuf(a, s, first, cap, |a|, j)
    ensures j + 1 < |a| ==> a[j + 1] in mem' && a[j + 1] !in mem && a[j + 1] != NULL
    ensures j + 1 < |a| ==> mem'[a[j + 1]] == PoolPbuf(a, s, first, cap, |a|, j + 1)
  {
    hide PoolPbuf;
    assert a[..|a|] == a;
    j :| 0 <= j < |a| && a[j] == x;
    assert NewAt(mem', a, s, first, cap, |a|, j);
    if j + 1 < |a| { assert NewAt(mem', a, s, first, cap, |a|, j + 1); }
  }

  lemma GrownParts(mem: Mem, mem': Mem, a: seq<nat>, s: seq<byte>, first: nat, cap: nat)
    requires Closed(mem) && Disjoint(mem) && Vacant(mem, a) && Grown(mem, mem', a, s, first, cap, |a|)
    ensures Closed(mem') && Disjoint(mem')
  {
    hide Part, Begin;
    assert a[..|a|] == a;
    forall x | x in mem' ensures mem'[x].next == NULL || mem'[x].next in mem' {
      if x in mem { GrownOld(mem, mem', a, s, first, cap, x); }
      else { var _ := GrownNew(mem, mem', a, s, first, cap, x); }
    }
    forall x, y | x in mem' && y in mem' && x != y && mem'[x].next == mem'[y].next ensures mem'[x].next == NULL {
      GrownApart(mem, mem', a, s, first, cap, x, y);
    }
  }

  lemma GrownApart(mem: Mem, mem': Mem, a: seq<nat>, s: seq<byte>, first: nat, cap: nat, x: nat, y: nat)
    requires Closed(mem) && Disjoint(mem) && Vacant(mem, a) && Grown(mem, mem', a, s, first, cap, |a|)
    requires x in mem' && y in mem' && x != y && mem'[x].next == mem'[y].next
    ensures mem'[x].next == NULL
  {
    hide Part, Begin, Grown;
    if x in mem && y in mem {
      GrownOld(mem, mem', a, s, first, cap, x);
      GrownOld(mem, mem', a, s, first, cap, y);
    } else if x in mem {
      GrownOld(mem, mem', a, s, first, cap, x);
      var j := GrownNew(mem, mem', a, s, first, cap, y);
    } else {
      var i := GrownNew(mem, mem', a, s, first, cap, x);
      if y in mem { GrownOld(mem, mem', a, s, first, cap, y); } else { var j := GrownNew(mem, mem', a, s, first, cap, y); }
    }
  }

  /** `chains'` are `chains` and those of the new pbufs. */
  ghost predicate ChainsGrown(chains: Chains, chains': Chains, a: seq<nat>) {
    && (forall x :: x in chains' <==> x in chains || x in a)
    && (forall x :: x in chains && x !in a ==> chains'[x] == chains[x])
    && (forall j :: 0 <= j < |a| ==> a[j] in chains' && chains'[a[j]] == a[j..])
  }

  lemma NewChainsGet(chains: Chains, a: seq<nat>, x: nat)
    ensures x in NewChains(chains, a) <==> x in chains || x in a
    ensures x in a ==> NewChains(chains, a)[x] == a[Index(a, x)..]
    ensures x in chains && x !in a ==> NewChains(chains, a)[x] == chains[x]
  {
    hide Index;
  }

  lemma NewChainAt(chains: Chains, a: seq<nat>, j: nat)
    requires Apart(a) && j < |a|
    ensures a[j] in NewChains(chains, a) && NewChains(chains, a)[a[j]] == a[j..]
  {
    hide Apart, NewChains, Index;
    NewChainsGet(chains, a, a[j]);
    var k := Index(a, a[j]);
    if k < j { ApartAt(a, k, j); } else if j < k { ApartAt(a, j, k); }
  }

  lemma NewIsGrown(chains: Chains, a: seq<nat>)
    requires Apart(a)
    ensures ChainsGrown(chains, NewChains(chains, a), a)
  {
    hide Apart, NewChains, Index;
    forall x ensures x in NewChains(chains, a) <==> x in chains || x in a { NewChainsGet(chains, a, x); }
    forall x | x in chains && x !in a ensures NewChains(chains, a)[x] == chains[x] { NewChainsGet(chains, a, x); }
    forall j | 0 <= j < |a| ensures a[j] in NewChains(chains, a) && NewChains(chains, a)[a[j]] == a[j..] {
      NewChainAt(chains, a, j);
    }
  }

  lemma GrownChainAt(mem: Mem, chains: Chains, mem': Mem, chains': Chains, a: seq<nat>, s: seq<byte>, first: nat, cap: nat, x: nat)
    requires Wf(mem, chains) && Vacant(mem, a) && Grown(mem, mem', a, s, first, cap, |a|) && x in mem'
    requires ChainsGrown(chains, chains', a)
    ensures x in chains' && chains'[x] == [x] + ChainOf(mem', chains', mem'[x].next)
  {
    hide Wf, Grown, Vacant, Part, Begin;
    WfParts(mem, chains);
    ChainKeys(mem, chains);
    GrownNull(mem, mem', a, s, first, cap);
    if x in mem {
      ChainStep(mem, chains, x);
      GrownOld(mem, mem', a, s, first, cap, x);
    } else {
      var j := GrownNew(mem, mem', a, s, first, cap, x);
      assert a[j..] == [a[j]] + a[j + 1..];
    }
  }

  lemma GrownWf(mem: Mem, chains: Chains, mem': Mem, chains': Chains, a: seq<nat>, s: seq<byte>, first: nat, cap: nat)
    requires Wf(mem, chains) && Vacant(mem, a) && Grown(mem, mem', a, s, first, cap, |a|) && ChainsGrown(chains, chains', a)
    ensures Wf(mem', chains')
  {
    hide Wf, ChainOf, Closed, Disjoint, Vacant, Grown, ChainsGrown;
    WfParts(mem, chains);
    ChainKeys(mem, chains);
    GrownKeys(mem, chains, mem', chains', a, s, first, cap);
    GrownParts(mem, mem', a, s, first, cap);
    forall x | x in mem' ensures x in chains' && chains'[x] == [x] + ChainOf(mem', chains', mem'[x].next) {
      GrownChainAt(mem, chains, mem', chains', a, s, first, cap, x);
    }
    WfFrom(mem', chains');
  }

  lemma GrownKeys(mem: Mem, chains: Chains, mem': Mem, chains': Chains, a: seq<nat>, s: seq<byte>, first: nat, cap: nat)
    requires mem.Keys == chains.Keys && Grown(mem, mem', a, s, first, cap, |a|) && ChainsGrown(chains, chains', a)
    ensures mem'.Keys == chains'.Keys
  {
    assert a[..|a|] == a;
    assert forall x :: x in mem' <==> x in chains';
  }

  lemma GrownCounted(mem: Mem, held: map<nat, nat>, mem': Mem, a: seq<nat>, s: seq<byte>, first: nat, cap: nat)
    requires Closed(mem) && Counted(mem, held, NULL) && a != [] && Vacant(mem, a) && Grown(mem, mem', a, s, first, cap, |a|)
    ensures Counted(mem', held[a[0] := 1], NULL)
  {
    hide Linked, Part, Begin;
    assert a[..|a|] == a;
    GrownLinks(mem, mem', a, s, first, cap);
    forall x | x in mem' ensures mem'[x].ref >= 1 && mem'[x].ref == References(mem', held[a[0] := 1], NULL, x) {
      if x in mem {
        CountedAt(mem, held, NULL, x);
      } else {
        var j := GrownNew(mem, mem', a, s, first, cap, x);
      }
    }
  }

  lemma GrownSized(mem: Mem, mem': Mem, a: seq<nat>, s: seq<byte>, first: nat, cap: nat)
    requires Sized(mem) && Vacant(mem, a) && Grown(mem, mem', a, s, first, cap, |a|) && |s| < 0x10000
    ensures Sized(mem')
  {
    forall x | x in mem' && x !in mem ensures |mem'[x].data| < 0x10000 && mem'[x].totLen < 0x10000 {
      var j := GrownNew(mem, mem', a, s, first, cap, x);
    }
  }

  lemma GrownTotals(mem: Mem, mem': Mem, a: seq<nat>, s: seq<byte>, first: nat, cap: nat)
    requires Closed(mem) && Totals(mem) && Vacant(mem, a) && Grown(mem, mem', a, s, first, cap, |a|) && |s| < 0x10000
    requires a != [] && Begin(|a|, first, cap) >= |s| && forall j :: 0 <= j < |a| ==> Begin(j, first, cap) <= |s|
    ensures Totals(mem')
  {
    hide Grown, PoolPbuf, Sum16, Vacant;
    forall x | x in mem' ensures mem'[x].totLen == Sum16(|mem'[x].data|, TotLen(mem', mem'[x].next)) {
      if x in mem {
        GrownOld(mem, mem', a, s, first, cap, x);
        if mem[x].next == NULL { GrownNull(mem, mem', a, s, first, cap); }
      } else {
        var j := GrownNew(mem, mem', a, s, first, cap, x);
        GrownTotal(mem, mem', a, s, first, cap, j);
      }
    }
  }

  lemma GrownNull(mem: Mem, mem': Mem, a: seq<nat>, s: seq<byte>, first: nat, cap: nat)
    requires Closed(mem) && Vacant(mem, a) && Grown(mem, mem', a, s, first, cap, |a|)
    ensures NULL !in mem'
  {
  }

  lemma GrownTotal(mem: Mem, mem': Mem, a: seq<nat>, s: seq<byte>, first: nat, cap: nat, j: nat)
    requires Closed(mem) && Vacant(mem, a) && Grown(mem, mem', a, s, first, cap, |a|) && |s| < 0x10000
    requires j < |a| && Begin(|a|, first, cap) >= |s| && Begin(j, first, cap) <= |s|
    requires j + 1 < |a| ==> Begin(j + 1, first, cap) <= |s|
    ensures a[j] in mem' && mem'[a[j]].totLen == Sum16(|mem'[a[j]].data|, TotLen(mem', mem'[a[j]].next))
  {
    hide Begin, Part, Sum16, Grown, Vacant, PoolPbuf;
    BeginGrows(j, first, cap);
    PartLength(s, j, first, cap);
    GrownAt(mem, mem', a, s, first, cap, j);
    GrownNull(mem, mem', a, s, first, cap);
    if j + 1 < |a| {
      GrownAt(mem, mem', a, s, first, cap, j + 1);
      Sum16Is(|Part(s, j, first, cap)|, |s| - Begin(j + 1, first, cap));
    } else {
      Sum16Is(|Part(s, j, first, cap)|, 0);
    }
  }

  lemma PartLength(s: seq<byte>, j: nat, first: nat, cap: nat)
    requires Begin(j, first, cap) <= |s|
    ensures var b, e := Begin(j, first, cap), Begin(j + 1, first, cap);
            b <= e && |Part(s, j, first, cap)| == (if e < |s| then e else |s|) - b
  {
    BeginGrows(j, first, cap);
  }

  lemma GrownAt(mem: Mem, mem': Mem, a: seq<nat>, s: seq<byte>, first: nat, cap: nat, j: nat)
    requires Grown(mem, mem', a, s, first, cap, |a|) && j < |a|
    ensures a[j] in mem' && mem'[a[j]].data == Part(s, j, first, cap) && mem'[a[j]].ref == 1
    ensures mem'[a[j]].next == if j + 1 < |a| then a[j + 1] else NULL
    ensures Begin(j, first, cap) <= |s| ==> mem'[a[j]].totLen == |s| - Begin(j, first, cap)
  {
    hide Part, Begin;
    assert NewAt(mem', a, s, first, cap, |a|, j);
  }

  lemma Sum16Is(x: nat, y: nat)
    requires x + y < 0x10000
    ensures Sum16(x, y) == x + y
  {
  }

  /** The contents of the new chain. */
  lemma {:induction false} GrownBytes(mem: Mem, mem': Mem, a: seq<nat>, s: seq<byte>, first: nat, cap: nat, j: nat)
    requires Grown(mem, mem', a, s, first, cap, |a|) && j <= |a| && Begin(|a|, first, cap) >= |s|
    ensures Flat(mem', a[j..]) == if Begin(j, first, cap) <= |s| then s[Begin(j, first, cap)..] else []
    decreases |a| - j
  {
    hide Begin;
    if j < |a| {
      GrownBytes(mem, mem', a, s, first, cap, j + 1);
      BeginGrows(j, first, cap);
      assert NewAt(mem', a, s, first, cap, |a|, j);
      assert a[j..][1..] == a[j + 1..];
    }
  }

  lemma BeginGrows(j: nat, first: nat, cap: nat)
    ensures Begin(j, first, cap) <= Begin(j + 1, first, cap)
  {
  }

  lemma VacantApart(mem: Mem, a: seq<nat>)
    requires Vacant(mem, a)
    ensures Apart(a)
  {
  }

  lemma GrownHead(chains: Chains, chains': Chains, a: seq<nat>)
    requires ChainsGrown(chains, chains', a) && a != []
    ensures a[0] in chains' && chains'[a[0]] == a
  {
    assert a[0..] == a;
  }

  /** Everything that a chain of new pbufs keeps. */
  lemma GrownKeeps(mem: Mem, chains: Chains, held: map<nat, nat>, mem': Mem, a: seq<nat>, s: seq<byte>, first: nat, cap: nat)
    requires Wf(mem, chains) && Counted(mem, held, NULL) && Sized(mem) && |s| < 0x10000
    requires a != [] && Vacant(mem, a) && Grown(mem, mem', a, s, first, cap, |a|)
    ensures var chains', held' := NewChains(chains, a), held[a[0] := 1];
            && Wf(mem', chains') && Counted(mem', held', NULL) && Sized(mem')
            && a[0] in mem' && a[0] in chains' && chains'[a[0]] == a && Owned(mem', chains', held', a[0])
  {
    hide Wf, Counted, Sized, Grown, NewChains, PoolPbuf, Vacant, Apart, ChainsGrown;
    var chains' := NewChains(chains, a);
    VacantApart(mem, a);
    NewIsGrown(chains, a);
    GrownHead(chains, chains', a);
    GrownWf(mem, chains, mem', chains', a, s, first, cap);
    WfParts(mem, chains);
    GrownCounted(mem, held, mem', a, s, first, cap);
    GrownSized(mem, mem', a, s, first, cap);
    forall x | x in a ensures x in mem' && mem'[x].ref == 1 {
      var j :| 0 <= j < |a| && a[j] == x;
      GrownAt(mem, mem', a, s, first, cap, j);
    }
  }

  /** The next pbuf is linked to the chain. */
  lemma GrownStep(mem: Mem, mem': Mem, a: seq<nat>, s: seq<byte>, first: nat, cap: nat, i: nat, mem'': Mem)
    requires Vacant(mem, a) && Grown(mem, mem', a, s, first, cap, i) && i < |a| && Begin(i, first, cap) <= |s|
    requires var m := mem'[a[i] := Pbuf(NULL, Part(s, i, first, cap), |s| - Begin(i, first, cap), 1)];
             mem'' == if i == 0 then m else m[a[i - 1] := m[a[i - 1]].(next := a[i])]
    ensures Grown(mem, mem'', a, s, first, cap, i + 1)
  {
    hide Begin, Part;
    assert a[..i + 1] == a[..i] + [a[i]];
    var n := i + 1;
    forall j | 0 <= j < n ensures NewAt(mem'', a, s, first, cap, n, j) {
      if j < i { assert NewAt(mem', a, s, first, cap, i, j); }
    }
  }

  /** Removing the chain again leaves what was there before. */
  lemma GrownWithout(mem: Mem, mem': Mem, a: seq<nat>, s: seq<byte>, first: nat, cap: nat)
    requires Vacant(mem, a) && Grown(mem, mem', a, s, first, cap, |a|)
    ensures Without(mem', a) == mem
  {
    hide Part, Begin;
    assert a[..|a|] == a;
    forall x ensures x in Without(mem', a) <==> x in mem { if x in a { var j :| 0 <= j < |a| && a[j] == x; } }
  }

  lemma GrownPrefix(mem: Mem, mem': Mem, a: seq<nat>, s: seq<byte>, first: nat, cap: nat, i: nat)
    requires Vacant(mem, a) && Grown(mem, mem', a, s, first, cap, i)
    ensures Vacant(mem, a[..i]) && Grown(mem, mem', a[..i], s, first, cap, i)
  {
    hide Begin, Part;
    assert a[..i][..i] == a[..i];
    forall j | 0 <= j < i ensures NewAt(mem', a[..i], s, first, cap, i, j) {
      assert NewAt(mem', a, s, first, cap, i, j);
    }
  }

  lemma GrownNone(mem: Mem, a: seq<nat>, s: seq<byte>, first: nat, cap: nat)
    ensures Grown(mem, mem, a, s, first, cap, 0)
  {
  }

  lemma NextPart(s: seq<byte>, i: nat, first: nat, cap: nat, rem: nat, n: nat)
    requires rem <= |s| && |s| - rem == Begin(i, first, cap)
    requires var room := if i == 0 then first else cap; n == if rem < room then rem else room
    ensures n <= rem && s[|s| - rem..|s| - rem + n] == Part(s, i, first, cap)
    ensures if rem - n > 0 then |s| - (rem - n) == Begin(i + 1, first, cap) else Begin(i + 1, first, cap) >= |s|
  {
  }

  /** One round of the loop: the next pbuf is initialised and the last one, if any, links to it. */
  method AddNext(pool: Pool, ghost mem: Mem, free: seq<nat>, s: seq<byte>, ghost first: nat, ghost cap: nat, i: nat,
                 last: nat, rem: nat, part: seq<byte>)
    requires i < |free| && Vacant(mem, free) && Grown(mem, pool.mem, free, s, first, cap, i)
    requires last == (if i == 0 then NULL else free[i - 1]) && rem <= |s| && |s| - rem == Begin(i, first, cap)
    requires part == Part(s, i, first, cap)
    modifies pool`mem
    ensures Grown(mem, pool.mem, free, s, first, cap, i + 1)
  {
    hide Begin, Part, Grown, Vacant;
    ghost var m := pool.mem;
    GrownLast(mem, m, free, s, first, cap, i);
    VacantAt(mem, free, i);
    pool.mem := pool.mem[free[i] := Pbuf(NULL, part, rem, 1)];
    if i > 0 {
      pool.mem := pool.mem[last := pool.mem[last].(next := free[i])];
    }
    GrownStep(mem, m, free, s, first, cap, i, pool.mem);
  }

  lemma VacantAt(mem: Mem, a: seq<nat>, j: nat)
    requires Vacant(mem, a) && j < |a|
    ensures a[j] != NULL && a[j] !in mem
  {
  }

  /** `pbuf_alloc` with `PBUF_POOL`: `free` are the addresses that the pool has, in the order in
      which it gives them out, `s` is what happens to be in the memory that they get. There is a
      chain for all the bytes, or nothing has changed. */
  method AllocPool(pool: Pool, free: seq<nat>, s: seq<byte>, first: nat, cap: nat) returns (p: nat)
    requires pool.Valid() && Vacant(pool.mem, free) && |s| < 0x10000 && first > 0 && cap > 0
    modifies pool
    ensures pool.Valid() && (Totals(old(pool.mem)) ==> Totals(pool.mem))
    ensures p == NULL <==> |free| < Needed(|s|, 0, first, cap)
    ensures p == NULL ==> pool.mem == old(pool.mem)
    ensures p != NULL ==>
      var n := Needed(|s|, 0, first, cap);
      && n <= |free| && p in pool.chains && pool.chains[p] == free[..n] && Bytes(pool.mem, pool.chains, p) == s
      && Grown(old(pool.mem), pool.mem, free, s, first, cap, n) && Owned(pool.mem, pool.chains, pool.held, p)
      && pool.held == old(pool.held)[p := 1]
  {
    hide Wf, Counted, Totals, Sized, Bytes, Begin, Part, Needed, Grown, Owned, Vacant;
    ghost var mem, chains, held := pool.mem, pool.chains, pool.held;
    var i: nat, rem: nat, room, last, more := 0, |s|, first, NULL, true;
    p := NULL;
    GrownNone(mem, free, s, first, cap);
    BeginZero(first, cap);
    while more
      invariant i <= |free| && Grown(mem, pool.mem, free, s, first, cap, i) && pool.chains == chains && pool.held == held
      invariant room == (if i == 0 then first else cap) && (i > 0 || more)
      invariant p == (if i == 0 then NULL else free[0]) && last == (if i == 0 then NULL else free[i - 1])
      invariant i > 0 ==> Begin(i - 1, first, cap) <= |s| && free[0] != NULL
      invariant if more then rem == |s| - Begin(i, first, cap) && i + Needed(|s|, i, first, cap) == Needed(|s|, 0, first, cap)
                else Begin(i, first, cap) >= |s| && i == Needed(|s|, 0, first, cap)
      decreases more, |free| - i
    {
      NeededStep(|s|, i, first, cap);
      if i == |free| {
        if p != NULL { GiveBack(pool, mem, free, s, first, cap); } else { GrownNothing(mem, pool.mem, free, s, first, cap); }
        return NULL;
      }
      var q := free[i];
      var qlen := if rem < room then rem else room;
      NextPart(s, i, first, cap, rem, qlen);
      VacantAt(mem, free, 0);
      AddNext(pool, mem, free, s, first, cap, i, last, rem, s[|s| - rem..|s| - rem + qlen]);
      if p == NULL { p := q; }
      last := q;
      rem := rem - qlen;
      room := cap;
      i := i + 1;
      more := rem > 0;
    }
    Settle(pool, mem, free, s, first, cap, i);
  }

  lemma {:induction false} BeginBelow(j: nat, k: nat, first: nat, cap: nat)
    requires j <= k
    ensures Begin(j, first, cap) <= Begin(k, first, cap)
    decreases k
  {
    if j < k { BeginBelow(j, k - 1, first, cap); }
  }

  lemma BeginZero(first: nat, cap: nat)
    ensures Begin(0, first, cap) == 0
  {
  }

  lemma NeededStep(n: nat, j: nat, first: nat, cap: nat)
    requires first > 0 && cap > 0
    ensures Needed(n, j, first, cap) == 1 + if Begin(j + 1, first, cap) < n then Needed(n, j + 1, first, cap) else 0
  {
  }

  lemma GrownNothing(mem: Mem, mem': Mem, a: seq<nat>, s: seq<byte>, first: nat, cap: nat)
    requires Grown(mem, mem', a, s, first, cap, 0)
    ensures mem' == mem
  {
  }

  lemma GrownLast(mem: Mem, mem': Mem, a: seq<nat>, s: seq<byte>, first: nat, cap: nat, i: nat)
    requires Grown(mem, mem', a, s, first, cap, i)
    ensures i > 0 ==> a[i - 1] in mem'
  {
    if i > 0 { assert NewAt(mem', a, s, first, cap, i, i - 1); }
  }

  /** The chain is complete. */
  ghost method Settle(pool: Pool, mem: Mem, a: seq<nat>, s: seq<byte>, first: nat, cap: nat, i: nat)
    requires Wf(mem, pool.chains) && Counted(mem, pool.held, NULL) && Sized(mem) && |s| < 0x10000
    requires 0 < i <= |a| && Vacant(mem, a) && Grown(mem, pool.mem, a, s, first, cap, i)
    requires Begin(i - 1, first, cap) <= |s| <= Begin(i, first, cap)
    modifies pool`chains, pool`held
    ensures pool.Valid() && (Totals(mem) ==> Totals(pool.mem)) && pool.held == old(pool.held)[a[0] := 1]
    ensures a[0] in pool.chains && pool.chains[a[0]] == a[..i] && Bytes(pool.mem, pool.chains, a[0]) == s
    ensures Owned(pool.mem, pool.chains, pool.held, a[0]) && a[0] != NULL
  {
    hide Wf, Counted, Totals, Sized, Flat, Begin, Part, Grown, NewChains, Single;
    var c := a[..i];
    GrownPrefix(mem, pool.mem, a, s, first, cap, i);
    GrownKeeps(mem, pool.chains, pool.held, pool.mem, c, s, first, cap);
    WfParts(mem, pool.chains);
    forall j | 0 <= j < i ensures Begin(j, first, cap) <= |s| { BeginBelow(j, i - 1, first, cap); }
    if Totals(mem) { GrownTotals(mem, pool.mem, c, s, first, cap); }
    GrownBytes(mem, pool.mem, c, s, first, cap, 0);
    BeginZero(first, cap);
    assert c[0..] == c && s[0..] == s;
    pool.chains := NewChains(pool.chains, c);
    pool.held := pool.held[a[0] := 1];
  }

  /** The pool is empty before the chain is complete: it is freed again. */
  method GiveBack(pool: Pool, ghost mem: Mem, a: seq<nat>, ghost s: seq<byte>, ghost first: nat, ghost cap: nat)
    requires Wf(mem, pool.chains) && Counted(mem, pool.held, NULL) && Sized(mem) && |s| < 0x10000
    requires a != [] && Vacant(mem, a) && Grown(mem, pool.mem, a, s, first, cap, |a|)
    modifies pool
    ensures pool.Valid() && pool.mem == mem
  {
    hide Wf, Counted, Sized, Grown, NewChains, Single;
    GrownKeeps(mem, pool.chains, pool.held, pool.mem, a, s, first, cap);
    pool.chains := NewChains(pool.chains, a);
    pool.held := pool.held[a[0] := 1];
    ghost var m := pool.mem;
    OwnedSingle(m, pool.chains, pool.held, a[0]);
    var _, gone := pool.Free(a[0]);
    FreeOwned(m, a, gone);
    GrownWithout(mem, m, a, s, first, cap);
  }
}
