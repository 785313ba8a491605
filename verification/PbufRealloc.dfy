/** Shrinking a chain of packet buffers at its end (`pbuf_realloc`). */
module PbufRealloc {
  import opened MachineInts
  import opened PbufStore
  import opened PbufLinking

  /** `mem` with `d` taken off the totals of the pbufs `c`. */
  function Reduced(mem: Mem, c: seq<nat>, d: nat): Mem {
    map p | p in mem :: if p in c then mem[p].(totLen := Diff16(mem[p].totLen, d)) else mem[p]
  }

  lemma ReducedNext(mem: Mem, c: seq<nat>, i: nat, d: nat)
    requires i < |c| && c[i] in mem && c[i] !in c[..i]
    ensures c[i] in Reduced(mem, c[..i], d) && Reduced(mem, c[..i], d)[c[i]] == mem[c[i]]
    ensures Reduced(mem, c[..i + 1], d) ==
            Reduced(mem, c[..i], d)[c[i] := mem[c[i]].(totLen := Diff16(mem[c[i]].totLen, d))]
  {
    assert c[..i + 1] == c[..i] + [c[i]];
  }

  /** The memory when the chain `c` has been cut behind its `k`-th pbuf, of which `rem` bytes
      stay, and before the rest is freed. */
  function Shrunk(mem: Mem, c: seq<nat>, k: nat, rem: nat, d: nat): Mem
    requires k < |c|
  {
    var m := Reduced(mem, c[..k], d);
    if c[k] in m && rem <= |m[c[k]].data|
    then m[c[k] := m[c[k]].(data := m[c[k]].data[..rem], totLen := rem, next := NULL)] else m
  }

  /** The first `n` elements of `s`, all of them if there are fewer. */
  function Prefix(s: seq<byte>, n: nat): seq<byte> {
    if n <= |s| then s[..n] else s
  }

  /** Where the cut is: `rem` bytes of the `k`-th pbuf are needed for `len` bytes in all. */
  ghost predicate CutPoint(mem: Mem, c: seq<nat>, k: nat, rem: nat, len: nat) {
    k < |c| && c[k] in mem && rem <= |mem[c[k]].data| && |Flat(mem, c[..k])| + rem == len
  }

  lemma ShrunkFields(mem: Mem, chains: Chains, p: nat, k: nat, rem: nat, d: nat)
    requires Wf(mem, chains) && p in mem && p in chains && k < |chains[p]|
    requires chains[p][k] in mem && rem <= |mem[chains[p][k]].data|
    ensures var c := chains[p]; var m := Shrunk(mem, c, k, rem, d);
            && m.Keys == mem.Keys
            && (forall x :: x in mem ==> m[x].ref == mem[x].ref && m[x].next == (if x == c[k] then NULL else mem[x].next))
            && (forall x :: x in mem && x != c[k] ==> m[x].data == mem[x].data)
            && (forall x :: x in mem && x !in c[..k + 1] ==> m[x] == mem[x])
            && (forall x :: x in c[..k] && x in mem ==> m[x].totLen == Diff16(mem[x].totLen, d))
            && m[c[k]].data == mem[c[k]].data[..rem] && m[c[k]].totLen == rem
            && c[..k + 1] == c[..k] + [c[k]] && c[k] !in c[..k]
  {
    hide Wf, Diff16;
    NextSurvives(mem, chains, p, k);
    var c := chains[p];
    assert c[..k + 1] == c[..k] + [c[k]];
  }

  /** The totals of the front part after the cut. */
  lemma ShrunkTotals(mem: Mem, chains: Chains, p: nat, k: nat, rem: nat, len: nat)
    requires Wf(mem, chains) && Totals(mem) && Sized(mem)
    requires p in mem && p in chains && !Linked(mem, p)
    requires CutPoint(mem, chains[p], k, rem, len) && len < mem[p].totLen
    ensures Totals(Shrunk(mem, chains[p], k, rem, mem[p].totLen - len))
  {
    hide Wf, Linked, Sum16, Diff16, Shrunk;
    var c, d := chains[p], mem[p].totLen - len;
    var m := Shrunk(mem, c, k, rem, d);
    ShrunkFields(mem, chains, p, k, rem, d);
    BytesNull(mem, chains);
    forall x | x in m ensures m[x].totLen == Sum16(|m[x].data|, TotLen(m, m[x].next)) {
      if x == c[k] {
        Sum16Zero(rem);
      } else if x in c[..k] {
        FrontTotal(mem, chains, p, k, rem, len, x);
      } else {
        NextOf(mem, chains, x);
        CutKeepsOut(mem, chains, p, k, x);
      }
    }
  }

  lemma FrontTotal(mem: Mem, chains: Chains, p: nat, k: nat, rem: nat, len: nat, x: nat)
    requires Wf(mem, chains) && Totals(mem) && Sized(mem) && p in mem && p in chains
    requires CutPoint(mem, chains[p], k, rem, len) && len < mem[p].totLen && x in chains[p][..k]
    ensures x in mem
    ensures var m := Shrunk(mem, chains[p], k, rem, mem[p].totLen - len);
            x in m && m[x].totLen == Sum16(|m[x].data|, TotLen(m, m[x].next))
  {
    hide Wf, Sum16, Diff16, Shrunk, Flat;
    var c, d := chains[p], mem[p].totLen - len;
    var i :| 0 <= i < k && c[i] == x;
    ChainAt(mem, chains, p, i);
    ChainAt(mem, chains, p, i + 1);
    ShrunkFields(mem, chains, p, k, rem, d);
    assert mem[x].totLen == Sum16(|mem[x].data|, mem[c[i + 1]].totLen);
    if i + 1 == k {
      CutTotal(mem, chains, p, k, rem, len);
    } else {
      assert c[i + 1] == c[..k][i + 1];
    }
    SumMinus(|mem[x].data|, mem[c[i + 1]].totLen, d);
  }

  lemma SumMinus(a: nat, b: nat, d: nat)
    requires b < 0x10000
    ensures Diff16(Sum16(a, b), d) == Sum16(a, Diff16(b, d))
  {
  }

  /** The total of the pbuf at the cut, less what is shrunk, is what stays of it. */
  lemma CutTotal(mem: Mem, chains: Chains, p: nat, k: nat, rem: nat, len: nat)
    requires Wf(mem, chains) && Totals(mem) && Sized(mem) && p in mem && p in chains
    requires CutPoint(mem, chains[p], k, rem, len) && len < mem[p].totLen
    ensures Diff16(mem[chains[p][k]].totLen, mem[p].totLen - len) == rem
  {
    hide Wf, Totals, Sum16, Diff16, Flat, ChainOf;
    var c := chains[p];
    ChainAt(mem, chains, p, k);
    TotalIsLength(mem, chains, p);
    TotalIsLength(mem, chains, c[k]);
    ChainStep(mem, chains, p);
    ChainOfIs(mem, chains, p);
    ChainOfIs(mem, chains, c[k]);
    assert c == c[..k] + c[k..];
    FlatConcat(mem, c[..k], c[k..]);
    CutArith(|Flat(mem, c[..k])|, |Flat(mem, c[k..])|, len, rem);
  }

  lemma ChainOfIs(mem: Mem, chains: Chains, p: nat)
    requires Wf(mem, chains) && p in mem
    ensures p in chains && ChainOf(mem, chains, p) == chains[p]
  {
  }

  lemma CutArith(front: nat, back: nat, len: nat, rem: nat)
    requires front + rem == len && rem < 0x10000 && len < (front + back) % 0x10000
    ensures Diff16(back % 0x10000, (front + back) % 0x10000 - len) == rem
  {
    var i, j := back / 0x10000, (front + back) / 0x10000;
    assert back % 0x10000 - ((front + back) % 0x10000 - len) == rem + 0x10000 * (j - i);
    ModUp(rem, j - i);
  }

  lemma ModUp(b: nat, k: nat)
    requires b < 0x10000
    ensures (b + 0x10000 * k) % 0x10000 == b
    decreases k
  {
    if k > 0 {
      ModUp(b, k - 1);
      assert b + 0x10000 * k == (b + 0x10000 * (k - 1)) + 0x10000;
    }
  }

  /** Everything the cut keeps; the rest of the chain has one reference too many. */
  lemma ShrunkKeeps(mem: Mem, chains: Chains, held: map<nat, nat>, p: nat, k: nat, rem: nat, len: nat)
    requires Wf(mem, chains) && Counted(mem, held, NULL) && Totals(mem) && Sized(mem)
    requires p in mem && p in chains && !Linked(mem, p)
    requires CutPoint(mem, chains[p], k, rem, len) && len < mem[p].totLen
    ensures var c := chains[p]; var m := Shrunk(mem, c, k, rem, mem[p].totLen - len);
            && Wf(m, CutChains(chains, c, k)) && Counted(m, held, mem[c[k]].next) && Sized(m) && Totals(m)
            && Flat(m, c[..k + 1]) == Prefix(Flat(mem, c), len)
  {
    hide Wf, Counted, Totals, Linked, Shrunk, Diff16, Sum16, CutChains, Flat, Prefix;
    var c, d := chains[p], mem[p].totLen - len;
    var m := Shrunk(mem, c, k, rem, d);
    WfParts(mem, chains);
    ShrunkFields(mem, chains, p, k, rem, d);
    ShrunkTotals(mem, chains, p, k, rem, len);
    CutWf(mem, chains, p, k);
    UnlinkCounted(mem, held, c[k]);
    SameParts(Unlinked(mem, c[k]), m, CutChains(chains, c, k), held, mem[c[k]].next);
    ShrunkSized(mem, m, c, k, d);
    ShrunkFlat(mem, m, c, k, rem, len);
  }

  lemma ShrunkSized(mem: Mem, m: Mem, c: seq<nat>, k: nat, d: nat)
    requires Sized(mem) && k < |c| && m.Keys == mem.Keys && c[k] in m
    requires forall x :: x in mem && x != c[k] ==> m[x].data == mem[x].data
    requires forall x :: x in mem && x !in c[..k + 1] ==> m[x] == mem[x]
    requires forall x :: x in c[..k] && x in mem ==> m[x].totLen == Diff16(mem[x].totLen, d)
    requires |m[c[k]].data| < 0x10000 && m[c[k]].totLen < 0x10000 && c[..k + 1] == c[..k] + [c[k]]
    ensures Sized(m)
  {
    hide Diff16;
    forall x | x in m ensures |m[x].data| < 0x10000 && m[x].totLen < 0x10000 {
      DiffSmall(mem[x].totLen, d);
    }
  }

  lemma ShrunkFlat(mem: Mem, m: Mem, c: seq<nat>, k: nat, rem: nat, len: nat)
    requires CutPoint(mem, c, k, rem, len) && m.Keys == mem.Keys && c[k] !in c[..k]
    requires forall x :: x in mem && x != c[k] ==> m[x].data == mem[x].data
    requires m[c[k]].data == mem[c[k]].data[..rem]
    ensures Flat(m, c[..k + 1]) == Prefix(Flat(mem, c), len)
  {
    assert c[..k + 1] == c[..k] + [c[k]] && c == c[..k] + c[k..] && c[k..][1..] == c[k + 1..];
    FlatConcat(m, c[..k], [c[k]]);
    FlatConcat(mem, c[..k], c[k..]);
    FlatSame(mem, m, c[..k]);
    assert [c[k]][1..] == [];
    assert Flat(m, [c[k]]) == m[c[k]].data;
  }

  /** The state of the search for the cut at the `j`-th pbuf. */
  lemma SearchAt(mem: Mem, chains: Chains, p: nat, j: nat, d: nat)
    requires Wf(mem, chains) && p in mem && p in chains && j < |chains[p]|
    ensures var c := chains[p]; var m := Reduced(mem, c[..j], d);
            && c[j] in mem && c[j] in m && m[c[j]] == mem[c[j]] && c[j] !in c[..j]
            && mem[c[j]].next == (if j + 1 < |c| then c[j + 1] else NULL)
            && m[c[j] := m[c[j]].(totLen := Diff16(m[c[j]].totLen, d))] == Reduced(mem, c[..j + 1], d)
            && |Flat(mem, c[..j + 1])| == |Flat(mem, c[..j])| + |mem[c[j]].data|
  {
    hide Wf, Diff16;
    var c := chains[p];
    NextSurvives(mem, chains, p, j);
    ReducedNext(mem, c, j, d);
    assert c[..j + 1] == c[..j] + [c[j]];
    FlatConcat(mem, c[..j], [c[j]]);
    assert [c[j]][1..] == [];
    assert Flat(mem, [c[j]]) == mem[c[j]].data;
  }

  /** The search does not run off the chain: fewer bytes are wanted than it holds. */
  lemma SearchGoesOn(mem: Mem, chains: Chains, p: nat, j: nat, rem: nat, len: nat)
    requires Wf(mem, chains) && Totals(mem) && p in mem && p in chains && j < |chains[p]| && chains[p][j] in mem
    requires |Flat(mem, chains[p][..j])| + rem == len && len < mem[p].totLen && rem > |mem[chains[p][j]].data|
    requires |Flat(mem, chains[p][..j + 1])| == |Flat(mem, chains[p][..j])| + |mem[chains[p][j]].data|
    ensures j + 1 < |chains[p]|
  {
    hide Wf, Totals, Flat, ChainOf;
    TotalIsLength(mem, chains, p);
    ChainOfIs(mem, chains, p);
    assert chains[p][..|chains[p]|] == chains[p];
  }

  lemma SearchStart(mem: Mem, chains: Chains, p: nat, d: nat)
    requires Wf(mem, chains) && p in mem
    ensures p in chains && |chains[p]| > 0 && chains[p][0] == p && chains[p] == ChainOf(mem, chains, p)
    ensures Reduced(mem, chains[p][..0], d) == mem && Flat(mem, chains[p][..0]) == []
  {
  }

  /** The chain that stays after the cut, and that dropping the rest leaves it alone. */
  lemma FrontStays(mem: Mem, m: Mem, chains: Chains, p: nat, k: nat, gone: nat)
    requires Wf(mem, chains) && p in mem && p in chains && k < |chains[p]| && m.Keys == mem.Keys
    requires gone <= |chains[p]| - k - 1
    ensures var c := chains[p]; var rest := c[k + 1..];
            && Bytes(AfterDrop(m, rest, gone), ChainsWithout(CutChains(chains, c, k), rest[..gone]), p)
               == Flat(m, c[..k + 1])
            && p in AfterDrop(m, rest, gone)
  {
    hide Wf, AfterDrop, ChainsWithout, CutChains, Flat;
    var c := chains[p];
    var rest := c[k + 1..];
    var m', chains' := AfterDrop(m, rest, gone), ChainsWithout(CutChains(chains, c, k), rest[..gone]);
    ChainStep(mem, chains, p);
    forall x | x in c[..k + 1] ensures x in m' && x in m && m'[x] == m[x] && x !in rest {
      FrontNotRest(mem, chains, p, k, x);
      DropOutside(m, CutChains(chains, c, k), rest, gone, x);
    }
    assert p == c[..k + 1][0];
    DropOutside(m, CutChains(chains, c, k), rest, gone, p);
    CutChainsGet(chains, c, k, p);
    assert Front(c, |c| - k - 1) == c[..k + 1];
    FlatSame(m, m', c[..k + 1]);
  }

  lemma FrontNotRest(mem: Mem, chains: Chains, p: nat, k: nat, x: nat)
    requires Wf(mem, chains) && p in mem && p in chains && k < |chains[p]| && x in chains[p][..k + 1]
    ensures x in mem && x !in chains[p][k + 1..]
  {
    hide Wf;
    var c := chains[p];
    var i :| 0 <= i < k + 1 && c[i] == x;
    ChainAt(mem, chains, p, i);
    if x in c[k + 1..] {
      var j :| k + 1 <= j < |c| && c[j] == x;
      ChainDistinct(mem, chains, p, i, j);
    }
  }

  /** The pbuf behind the cut is the head of the rest of the chain. */
  lemma RestOfCut(mem: Mem, m: Mem, chains: Chains, p: nat, k: nat)
    requires Wf(mem, chains) && p in mem && p in chains && k < |chains[p]| && m.Keys == mem.Keys
    requires chains[p][k] in mem
    ensures var c := chains[p]; var next := mem[c[k]].next;
            && (next == NULL || next in m) && ChainOf(m, CutChains(chains, c, k), next) == c[k + 1..]
  {
    hide Wf, CutChains;
    var c := chains[p];
    ChainAt(mem, chains, p, k);
    BytesNull(mem, chains);
    if k + 1 < |c| {
      ChainAt(mem, chains, p, k + 1);
      CutChainsGet(chains, c, k, c[k + 1]);
      NextSurvives(mem, chains, p, k + 1);
      ChainStep(mem, chains, c[k + 1]);
    }
  }
}
