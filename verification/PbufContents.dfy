/** Reading and writing the contents of chains of packet buffers: every operation acts on
    the chain as on one flat byte string, however the string is cut into pbufs. */
module PbufContents {
  import opened MachineInts
  import opened PbufStore
  import opened PbufLinking
  import opened PbufPool

  // ---------------------------------------------------------------- flat strings

  /** At most `n` elements of `s` from `off` on. */
  function Slice(s: seq<byte>, off: nat, n: nat): seq<byte> {
    if off >= |s| then [] else if n <= |s| - off then s[off..off + n] else s[off..]
  }

  /** `s` with the bytes from `off` on replaced by `b`. */
  function Overwrite(s: seq<byte>, off: nat, b: seq<byte>): (r: seq<byte>)
    requires off + |b| <= |s|
    ensures |r| == |s|
  {
    s[..off] + b + s[off + |b|..]
  }

  lemma OverwriteMore(s: seq<byte>, off: nat, a: seq<byte>, b: seq<byte>)
    requires off + |a| + |b| <= |s|
    ensures Overwrite(Overwrite(s, off, a), off + |a|, b) == Overwrite(s, off, a + b)
  {
  }

  lemma SliceStep(a: seq<byte>, b: seq<byte>, off: nat, n: nat)
    ensures off >= |a| ==> Slice(a + b, off, n) == Slice(b, off - |a|, n)
    ensures off <= |a| && n >= |a| - off ==> Slice(a + b, off, n) == a[off..] + Slice(b, 0, n - (|a| - off))
    ensures off <= |a| && n < |a| - off ==> Slice(a + b, off, n) == a[off..off + n]
  {
  }

  lemma SliceIs(s: seq<byte>, off: nat, n: nat)
    ensures Slice(s, off, n) == if off >= |s| then [] else if off + n <= |s| then s[off..off + n] else s[off..]
  {
  }

  // --------------------------------------------------------------------- reading

  /** `pbuf_copy_partial`; the bytes written to the buffer are the result. */
  method CopyPartial(mem: Mem, ghost chains: Chains, buf: nat, len: nat, offset: nat) returns (copied: seq<byte>)
    requires Wf(mem, chains) && (buf == NULL || buf in mem)
    ensures copied == Slice(Bytes(mem, chains, buf), offset, len)
    ensures var s := Bytes(mem, chains, buf);
            copied == if offset >= |s| then [] else if offset + len <= |s| then s[offset..offset + len] else s[offset..]
  {
    hide Wf, Bytes, Slice, ChainOf;
    copied := [];
    var p, left: nat, off: nat := buf, len, offset;
    BytesNull(mem, chains);
    ghost var all := Slice(Bytes(mem, chains, buf), offset, len);
    SliceIs(Bytes(mem, chains, buf), offset, len);
    while left != 0 && p != NULL
      invariant (p == NULL || p in mem) && copied + Slice(Bytes(mem, chains, p), off, left) == all
      decreases |ChainOf(mem, chains, p)|
    {
      BytesStep(mem, chains, p);
      NextOf(mem, chains, p);
      SliceRound(copied, mem[p].data, Bytes(mem, chains, mem[p].next), off, left);
      if off != 0 && off >= |mem[p].data| {
        off := off - |mem[p].data|;
      } else {
        var n := |mem[p].data| - off;
        if n > left {
          n := left;
        }
        copied := copied + mem[p].data[off..off + n];
        left := left - n;
        off := 0;
      }
      p := mem[p].next;
    }
    SliceNone(Bytes(mem, chains, p));
    SliceEmpty(off, left);
  }

  /** One round of copying: what is copied now and what is left to copy. */
  lemma SliceRound(copied: seq<byte>, a: seq<byte>, b: seq<byte>, off: nat, n: nat)
    ensures off >= |a| ==> Slice(a + b, off, n) == Slice(b, off - |a|, n)
    ensures off <= |a| ==> var m := if |a| - off > n then n else |a| - off;
      copied + a[off..off + m] + Slice(b, 0, n - m) == copied + Slice(a + b, off, n)
  {
    hide Slice;
    SliceStep(a, b, off, n);
    SliceNone(b);
    if off <= |a| {
      var m := if |a| - off > n then n else |a| - off;
      assert copied + a[off..off + m] + Slice(b, 0, n - m) == copied + (a[off..off + m] + Slice(b, 0, n - m));
    }
  }

  lemma SliceNone(s: seq<byte>)
    ensures forall off: nat :: Slice(s, off, 0) == []
  {
  }

  lemma SliceEmpty(off: nat, n: nat)
    ensures Slice([], off, n) == []
  {
  }

  /** `pbuf_skip`: the pbuf that holds byte `offset` and the byte's place in it, or null and
      the excess if the chain is too short. */
  method Skip(mem: Mem, ghost chains: Chains, start: nat, offset: nat) returns (q: nat, out: nat, ghost i: nat)
    requires Wf(mem, chains) && (start == NULL || start in mem)
    ensures var c := ChainOf(mem, chains, start);
            && i <= |c| && q == (if i < |c| then c[i] else NULL) && (i < |c| ==> q != NULL)
            && |Flat(mem, c[..i])| + out == offset
            && (q != NULL ==> q in mem && out < |mem[q].data| && ChainOf(mem, chains, q) == c[i..])
    ensures q == NULL <==> offset >= |Bytes(mem, chains, start)|
  {
    hide Wf, Flat, ChainOf;
    ghost var c := ChainOf(mem, chains, start);
    q, out, i := start, offset, 0;
    DropStart(mem, chains, start);
    SkipStart(mem, c);
    while q != NULL && |mem[q].data| <= out
      invariant i <= |c| && q == if i < |c| then c[i] else NULL
      invariant q == NULL || q in mem
      invariant |Flat(mem, c[..i])| + out == offset
      invariant ChainOf(mem, chains, q) == c[i..]
      decreases |c| - i
    {
      BytesStep(mem, chains, q);
      NextOf(mem, chains, q);
      SkipStep(mem, c, i);
      ChainAt(mem, chains, start, i);
      out := out - |mem[q].data|;
      q := mem[q].next;
      i := i + 1;
    }
    SkipEnd(mem, c, i);
  }

  lemma SkipStart(mem: Mem, c: seq<nat>)
    ensures c[..0] == [] && c[0..] == c && Flat(mem, []) == []
  {
  }

  lemma SkipStep(mem: Mem, c: seq<nat>, i: nat)
    requires i < |c| && c[i] in mem
    ensures Flat(mem, c[..i + 1]) == Flat(mem, c[..i]) + mem[c[i]].data
    ensures c[i..] == [c[i]] + c[i + 1..]
  {
    assert c[..i + 1] == c[..i] + [c[i]];
    FlatConcat(mem, c[..i], [c[i]]);
    assert [c[i]][1..] == [];
    assert Flat(mem, [c[i]]) == mem[c[i]].data;
  }

  lemma SkipEnd(mem: Mem, c: seq<nat>, i: nat)
    requires i <= |c|
    ensures Flat(mem, c) == Flat(mem, c[..i]) + Flat(mem, c[i..])
    ensures i == |c| ==> Flat(mem, c[i..]) == []
    ensures i < |c| && c[i] in mem ==> |Flat(mem, c[i..])| >= |mem[c[i]].data|
  {
    assert c == c[..i] + c[i..];
    FlatConcat(mem, c[..i], c[i..]);
  }

  /** `pbuf_try_get_at`: the byte at `offset`, or -1 beyond the end. */
  method TryGetAt(mem: Mem, ghost chains: Chains, p: nat, offset: nat) returns (b: int)
    requires Wf(mem, chains) && (p == NULL || p in mem)
    ensures var s := Bytes(mem, chains, p);
            b == if offset < |s| then s[offset] else -1
  {
    hide Wf, Flat, ChainOf;
    var q, out, i := Skip(mem, chains, p, offset);
    if q != NULL && |mem[q].data| > out {
      GetByte(mem, ChainOf(mem, chains, p), i, out);
      return mem[q].data[out];
    }
    return -1;
  }

  lemma GetByte(mem: Mem, c: seq<nat>, i: nat, out: nat)
    requires i < |c| && c[i] in mem && out < |mem[c[i]].data|
    ensures |Flat(mem, c[..i])| + out < |Flat(mem, c)|
    ensures Flat(mem, c)[|Flat(mem, c[..i])| + out] == mem[c[i]].data[out]
  {
    hide Flat;
    SkipStep(mem, c, i);
    SkipEnd(mem, c, i + 1);
  }

  // ------------------------------------------------------------------- comparing

  /** `pbuf_memcmp`: 0 if the `n` bytes of `s2` are found at `offset`, 0xffff if the chain is
      too short, otherwise (up to 0xffff) one more than the first place where they differ. */
  method Memcmp(mem: Mem, ghost chains: Chains, p: nat, offset: nat, s2: seq<byte>) returns (r: nat)
    requires Wf(mem, chains) && Totals(mem) && p in mem && |s2| <= 0xffff
    ensures var s, n := Bytes(mem, chains, p), |s2|;
            if mem[p].totLen < offset + n then r == 0xffff
            else
              && offset + n <= |s|
              && (r == 0 <==> s[offset..offset + n] == s2)
              && (r > 0 ==> exists i :: 0 <= i < n && s[offset + i] != s2[i] && r == i + 1
                                       && s[offset..offset + i] == s2[..i])
  {
    hide Wf, Flat, ChainOf, Totals;
    TotalIsLength(mem, chains, p);
    if mem[p].totLen < offset + |s2| {
      return 0xffff;
    }
    ghost var s := Bytes(mem, chains, p);
    var q, start, k := Skip(mem, chains, p, offset);
    RestFrom(mem, chains, p, q, start, k, offset);
    var i := 0;
    while i < |s2|
      invariant 0 <= i <= |s2| && s[offset..offset + i] == s2[..i]
    {
      var a := TryGetAt(mem, chains, q, start + i);
      assert a == Bytes(mem, chains, q)[start..][i] == s[offset..][i];
      if a != s2[i] {
        assert s[offset..offset + |s2|][i] == s[offset + i];
        return i + 1;
      }
      assert s[offset..offset + i + 1] == s[offset..offset + i] + [s[offset + i]];
      i := i + 1;
    }
    assert s2[..|s2|] == s2;
    return 0;
  }

  /** Reading from where `pbuf_skip` stopped is reading at the original offset. */
  lemma RestFrom(mem: Mem, chains: Chains, p: nat, q: nat, start: nat, k: nat, offset: nat)
    requires Wf(mem, chains) && p in mem && (q == NULL || q in mem)
    requires var c := ChainOf(mem, chains, p);
             k <= |c| && q == (if k < |c| then c[k] else NULL) && |Flat(mem, c[..k])| + start == offset
    requires q != NULL ==> ChainOf(mem, chains, q) == ChainOf(mem, chains, p)[k..]
    ensures var s, t := Bytes(mem, chains, p), Bytes(mem, chains, q);
            q != NULL && offset <= |s| ==> start <= |t| && t[start..] == s[offset..]
  {
    hide Wf, Flat, ChainOf;
    SkipEnd(mem, ChainOf(mem, chains, p), k);
  }

  /** Whether `w` occurs in `s` at place `i`. */
  ghost predicate OccursAt(s: seq<byte>, w: seq<byte>, i: nat) {
    i + |w| <= |s| && s[i..i + |w|] == w
  }

  /** `pbuf_memfind`: the first occurrence from `start` on within the total length, which is that of
      the contents modulo 65536; 0xffff if there is none.  A chain of 65535 bytes can hold an
      (empty) occurrence at 0xffff, which reads as none. */
  method Memfind(mem: Mem, ghost chains: Chains, p: nat, w: seq<byte>, start: nat) returns (r: nat)
    requires Wf(mem, chains) && Totals(mem) && p in mem && |w| <= 0xffff && start <= 0xffff
    ensures var s := Bytes(mem, chains, p); var n := |s| % 0x10000;
            && (r != 0xffff ==> start <= r && r + |w| <= n && OccursAt(s, w, r))
            && (forall i :: start <= i < r && i + |w| <= n ==> !OccursAt(s, w, i))
            && r <= 0xffff
  {
    hide Wf, Flat, ChainOf, Totals;
    TotalIsLength(mem, chains, p);
    var maxStart := (mem[p].totLen - |w|) % 0x10000;
    if mem[p].totLen >= |w| + start {
      var i := start;
      while i <= maxStart
        invariant start <= i <= maxStart + 1
        invariant forall j :: start <= j < i ==> !OccursAt(Bytes(mem, chains, p), w, j)
      {
        var plus := Memcmp(mem, chains, p, i, w);
        if plus == 0 {
          return i;
        }
        i := i + 1;
      }
    }
    return 0xffff;
  }

  // --------------------------------------------------------------------- writing

  /** `mem` with `b` written into the data of `p` from `off` on. */
  function Written(mem: Mem, p: nat, off: nat, b: seq<byte>): Mem
    requires p in mem && off + |b| <= |mem[p].data|
  {
    mem[p := mem[p].(data := Overwrite(mem[p].data, off, b))]
  }

  /** Only data of the pbufs `c` differs, and no length does. */
  ghost predicate SameShape(mem: Mem, mem': Mem, c: seq<nat>) {
    && mem'.Keys == mem.Keys
    && (forall p :: p in mem ==> mem'[p] == mem[p].(data := mem'[p].data) && |mem'[p].data| == |mem[p].data|)
    && (forall p :: p in mem && p !in c ==> mem'[p] == mem[p])
  }

  lemma ShapeKeeps(mem: Mem, mem': Mem, chains: Chains, held: map<nat, nat>, c: seq<nat>)
    requires SameShape(mem, mem', c)
    ensures Wf(mem, chains) ==> Wf(mem', chains)
    ensures Counted(mem, held, NULL) ==> Counted(mem', held, NULL)
    ensures Totals(mem) ==> Totals(mem')
    ensures Sized(mem) ==> Sized(mem')
  {
    hide Wf, Counted, Linked, Sum16;
    SameParts(mem, mem', chains, held, NULL);
  }

  /** Writing into the `i`-th pbuf of a chain writes into its contents. */
  lemma WriteFlat(mem: Mem, chains: Chains, buf: nat, i: nat, off: nat, b: seq<byte>)
    requires Wf(mem, chains) && (buf == NULL || buf in mem) && i < |ChainOf(mem, chains, buf)|
    requires var c := ChainOf(mem, chains, buf); c[i] in mem && off + |b| <= |mem[c[i]].data|
    ensures var c := ChainOf(mem, chains, buf); var at := |Flat(mem, c[..i])| + off;
            && at + |b| <= |Flat(mem, c)|
            && Flat(Written(mem, c[i], off, b), c) == Overwrite(Flat(mem, c), at, b)
            && (forall j :: 0 <= j <= |c| ==> |Flat(Written(mem, c[i], off, b), c[..j])| == |Flat(mem, c[..j])|)
            && SameShape(mem, Written(mem, c[i], off, b), c)
  {
    hide Wf, Flat, ChainOf;
    DropStart(mem, chains, buf);
    var c := ChainOf(mem, chains, buf);
    var mem' := Written(mem, c[i], off, b);
    SkipStep(mem, c, i);
    SkipEnd(mem, c, i + 1);
    SkipStep(mem', c, i);
    SkipEnd(mem', c, i + 1);
    ChainSplit(mem, chains, buf, i);
    FlatSame(mem, mem', c[..i]);
    FlatSame(mem, mem', c[i + 1..]);
    OverwriteMiddle(Flat(mem, c[..i]), mem[c[i]].data, Flat(mem, c[i + 1..]), off, b);
    forall j | 0 <= j <= |c| ensures |Flat(mem', c[..j])| == |Flat(mem, c[..j])| {
      SameLength(mem, mem', c[..j]);
    }
  }

  lemma {:induction false} SameLength(mem: Mem, mem': Mem, c: seq<nat>)
    requires forall p :: p in c ==> p in mem && p in mem' && |mem'[p].data| == |mem[p].data|
    ensures |Flat(mem', c)| == |Flat(mem, c)|
  {
    if c != [] { SameLength(mem, mem', c[1..]); }
  }

  lemma ChainSplit(mem: Mem, chains: Chains, buf: nat, i: nat)
    requires Wf(mem, chains) && buf in mem && i < |ChainOf(mem, chains, buf)|
    ensures var c := ChainOf(mem, chains, buf); c[i] !in c[..i] && c[i] !in c[i + 1..]
  {
    hide Wf;
    var c := chains[buf];
    NextSurvives(mem, chains, buf, i);
    if c[i] in c[i + 1..] {
      var j :| i + 1 <= j < |c| && c[j] == c[i];
      ChainDistinct(mem, chains, buf, i, j);
    }
  }

  lemma OverwriteMiddle(a: seq<byte>, m: seq<byte>, z: seq<byte>, off: nat, b: seq<byte>)
    requires off + |b| <= |m|
    ensures a + Overwrite(m, off, b) + z == Overwrite(a + m + z, |a| + off, b)
  {
  }

  datatype Err = Ok | ErrArg | ErrMem | ErrVal

  lemma FillStart(mem: Mem, c: seq<nat>, at: nat)
    requires at <= |Flat(mem, c)|
    ensures SameShape(mem, mem, c) && Overwrite(Flat(mem, c), at, []) == Flat(mem, c)
  {
  }

  /** While bytes are left to write there is a pbuf to write them to. */
  lemma FillProgress(mem: Mem, chains: Chains, buf: nat, i: nat)
    requires Wf(mem, chains) && (buf == NULL || buf in mem)
    requires var c := ChainOf(mem, chains, buf); i <= |c| && |Flat(mem, c[..i])| < |Flat(mem, c)|
    ensures var c := ChainOf(mem, chains, buf);
            i < |c| && c[i] in mem && c[i] != NULL && mem[c[i]].next == (if i + 1 < |c| then c[i + 1] else NULL)
  {
    hide Wf, Flat;
    DropStart(mem, chains, buf);
    var c := ChainOf(mem, chains, buf);
    assert c[..|c|] == c;
    if i < |c| { ChainAt(mem, chains, buf, i); }
  }

  lemma ShapeStep(m0: Mem, m: Mem, m': Mem, c: seq<nat>)
    requires SameShape(m0, m, c) && SameShape(m, m', c)
    ensures SameShape(m0, m', c)
  {
  }

  /** One round of writing: `n` bytes into the `i`-th pbuf. */
  lemma FillStep(m0: Mem, m: Mem, chains: Chains, held: map<nat, nat>, buf: nat, i: nat, at: nat,
                 data: seq<byte>, done: nat, n: nat)
    requires Wf(m, chains) && Counted(m, held, NULL) && Sized(m) && (buf == NULL || buf in m)
    requires var c := ChainOf(m, chains, buf);
             && i < |c| && c[i] in m && n <= |m[c[i]].data| && |Flat(m, c[..i])| == at + done
             && done + n <= |data| && at + |data| <= |Flat(m0, c)| == |Flat(m, c)|
             && Flat(m, c) == Overwrite(Flat(m0, c), at, data[..done]) && SameShape(m0, m, c)
    ensures var c := ChainOf(m, chains, buf); var m' := Written(m, c[i], 0, data[done..done + n]);
            && Wf(m', chains) && Counted(m', held, NULL) && Sized(m') && (Totals(m) ==> Totals(m'))
            && SameShape(m0, m', c) && ChainOf(m', chains, buf) == c && (buf == NULL || buf in m')
            && Flat(m', c) == Overwrite(Flat(m0, c), at, data[..done + n])
            && |Flat(m', c[..i + 1])| == at + done + |m[c[i]].data|
            && c[i] in m' && m'[c[i]].next == m[c[i]].next
  {
    hide Wf, Flat, Counted, Totals, Sized, Overwrite;
    var c := ChainOf(m, chains, buf);
    var part := data[done..done + n];
    var m' := Written(m, c[i], 0, part);
    WriteFlat(m, chains, buf, i, 0, part);
    ShapeKeeps(m, m', chains, held, c);
    ShapeStep(m0, m, m', c);
    OverwriteMore(Flat(m0, c), at, data[..done], part);
    assert data[..done] + part == data[..done + n];
    SkipStep(m, c, i);
  }

  /** The loop of `pbuf_take`: `data` goes into the pbufs of the chain of `buf` from the `i`-th on. */
  method Fill(pool: Pool, p0: nat, data: seq<byte>, ghost buf: nat, ghost i0: nat)
    requires pool.Valid() && (buf == NULL || buf in pool.mem)
    requires var c := ChainOf(pool.mem, pool.chains, buf);
             && i0 <= |c| && p0 == (if i0 < |c| then c[i0] else NULL)
             && |Flat(pool.mem, c[..i0])| + |data| <= |Flat(pool.mem, c)|
    modifies pool`mem
    ensures pool.Valid() && (old(Totals(pool.mem)) ==> Totals(pool.mem))
    ensures var c := old(ChainOf(pool.mem, pool.chains, buf));
            && SameShape(old(pool.mem), pool.mem, c)
            && |old(Flat(pool.mem, c[..i0]))| + |data| <= |old(Flat(pool.mem, c))|
            && Flat(pool.mem, c) == Overwrite(old(Flat(pool.mem, c)), |old(Flat(pool.mem, c[..i0]))|, data)
    ensures ChainOf(pool.mem, pool.chains, buf) == old(ChainOf(pool.mem, pool.chains, buf))
  {
    hide Wf, Flat, ChainOf, Counted, Totals, Sized, SameShape, Written, Overwrite;
    ghost var c, m0, at := ChainOf(pool.mem, pool.chains, buf), pool.mem, |Flat(pool.mem, ChainOf(pool.mem, pool.chains, buf)[..i0])|;
    var p, done: nat := p0, 0;
    ghost var i := i0;
    FillStart(m0, c, at);
    while done < |data|
      invariant pool.Valid() && (buf == NULL || buf in pool.mem) && SameShape(m0, pool.mem, c)
      invariant done <= |data| && i0 <= i <= |c|
      invariant p == if i < |c| then c[i] else NULL
      invariant done < |data| ==> |Flat(pool.mem, c[..i])| == at + done
      invariant |Flat(pool.mem, c)| == |Flat(m0, c)| && ChainOf(pool.mem, pool.chains, buf) == c
      invariant at + |data| <= |Flat(m0, c)|
      invariant Flat(pool.mem, c) == Overwrite(Flat(m0, c), at, data[..done])
      invariant Totals(m0) ==> Totals(pool.mem)
      decreases |c| - i
    {
      FillProgress(pool.mem, pool.chains, buf, i);
      var n := |data| - done;
      if n > |pool.mem[p].data| {
        n := |pool.mem[p].data|;
      }
      ghost var m := pool.mem;
      var part := data[done..done + n];
      FillStep(m0, m, pool.chains, pool.held, buf, i, at, data, done, n);
      pool.mem := Written(pool.mem, p, 0, part);
      done := done + n;
      p := pool.mem[p].next;
      i := i + 1;
    }
    assert data[..|data|] == data;
  }

  /** `pbuf_take`: `data` replaces the first bytes of the chain; refused if it is too long. */
  method Take(pool: Pool, buf: nat, data: seq<byte>) returns (r: Err)
    requires pool.Valid() && Totals(pool.mem) && (buf == NULL || buf in pool.mem)
    requires |Bytes(pool.mem, pool.chains, buf)| <= 0xffff
    modifies pool`mem
    ensures pool.Valid() && Totals(pool.mem)
    ensures var s := old(Bytes(pool.mem, pool.chains, buf));
            && (r == Ok <==> buf != NULL && |data| <= |s|)
            && (if r == Ok then Bytes(pool.mem, pool.chains, buf) == Overwrite(s, 0, data) else pool.mem == old(pool.mem))
    ensures SameShape(old(pool.mem), pool.mem, old(ChainOf(pool.mem, pool.chains, buf)))
  {
    hide Wf, Flat, ChainOf, Counted, Totals, Sized, Overwrite;
    TotalIsLength(pool.mem, pool.chains, buf);
    if buf == NULL {
      return ErrArg;
    }
    if pool.mem[buf].totLen < |data| {
      return ErrMem;
    }
    DropStart(pool.mem, pool.chains, buf);
    SkipStart(pool.mem, ChainOf(pool.mem, pool.chains, buf));
    Fill(pool, buf, data, buf, 0);
    return Ok;
  }

  /** `pbuf_take_at`: `data` replaces the bytes from `offset` on.  It is refused if it does not
      fit, and also at the very end of the chain, where no byte is. */
  method TakeAt(pool: Pool, buf: nat, data: seq<byte>, offset: nat) returns (r: Err)
    requires pool.Valid() && Totals(pool.mem) && (buf == NULL || buf in pool.mem)
    requires |Bytes(pool.mem, pool.chains, buf)| <= 0xffff
    modifies pool`mem
    ensures pool.Valid() && Totals(pool.mem)
    ensures var s := old(Bytes(pool.mem, pool.chains, buf));
            && (r == Ok <==> offset < |s| && offset + |data| <= |s|)
            && (if r == Ok then Bytes(pool.mem, pool.chains, buf) == Overwrite(s, offset, data) else pool.mem == old(pool.mem))
    ensures SameShape(old(pool.mem), pool.mem, old(ChainOf(pool.mem, pool.chains, buf)))
  {
    hide Wf, Flat, ChainOf, Counted, Totals, Sized, Overwrite, Written;
    var q, target, i := Skip(pool.mem, pool.chains, buf, offset);
    ghost var c, m0 := ChainOf(pool.mem, pool.chains, buf), pool.mem;
    if q != NULL {
      TotalIsLength(pool.mem, pool.chains, q);
      SkipEnd(pool.mem, c, i);
    }
    if q != NULL && pool.mem[q].totLen >= target + |data| {
      var first := |pool.mem[q].data| - target;
      if first > |data| {
        first := |data|;
      }
      TakeFirst(pool.mem, pool.chains, pool.held, buf, i, target, data, first);
      pool.mem := Written(pool.mem, q, target, data[..first]);
      if first < |data| {
        ghost var m := pool.mem;
        Fill(pool, pool.mem[q].next, data[first..], buf, i + 1);
        TakeRest(m0, m, pool.mem, c, i, offset, data, first);
      }
      return Ok;
    }
    return ErrMem;
  }

  /** The part of `pbuf_take_at` that goes into the first pbuf. */
  lemma TakeFirst(m: Mem, chains: Chains, held: map<nat, nat>, buf: nat, i: nat, target: nat, data: seq<byte>, first: nat)
    requires Wf(m, chains) && Counted(m, held, NULL) && Sized(m) && Totals(m) && (buf == NULL || buf in m)
    requires var c := ChainOf(m, chains, buf);
             && i < |c| && c[i] in m && first <= |data| && target + first <= |m[c[i]].data|
             && |Flat(m, c[..i])| + target + |data| <= |Flat(m, c)|
             && (first < |data| ==> target + first == |m[c[i]].data|)
    ensures var c := ChainOf(m, chains, buf); var m' := Written(m, c[i], target, data[..first]);
            && Wf(m', chains) && Counted(m', held, NULL) && Sized(m') && Totals(m') && SameShape(m, m', c)
            && ChainOf(m', chains, buf) == c && (buf == NULL || buf in m')
            && Flat(m', c) == Overwrite(Flat(m, c), |Flat(m, c[..i])| + target, data[..first])
            && |Flat(m', c)| == |Flat(m, c)|
            && |Flat(m', c[..i + 1])| == |Flat(m, c[..i])| + |m[c[i]].data|
            && c[i] in m' && m'[c[i]].next == (if i + 1 < |c| then c[i + 1] else NULL)
            && (first == |data| ==> data[..first] == data)
  {
    hide Wf, Flat, Counted, Totals, Sized, Overwrite, ChainOf, SameShape, Written;
    DropStart(m, chains, buf);
    var c := ChainOf(m, chains, buf);
    WriteFlat(m, chains, buf, i, target, data[..first]);
    ShapeKeeps(m, Written(m, c[i], target, data[..first]), chains, held, c);
    ShapeChain(m, Written(m, c[i], target, data[..first]), chains, buf, c, c[i]);
    SkipStep(m, c, i);
    ChainAt(m, chains, buf, i);
    SkipEnd(m, c, |c|);
    assert c[..|c|] == c;
  }

  lemma ShapeChain(m: Mem, m': Mem, chains: Chains, buf: nat, c: seq<nat>, p: nat)
    requires SameShape(m, m', c) && p in m && (buf == NULL || buf in m)
    ensures ChainOf(m', chains, buf) == ChainOf(m, chains, buf) && (buf == NULL || buf in m')
    ensures p in m' && m'[p].next == m[p].next
  {
  }

  lemma TakeRest(m0: Mem, m: Mem, m': Mem, c: seq<nat>, i: nat, offset: nat, data: seq<byte>, first: nat)
    requires first < |data| && offset + |data| <= |Flat(m0, c)| == |Flat(m, c)|
    requires Flat(m, c) == Overwrite(Flat(m0, c), offset, data[..first])
    requires Flat(m', c) == Overwrite(Flat(m, c), offset + first, data[first..])
    requires SameShape(m0, m, c) && SameShape(m, m', c)
    ensures Flat(m', c) == Overwrite(Flat(m0, c), offset, data) && SameShape(m0, m', c)
  {
    OverwriteMore(Flat(m0, c), offset, data[..first], data[first..]);
    assert data[..first] + data[first..] == data;
    ShapeStep(m0, m, m', c);
  }

  /** `pbuf_put_at`: one byte; silently ignored beyond the end. */
  method PutAt(pool: Pool, p: nat, offset: nat, b: byte)
    requires pool.Valid() && Totals(pool.mem) && (p == NULL || p in pool.mem)
    modifies pool`mem
    ensures pool.Valid() && Totals(pool.mem)
    ensures var s := old(Bytes(pool.mem, pool.chains, p));
            Bytes(pool.mem, pool.chains, p) == if offset < |s| then s[offset := b] else s
    ensures SameShape(old(pool.mem), pool.mem, old(ChainOf(pool.mem, pool.chains, p)))
  {
    hide Wf, Flat, ChainOf, Counted, Totals, Sized, Written;
    var q, at, i := Skip(pool.mem, pool.chains, p, offset);
    if q != NULL && |pool.mem[q].data| > at {
      ghost var c := ChainOf(pool.mem, pool.chains, p);
      GetByte(pool.mem, c, i, at);
      TakeFirst(pool.mem, pool.chains, pool.held, p, i, at, [b], 1);
      pool.mem := Written(pool.mem, q, at, [b][..1]);
    }
  }

  /** What was taken can be read back, and nothing else has changed. */
  lemma TakeThenCopy(s: seq<byte>, offset: nat, data: seq<byte>)
    requires offset + |data| <= |s|
    ensures Slice(Overwrite(s, offset, data), offset, |data|) == data
    ensures forall i :: 0 <= i < |s| && !(offset <= i < offset + |data|) ==> Overwrite(s, offset, data)[i] == s[i]
  {
  }
}
