/** Which chains `pbuf_copy` copies into which others: this depends on the lengths of their pbufs
    only. */
module PbufCopyable {
  import opened PbufContents

  // --------------------------------------------------- which chains can be copied

  function Sum(l: seq<nat>): nat {
    if l == [] then 0 else l[0] + Sum(l[1..])
  }

  /** The result of `pbuf_copy` from pbufs of the lengths `f` to pbufs of the lengths `t`,
      `a` and `b` bytes of the first of which are already done.  It depends on nothing else. */
  function Outcome(f: seq<nat>, t: seq<nat>, a: nat, b: nat): Err
    requires |f| > 0 && |t| > 0 && a <= f[0] && b <= t[0]
    decreases |f| + |t|
  {
    var len := if t[0] - b >= f[0] - a then f[0] - a else t[0] - b;
    var f' := if a + len >= f[0] then f[1..] else f;
    var a' := if a + len >= f[0] then 0 else a + len;
    var t' := if b + len == t[0] then t[1..] else t;
    var b' := if b + len == t[0] then 0 else b + len;
    if t' == [] && f' != [] then ErrArg
    else if |f'| > 1 && Sum(f'[1..]) == 0 then ErrVal
    else if |t'| > 1 && Sum(t'[1..]) == 0 then ErrVal
    else if f' == [] then Ok
    else Outcome(f', t', a', b')
  }

  /** No empty pbuf at the end of a chain of several: what the code takes for a packet queue. */
  predicate NoQueue(l: seq<nat>) {
    |l| <= 1 || l[|l| - 1] > 0
  }

  /** How many empty pbufs are at the end. */
  function Trailing(l: seq<nat>): (n: nat)
    ensures n <= |l|
  {
    if l == [] || l[|l| - 1] > 0 then 0 else 1 + Trailing(l[..|l| - 1])
  }

  /** How many pbufs come before the last one that is not empty; 0 if all are empty. */
  function Front(l: seq<nat>): nat {
    if Trailing(l) < |l| then |l| - 1 - Trailing(l) else 0
  }

  /** The source is no queue, or it is one pbuf and an empty one, and the former fits the first
      pbuf of the target without filling all of the target. */
  predicate SourceOk(f: seq<nat>, t: seq<nat>) {
    NoQueue(f) || (|f| == 2 && |t| > 0 && f[1] == 0 && f[0] <= t[0] && t != [f[0]])
  }

  /** The copy ends before the last nonempty pbuf of the target if empty ones come after it: by its
      length, or because the target has more empty pbufs there than the source has at its end. A
      target of one pbuf and an empty one is filled at once. */
  predicate TargetOk(f: seq<nat>, t: seq<nat>) {
    || NoQueue(t)
    || Sum(f) < Sum(t[..Front(t)])
    || (Sum(f) == Sum(t[..Front(t)]) && Trailing(f) < Trailing(t[..Front(t)]))
    || (|t| == 2 && |f| > 0 && f[0] == t[0])
  }

  // ----------------------------------------------------- the same without offsets

  /** What is left of a chain when `n` bytes of its first pbuf are done. */
  function After(l: seq<nat>, n: nat): seq<nat>
    requires |l| > 0 && n <= l[0]
  {
    if n == l[0] then l[1..] else [l[0] - n] + l[1..]
  }

  function Outcome0(f: seq<nat>, t: seq<nat>): Err
    requires |f| > 0 && |t| > 0
    decreases |f| + |t|
  {
    var len := if f[0] <= t[0] then f[0] else t[0];
    var f', t' := After(f, len), After(t, len);
    if t' == [] && f' != [] then ErrArg
    else if |f'| > 1 && Sum(f'[1..]) == 0 then ErrVal
    else if |t'| > 1 && Sum(t'[1..]) == 0 then ErrVal
    else if f' == [] then Ok
    else Outcome0(f', t')
  }

  function Rest(l: seq<nat>, n: nat): seq<nat>
    requires |l| > 0 && n <= l[0]
  {
    [l[0] - n] + l[1..]
  }

  /** Both ways to note that `len` more bytes are done. */
  lemma AfterRest(l: seq<nat>, n: nat, len: nat)
    requires |l| > 0 && n + len <= l[0]
    ensures var g := After(Rest(l, n), len);
            if n + len == l[0] then g == l[1..] && (g != [] ==> g == Rest(g, 0))
            else g == Rest(l, n + len) && g[1..] == l[1..] && |g| == |l|
  {
    assert Rest(l, n)[1..] == l[1..];
  }

  lemma {:induction false} OffsetsDoNotMatter(f: seq<nat>, t: seq<nat>, a: nat, b: nat)
    requires |f| > 0 && |t| > 0 && a <= f[0] && b <= t[0]
    ensures Outcome(f, t, a, b) == Outcome0(Rest(f, a), Rest(t, b))
    decreases |f| + |t|
  {
    hide Sum, After, Rest;
    var len := if t[0] - b >= f[0] - a then f[0] - a else t[0] - b;
    AfterRest(f, a, len);
    AfterRest(t, b, len);
    RestHead(f, a);
    RestHead(t, b);
    var f' := if a + len >= f[0] then f[1..] else f;
    var t' := if b + len == t[0] then t[1..] else t;
    if f' != [] && t' != [] {
      OffsetsDoNotMatter(f', t', if a + len >= f[0] then 0 else a + len, if b + len == t[0] then 0 else b + len);
    }
  }

  lemma RestHead(l: seq<nat>, n: nat)
    requires |l| > 0 && n <= l[0]
    ensures |Rest(l, n)| == |l| && Rest(l, n)[0] == l[0] - n
  {
  }

  lemma RestNone(l: seq<nat>)
    requires |l| > 0
    ensures Rest(l, 0) == l
  {
  }

  // ---------------------------------------------------------- lists of lengths

  lemma {:induction false} TrailingCons(x: nat, r: seq<nat>)
    ensures Trailing([x] + r) == if Trailing(r) < |r| then Trailing(r) else |r| + (if x == 0 then 1 else 0)
    decreases |r|
  {
    if r == [] {
      assert [x] + r == [x] && [x][..0] == [];
    } else {
      var n := |r| - 1;
      assert ([x] + r)[..|r|] == [x] + r[..n];
      TrailingCons(x, r[..n]);
    }
  }

  lemma {:induction false} SumTrailing(l: seq<nat>)
    ensures Sum(l) == 0 <==> Trailing(l) == |l|
  {
    if l != [] {
      SumTrailing(l[1..]);
      TrailingCons(l[0], l[1..]);
      assert l == [l[0]] + l[1..];
    }
  }

  lemma LastCounts(l: seq<nat>)
    requires |l| > 0
    ensures l[|l| - 1] > 0 <==> Trailing(l) == 0
    ensures l[|l| - 1] > 0 ==> Sum(l) > 0
  {
    SumTrailing(l);
  }

  lemma ConsFront(x: nat, r: seq<nat>)
    requires Sum(r) > 0
    ensures |r| > 0 && Front(r) < |r| && Trailing([x] + r) == Trailing(r) && Front([x] + r) == 1 + Front(r)
  {
    SumTrailing(r);
    TrailingCons(x, r);
  }

  lemma ConsQueue(x: nat, r: seq<nat>)
    requires Sum(r) > 0 && |r| > 0
    ensures (NoQueue([x] + r) <==> Trailing(r) == 0) && (NoQueue(r) <==> Trailing(r) == 0)
  {
    hide Trailing;
    LastCounts(r);
    assert ([x] + r)[|r|] == r[|r| - 1];
    if |r| == 1 { assert r[1..] == [] && Sum(r) == r[0]; }
  }

  /** The parts of a list whose tail is not all zero. */
  lemma ConsFacts(x: nat, r: seq<nat>)
    requires Sum(r) > 0
    ensures var l := [x] + r;
            && |r| > 0 && Sum(l) == x + Sum(r) && Trailing(l) == Trailing(r)
            && Front(l) == 1 + Front(r) && Front(r) < |r| && l[..Front(l)] == [x] + r[..Front(r)]
            && Sum(l[..Front(l)]) == x + Sum(r[..Front(r)])
            && (NoQueue(l) <==> NoQueue(r)) && (NoQueue(l) <==> Trailing(r) == 0)
  {
    hide Trailing, Front, NoQueue, Sum;
    ConsFront(x, r);
    ConsQueue(x, r);
    SumCons(x, r);
    SumCons(x, r[..Front(r)]);
  }

  predicate Positive(l: seq<nat>) {
    |l| > 1 ==> Sum(l[1..]) > 0
  }

  /** `TargetOk` for a target that is not just one pbuf and empty ones. */
  predicate EndsBefore(f: seq<nat>, t: seq<nat>) {
    || NoQueue(t)
    || Sum(f) < Sum(t[..Front(t)])
    || (Sum(f) == Sum(t[..Front(t)]) && Trailing(f) < Trailing(t[..Front(t)]))
  }

  lemma Alone(l: seq<nat>)
    requires |l| == 1
    ensures Sum(l) == l[0] && Trailing(l) == (if l[0] == 0 then 1 else 0) && NoQueue(l) && l[1..] == []
  {
    assert l[1..] == [] && l[..0] == [];
  }

  lemma SumCons(x: nat, r: seq<nat>)
    ensures Sum([x] + r) == x + Sum(r)
  {
    assert ([x] + r)[1..] == r;
  }

  /** The first source pbuf is used up, the first target pbuf is not. */
  lemma EndsBeforeSource(x: nat, g: seq<nat>, y: nat, u: seq<nat>)
    requires x < y && (u == [] || Sum(u) > 0) && Sum(g) > 0
    ensures EndsBefore([x] + g, [y] + u) && NoQueue(g) <==> EndsBefore(g, [y - x] + u) && NoQueue(g)
  {
    hide Sum, Trailing, Front, NoQueue;
    ConsFacts(x, g);
    if u == [] {
      Alone([y] + u);
      Alone([y - x] + u);
    } else {
      ConsFacts(y, u);
      ConsFacts(y - x, u);
      TrailingCons(y, u[..Front(u)]);
      TrailingCons(y - x, u[..Front(u)]);
    }
  }

  /** The first target pbuf is used up. */
  lemma EndsBeforeTarget(f: seq<nat>, f': seq<nat>, y: nat, u: seq<nat>)
    requires Sum(f') > 0 && Sum(f) == y + Sum(f') && Sum(u) > 0 && (|u| > 1 ==> Sum(u[1..]) > 0)
    requires Trailing(f) == Trailing(f')
    ensures EndsBefore(f, [y] + u) <==> EndsBefore(f', u)
  {
    hide Trailing, Front, NoQueue;
    ConsFacts(y, u);
    var p := u[..Front(u)];
    TrailingCons(y, p);
    SumTrailing(p);
  }

  /** The second pbuf of the target is the last that is not empty. */
  lemma StopsAtLast(y: nat, u: seq<nat>)
    requires |u| > 1 && Sum(u) > 0 && Sum(u[1..]) == 0
    ensures var t := [y] + u; !NoQueue(t) && Front(t) == 1 && t[..1] == [y]
  {
    ConsFacts(y, u);
    SumTrailing(u[1..]);
    TrailingCons(u[0], u[1..]);
    assert u == [u[0]] + u[1..];
  }

  /** From a state in which neither chain has only empty pbufs behind its current one. */
  lemma {:induction false} CopiesOn(f: seq<nat>, t: seq<nat>)
    requires |f| > 0 && |t| > 0 && Positive(f) && Positive(t) && Sum(f) <= Sum(t)
    ensures Outcome0(f, t) == Ok <==> NoQueue(f) && EndsBefore(f, t)
    decreases |f| + |t|
  {
    hide Sum, Trailing, Front, NoQueue, EndsBefore;
    var x, g, y, u := f[0], f[1..], t[0], t[1..];
    assert f == [x] + g && t == [y] + u;
    SumCons(x, g);
    SumCons(y, u);
    if x < y {
      CopiesSource(x, g, y, u);
    } else {
      CopiesTarget(x, g, y, u);
    }
  }

  lemma {:induction false} CopiesSource(x: nat, g: seq<nat>, y: nat, u: seq<nat>)
    requires x < y && (g == [] || Sum(g) > 0) && (u == [] || Sum(u) > 0) && x + Sum(g) <= y + Sum(u)
    ensures Outcome0([x] + g, [y] + u) == Ok <==> NoQueue([x] + g) && EndsBefore([x] + g, [y] + u)
    decreases |g| + |u| + 2, 0
  {
    hide Sum, Trailing, Front, NoQueue, EndsBefore;
    var f, t, t' := [x] + g, [y] + u, [y - x] + u;
    assert f[1..] == g && t[1..] == u && t'[1..] == u;
    SumCons(y - x, u);
    if g == [] {
      assert f == [x];
      Alone(f);
      SingleEndsBefore(x, y, u);
    } else {
      ConsFacts(x, g);
      if |g| > 1 && Sum(g[1..]) == 0 {
        TailZero(g);
      } else {
        CopiesOn(g, t');
        EndsBeforeSource(x, g, y, u);
      }
    }
  }

  lemma SingleEndsBefore(x: nat, y: nat, u: seq<nat>)
    requires x < y && (u == [] || Sum(u) > 0)
    ensures EndsBefore([x], [y] + u)
  {
    hide Sum, Trailing, Front, NoQueue;
    Alone([x]);
    if u == [] { Alone([y] + u); } else { ConsFacts(y, u); }
  }

  lemma TailZero(g: seq<nat>)
    requires |g| > 1 && Sum(g[1..]) == 0
    ensures !NoQueue(g)
  {
    LastCounts(g[1..]);
  }

  lemma {:induction false} CopiesTarget(x: nat, g: seq<nat>, y: nat, u: seq<nat>)
    requires x >= y && (g == [] || Sum(g) > 0) && (u == [] || Sum(u) > 0) && x + Sum(g) <= y + Sum(u)
    ensures Outcome0([x] + g, [y] + u) == Ok <==> NoQueue([x] + g) && EndsBefore([x] + g, [y] + u)
    decreases |g| + |u| + 2, 0
  {
    hide Sum, Trailing, Front, NoQueue, EndsBefore;
    var f, t := [x] + g, [y] + u;
    var f' := if x == y then g else [x - y] + g;
    assert f[1..] == g && t[1..] == u && ([x - y] + g)[1..] == g;
    SumCons(x, g);
    SumCons(x - y, g);
    SumNone();
    if f' == [] {
      assert f == [y];
      Alone(f);
      FilledAtOnce(y, u);
    } else {
      SameSource(x, g, y);
      if |f'| > 1 && Sum(f'[1..]) == 0 {
        TailZero(f');
      } else if |u| > 1 && Sum(u[1..]) == 0 {
        StopsLate(f, y, u);
      } else {
        CopiesOn(f', u);
        EndsBeforeTarget(f, f', y, u);
      }
    }
  }

  lemma SumNone()
    ensures Sum([]) == 0
  {
  }

  /** Both chains are used up to the same place by a source of one pbuf. */
  lemma FilledAtOnce(y: nat, u: seq<nat>)
    requires u == [] || Sum(u) > 0
    ensures EndsBefore([y], [y] + u) <==> !(|u| > 1 && Sum(u[1..]) == 0)
  {
    hide Sum, Trailing, Front, NoQueue;
    Alone([y]);
    if u == [] {
      Alone([y] + u);
    } else if |u| > 1 && Sum(u[1..]) == 0 {
      StopsAtLast(y, u);
    } else {
      ConsFacts(y, u);
      var p := u[..Front(u)];
      TrailingCons(y, p);
      SumTrailing(p);
      if !NoQueue(u) { BehindFront(u); }
    }
  }

  /** A list that ends in zeros has something before its last nonzero entry, if its tail has. */
  lemma BehindFront(u: seq<nat>)
    requires |u| > 0 && !NoQueue(u) && (|u| > 1 ==> Sum(u[1..]) > 0)
    ensures Front(u) > 0
  {
    if |u| > 1 { ConsFacts(u[0], u[1..]); assert u == [u[0]] + u[1..]; }
  }

  /** What is left of the source is a queue exactly if the source is. */
  lemma SameSource(x: nat, g: seq<nat>, y: nat)
    requires x >= y && (g == [] || Sum(g) > 0) && !(x == y && g == [])
    ensures var f, f' := [x] + g, if x == y then g else [x - y] + g;
            && (NoQueue(f) <==> NoQueue(f')) && Trailing(f) == Trailing(f') && Sum(f) == y + Sum(f') && Sum(f') > 0
  {
    hide Sum, Trailing, Front, NoQueue;
    SumCons(x, g);
    SumCons(x - y, g);
    SumNone();
    if g == [] {
      Alone([x] + g);
      Alone([x - y] + g);
    } else {
      ConsFacts(x, g);
      ConsFacts(x - y, g);
    }
  }

  lemma StopsLate(f: seq<nat>, y: nat, u: seq<nat>)
    requires |u| > 1 && Sum(u) > 0 && Sum(u[1..]) == 0 && Sum(f) > y
    ensures !EndsBefore(f, [y] + u)
  {
    StopsAtLast(y, u);
    Alone([y]);
  }

  // ------------------------------------------------------------------ the first round

  /** A source with only empty pbufs behind the first. */
  lemma EmptyBehindSource(f: seq<nat>, t: seq<nat>)
    requires |f| > 1 && |t| > 0 && Sum(f[1..]) == 0 && Sum(f) <= Sum(t)
    ensures Outcome0(f, t) == Ok ==> |f| == 2 && f[1] == 0 && f[0] <= t[0] && t != [f[0]]
  {
    hide Trailing;
    var g := f[1..];
    assert g[0] == f[1] && Sum(g) == g[0] + Sum(g[1..]);
    var len := if f[0] <= t[0] then f[0] else t[0];
    assert ([f[0] - len] + g)[1..] == g;
    assert t == [t[0]] + t[1..];
    if |t| == 1 { assert t[1..] == [] && t == [t[0]]; }
  }

  /** That source is one pbuf and an empty one: the empty one takes a second round. */
  lemma SecondRound(n: nat, y: nat, u: seq<nat>)
    requires n <= y && !(n == y && u == [])
    ensures Outcome0([n, 0], [y] + u) == Ok <==> TargetOk([n, 0], [y] + u)
  {
    hide Sum, Trailing, Front, NoQueue;
    var t := [y] + u;
    var t' := if n == y then u else [y - n] + u;
    assert t[1..] == u && ([y - n] + u)[1..] == u;
    assert [n, 0][1..] == [0] && [0][1..] == [] && Outcome0([0], t') == EmptyOutcome(t');
    PairFacts(n);
    if n < y {
      RoomLeft(n, y, u);
    } else if |u| > 1 {
      NoRoomLeft(y, u);
    } else {
      Alone(u);
    }
  }

  /** The round for an empty pbuf. */
  function EmptyOutcome(t: seq<nat>): Err
    requires |t| > 0
  {
    var t' := After(t, 0);
    if |t'| > 1 && Sum(t'[1..]) == 0 then ErrVal else Ok
  }

  lemma PairFacts(n: nat)
    ensures Sum([n, 0]) == n && Trailing([n, 0]) == if n == 0 then 2 else 1
  {
    SumCons(n, [0]);
    Alone([0]);
    TrailingCons(n, [0]);
    assert [n] + [0] == [n, 0];
  }

  lemma RoomLeft(n: nat, y: nat, u: seq<nat>)
    requires n < y
    ensures EndsBefore([n, 0], [y] + u) <==> u == [] || Sum(u) > 0
  {
    hide Sum, Trailing, Front, NoQueue;
    PairFacts(n);
    if u == [] {
      Alone([y] + u);
    } else if Sum(u) > 0 {
      ConsFacts(y, u);
    } else {
      OnlyFirst(y, u);
    }
  }

  /** A target with only empty pbufs behind the first. */
  lemma OnlyFirst(y: nat, u: seq<nat>)
    requires |u| > 0 && Sum(u) == 0
    ensures var t := [y] + u; !NoQueue(t) && Front(t) == 0 && Sum(t[..Front(t)]) == 0 && Trailing(t[..Front(t)]) == 0
  {
    SumTrailing(u);
    TrailingCons(y, u);
    LastCounts(u);
  }

  lemma NoRoomLeft(y: nat, u: seq<nat>)
    requires |u| > 1
    ensures EndsBefore([y, 0], [y] + u) <==> Sum(u[1..]) > 0 && EmptyOutcome(u) == Ok
  {
    hide Sum, Trailing, Front, NoQueue;
    PairFacts(y);
    var z, w := u[0], u[1..];
    assert u == [z] + w;
    SumCons(z, w);
    if Sum(w) == 0 {
      if z == 0 { OnlyFirst(y, u); } else { StopsAtLast(y, u); Alone([y]); }
    } else {
      ConsFacts(z, w);
      ConsFacts(y, u);
      var p := w[..Front(w)];
      TrailingCons(z, p);
      TrailingCons(y, [z] + p);
      SumTrailing(p);
      SumCons(z, p);
      if |w| > 1 && Sum(w[1..]) == 0 { OnlySecond(w); }
      if !NoQueue(w) && !(|w| > 1 && Sum(w[1..]) == 0) { BehindFront(w); }
    }
  }

  lemma OnlySecond(w: seq<nat>)
    requires |w| > 1 && Sum(w) > 0 && Sum(w[1..]) == 0
    ensures !NoQueue(w) && Front(w) == 0 && w[..0] == []
  {
    assert w == [w[0]] + w[1..];
    OnlyFirst(w[0], w[1..]);
  }

  predicate Copies(f: seq<nat>, t: seq<nat>) {
    SourceOk(f, t) && TargetOk(f, t)
  }

  /** Exactly which chains are copied into which others, if they fit. */
  lemma CopiesIff(f: seq<nat>, t: seq<nat>)
    requires |f| > 0 && |t| > 0 && Sum(f) <= Sum(t)
    ensures Outcome(f, t, 0, 0) == Ok <==> Copies(f, t)
  {
    hide Sum, Trailing, Front;
    OffsetsDoNotMatter(f, t, 0, 0);
    RestNone(f);
    RestNone(t);
    var x, g, y, u := f[0], f[1..], t[0], t[1..];
    assert f == [x] + g && t == [y] + u;
    if !Positive(f) {
      EmptyBehindSource(f, t);
      TailZero(f);
      if |f| == 2 && f[1] == 0 && x <= y && t != [x] {
        assert f == [x, 0];
        SecondRound(x, y, u);
      }
    } else if Positive(t) {
      CopiesOn(f, t);
      if |t| == 2 { Alone(u); }
      if |f| == 2 { Alone(g); }
    } else {
      OnlyFirst(y, u);
      EmptyBehindTarget(f, t);
    }
  }

  /** A target with only empty pbufs behind the first takes only a single pbuf that fills it. */
  lemma EmptyBehindTarget(f: seq<nat>, t: seq<nat>)
    requires |f| > 0 && Positive(f) && |t| > 1 && Sum(t[1..]) == 0 && Sum(f) <= Sum(t)
    ensures Outcome0(f, t) == Ok <==> |t| == 2 && f[0] == t[0]
    ensures |t| == 2 && f[0] == t[0] ==> |f| == 1
  {
    hide Trailing;
    var u := t[1..];
    assert u[0] == t[1] && Sum(u) == u[0] + Sum(u[1..]);
    assert f[0] <= Sum(f) <= t[0];
    assert ([t[0] - f[0]] + u)[1..] == u;
    if |f| == 1 { assert f[1..] == []; }
  }

  /** Neither a source without empty pbufs at its end nor a target with them decides alone. */
  lemma CopyExamples()
    ensures !Copies([1], [2, 0]) && !Copies([2], [1, 1, 0]) && Copies([1, 0], [2]) && !Copies([1, 0], [1])
    ensures Copies([1], [1, 0, 1, 0])
  {
    SumCons(1, []);
    SumCons(2, []);
    assert [1, 1, 0] == [1] + [1, 0] && [1, 0] == [1] + [0] && [2, 0] == [2] + [0];
    OnlyFirst(2, [0]);
    Alone([0]);
    StopsAtLast(1, [1, 0]);
  }
}
