/** Network interfaces (lwip/src/core/netif.c): the number that an interface gets when it is added,
    and the way from its index to its name and back. */
module Netif {
  import opened Itoa

  /** `struct netif`: `id` stands for its address in memory. */
  datatype Interface = Interface(id: nat, first: char, second: char, num: nat)

  const NUMBERS: nat := 255
  const NAME_SIZE: nat := 6

  // -------------------------------------------------------------- looking for a number

  predicate InUse(list: seq<Interface>, num: nat) {
    exists i :: 0 <= i < |list| && list[i].num == num
  }

  /** Numbers are below 255 and given once; interfaces are in the list once. */
  ghost predicate Unique(list: seq<Interface>) {
    && (forall i :: 0 <= i < |list| ==> list[i].num < NUMBERS)
    && (forall i, j :: 0 <= i < j < |list| ==> list[i].num != list[j].num && list[i].id != list[j].id)
  }

  /** One round of the search: the number to try next, and whether there is one. */
  function Wrap(num: nat): nat { if num == NUMBERS then 0 else num }

  function NextTry(list: seq<Interface>, num: nat): (nat, bool) {
    if InUse(list, Wrap(num)) then (Wrap(num) + 1, true) else (Wrap(num), false)
  }

  /** `n` rounds of the search. */
  function Rounds(list: seq<Interface>, num: nat, n: nat): (nat, bool)
    decreases n
  {
    if n == 0 then (num, true) else
      var (num', more) := NextTry(list, num);
      if more then Rounds(list, num', n - 1) else (num', false)
  }

  /** How far `free` is ahead of `num`, round the end. */
  function Distance(num: nat, free: nat): int {
    if num == NUMBERS then free else if free >= num then free - num else free + NUMBERS - num
  }

  /** A number in use brings the search nearer to any number that is free. */
  lemma SearchCloser(list: seq<Interface>, num: nat, free: nat)
    requires num <= NUMBERS && free < NUMBERS && !InUse(list, free)
    ensures InUse(list, Wrap(num)) ==> 0 <= Distance(Wrap(num) + 1, free) < Distance(Wrap(num), free) <= Distance(num, free)
    ensures 0 <= Distance(Wrap(num), free) == Distance(num, free)
    ensures InUse(list, Wrap(num)) ==> Distance(Wrap(num) + 1, free) + 1 == Distance(num, free)
  {
    if InUse(list, Wrap(num)) { assert Wrap(num) != free; }
  }

  lemma {:induction false} SearchEnds(list: seq<Interface>, num: nat, free: nat)
    requires num <= NUMBERS && free < NUMBERS && !InUse(list, free)
    ensures !Rounds(list, num, Distance(num, free) + 1).1
    decreases Distance(num, free)
  {
    SearchCloser(list, num, free);
    if InUse(list, Wrap(num)) {
      SearchEnds(list, Wrap(num) + 1, free);
      RoundsLonger(list, Wrap(num) + 1, Distance(Wrap(num) + 1, free) + 1, Distance(num, free));
    }
  }

  lemma {:induction false} RoundsLonger(list: seq<Interface>, num: nat, n: nat, m: nat)
    requires n <= m && !Rounds(list, num, n).1
    ensures !Rounds(list, num, m).1
    decreases n
  {
    if n > 0 && InUse(list, Wrap(num)) { RoundsLonger(list, Wrap(num) + 1, n - 1, m - 1); }
  }

  lemma {:induction false} SearchForever(list: seq<Interface>, num: nat, n: nat)
    requires num <= NUMBERS && forall k :: 0 <= k < NUMBERS ==> InUse(list, k)
    ensures Rounds(list, num, n).1
    decreases n
  {
    if n > 0 {
      assert InUse(list, Wrap(num));
      SearchForever(list, Wrap(num) + 1, n - 1);
    }
  }

  /** The numbers in use. */
  function Numbers(list: seq<Interface>): set<nat> {
    if list == [] then {} else Numbers(list[..|list| - 1]) + {list[|list| - 1].num}
  }

  lemma {:induction false} NumbersAre(list: seq<Interface>, k: nat)
    ensures k in Numbers(list) <==> InUse(list, k)
  {
    if list != [] {
      var n := |list| - 1;
      NumbersAre(list[..n], k);
      assert forall i :: 0 <= i < n ==> list[..n][i] == list[i];
    }
  }

  lemma {:induction false} NumbersCount(list: seq<Interface>)
    requires Unique(list)
    ensures |Numbers(list)| == |list|
  {
    if list != [] {
      var n := |list| - 1;
      NumbersCount(list[..n]);
      NumbersAre(list[..n], list[n].num);
    }
  }

  lemma {:induction false} AllNumbers(n: nat) returns (all: set<nat>)
    ensures |all| == n && forall k :: k in all <==> 0 <= k < n
  {
    if n == 0 { return {}; }
    var less := AllNumbers(n - 1);
    all := less + {n - 1};
  }

  lemma SubsetSize(a: set<nat>, b: set<nat>)
    requires a <= b
    ensures |a| <= |b| && (|a| == |b| ==> a == b)
  {
    assert b == a + (b - a);
  }

  /** Some number is free exactly if there are fewer than 255 interfaces. */
  lemma FreeNumberIff(list: seq<Interface>)
    requires Unique(list)
    ensures |list| <= NUMBERS
    ensures (exists k :: 0 <= k < NUMBERS && !InUse(list, k)) <==> |list| < NUMBERS
  {
    NumbersCount(list);
    var all := AllNumbers(NUMBERS);
    var used := Numbers(list);
    forall k: nat ensures InUse(list, k) <==> k in used { NumbersAre(list, k); }
    SubsetSize(used, all);
    if forall k :: 0 <= k < NUMBERS ==> InUse(list, k) {
      assert all <= used;
      SubsetSize(all, used);
    } else {
      var k :| 0 <= k < NUMBERS && !InUse(list, k);
      assert k in all && k !in used;
    }
  }

  ghost predicate Ends(list: seq<Interface>, num: nat) {
    exists n: nat :: !Rounds(list, num, n).1
  }

  /** The search for a number ends exactly if fewer than 255 interfaces are present. */
  lemma SearchEndsIff(list: seq<Interface>, num: nat)
    requires Unique(list) && num <= NUMBERS
    ensures Ends(list, num) <==> |list| < NUMBERS
  {
    hide Unique, InUse, Rounds;
    FreeNumberIff(list);
    if |list| < NUMBERS {
      var k: nat :| 0 <= k < NUMBERS && !InUse(list, k);
      SearchEnds(list, num, k);
      SearchCloser(list, num, k);
      assert !Rounds(list, num, Distance(num, k) + 1).1;
    } else {
      forall n: nat ensures Rounds(list, num, n).1 { SearchForever(list, num, n); }
    }
  }

  // ------------------------------------------------------------- names and indices

  /** `netif_get_index`, in a `u8_t`. */
  function IndexOf(n: Interface): nat { (n.num + 1) % 256 }

  /** The name of an interface: two letters and its number. */
  function NameOf(n: Interface): string { [n.first, n.second] + Notation(n.num) }

  /** `netif_get_by_index`. */
  method GetByIndex(list: seq<Interface>, idx: nat) returns (i: nat)
    ensures i <= |list| && (i < |list| ==> idx != 0 && (list[i].num + 1) % 256 == idx)
    ensures i == |list| ==> idx == 0 || forall k :: 0 <= k < |list| ==> (list[k].num + 1) % 256 != idx
  {
    i := 0;
    if idx == 0 { return |list|; }
    while i < |list| && idx != IndexOf(list[i])
      invariant i <= |list| && forall k :: 0 <= k < i ==> IndexOf(list[k]) != idx
    {
      i := i + 1;
    }
  }

  /** `netif_index_to_name`; the result tells whether there is such an interface. */
  method IndexToName(list: seq<Interface>, idx: nat, name: array<char>) returns (found: bool, ghost i: nat)
    requires Unique(list) && name.Length == NAME_SIZE && idx < 256
    modifies name
    ensures found <==> exists k :: 0 <= k < |list| && list[k].num + 1 == idx
    ensures found ==> i < |list| && list[i].num + 1 == idx && Reads(name[..], [list[i].first, list[i].second] + Notation(list[i].num))
  {
    hide Notation;
    var k := GetByIndex(list, idx);
    i := k;
    if k == |list| { return false, i; }
    name[0] := list[k].first;
    name[1] := list[k].second;
    var digits := new char[NAME_SIZE - 2];
    assert idx - 1 == list[k].num;
    NumberFits(list[k].num);
    Itoa.Itoa(digits, idx - 1);
    ghost var text := digits[..];
    forall j | 0 <= j < NAME_SIZE - 2 {
      name[2 + j] := digits[j];
    }
    NameIs(list[k], name[..], text);
    found := true;
  }

  /** A buffer that starts with two given letters and goes on with a number as text. */
  ghost predicate Reads(buffer: string, name: string) {
    |buffer| >= 2 && |name| >= 2 && buffer[..2] == name[..2] && CString(buffer[2..]) == name[2..]
  }

  lemma NumberFits(num: nat)
    requires num < NUMBERS
    ensures |Notation(num)| < NAME_SIZE - 2
  {
    var tens, hundreds := num / 10, num / 10 / 10;
    assert |Decimal(hundreds)| == 1;
    assert |Decimal(tens)| <= 2;
  }

  lemma NameIs(n: Interface, buffer: string, digits: string)
    requires |buffer| == |digits| + 2 && buffer[0] == n.first && buffer[1] == n.second
    requires forall j :: 0 <= j < |digits| ==> buffer[2 + j] == digits[j]
    requires CString(digits) == Notation(n.num)
    ensures Reads(buffer, NameOf(n))
  {
    hide Notation, CString;
    assert buffer[2..] == digits;
    assert NameOf(n)[2..] == Notation(n.num);
  }

  /** `netif_find`: the number is read from the third character on, into a `u8_t`. */
  method Find(list: seq<Interface>, name: string) returns (i: nat)
    requires |name| >= 2
    ensures var num := Atoi(CString(name[2..])) % 256;
            && i <= |list| && (i < |list| ==> list[i].num == num && list[i].first == name[0] && list[i].second == name[1])
            && forall k :: 0 <= k < i ==> list[k].num != num || list[k].first != name[0] || list[k].second != name[1]
  {
    var num := Atoi(CString(name[2..])) % 256;
    i := 0;
    while i < |list| && !(num == list[i].num && name[0] == list[i].first && name[1] == list[i].second)
      invariant i <= |list| && forall k :: 0 <= k < i ==> !Named(list[k], name)
    {
      i := i + 1;
    }
  }

  predicate Named(n: Interface, name: string)
    requires |name| >= 2
  {
    n.num == Atoi(CString(name[2..])) % 256 && n.first == name[0] && n.second == name[1]
  }

  /** From an index to a name and back: looking up the name that `netif_index_to_name` writes
      finds the interface with that index, and no other one has that name. */
  lemma NameRoundTrip(list: seq<Interface>, i: nat, buffer: string)
    requires Unique(list) && i < |list| && Reads(buffer, NameOf(list[i]))
    ensures forall k :: 0 <= k < |list| ==> (Named(list[k], buffer) <==> k == i)
  {
    hide Notation, CString, Atoi;
    var n := list[i];
    assert NameOf(n)[2..] == Notation(n.num);
    AtoiOfNotation(n.num);
    assert buffer[0] == buffer[..2][0] == n.first && buffer[1] == buffer[..2][1] == n.second;
    assert Named(n, buffer);
  }

  // -------------------------------------------------------------- adding and removing

  /** The position of an interface in the list. */
  function Position(list: seq<Interface>, id: nat): (i: nat)
    ensures i <= |list| && (i < |list| ==> list[i].id == id) && forall k :: 0 <= k < i ==> list[k].id != id
  {
    if list == [] || list[0].id == id then 0 else
      var i := 1 + Position(list[1..], id);
      assert forall k :: 1 <= k < i ==> list[k] == list[1..][k - 1];
      i
  }

  class Stack {
    var list: seq<Interface>      // netif_list
    var next: nat                 // netif_num

    ghost predicate Valid()
      reads this
    {
      Unique(list) && next < NUMBERS
    }

    constructor ()
      ensures Valid() && list == []
    {
      list, next := [], 0;
    }

    /** The search loops of `netif_add`: the first free number from `netif_num` on, round the
        end. */
    method ChooseNumber() returns (num: nat)
      requires Valid() && |list| < NUMBERS
      ensures num < NUMBERS && !InUse(list, num)
      ensures forall k :: 0 <= k < NUMBERS && !InUse(list, k) ==> Distance(next, num) <= Distance(next, k)
    {
      hide Unique, InUse, Distance;
      FreeNumberIff(list);
      ghost var free: nat :| 0 <= free < NUMBERS && !InUse(list, free);
      num := next;
      ghost var steps := 0;
      while true
        invariant num <= NUMBERS
        invariant forall k :: 0 <= k < NUMBERS && !InUse(list, k) ==> Distance(num, k) + steps == Distance(next, k)
        decreases Distance(num, free)
      {
        SearchCloser(list, num, free);
        forall k | 0 <= k < NUMBERS && !InUse(list, k)
          ensures 0 <= Distance(Wrap(num), k) == Distance(num, k)
          ensures InUse(list, Wrap(num)) ==> Distance(Wrap(num) + 1, k) + 1 == Distance(num, k)
        {
          SearchCloser(list, num, k);
        }
        if num == 255 { num := 0; }
        var used := IsUsed(num);
        if !used {
          NoDistance(num);
          return;
        }
        num, steps := num + 1, steps + 1;
      }
    }

    /** The inner loop: goes through the list until it meets the number. */
    method IsUsed(num: nat) returns (used: bool)
      ensures used <==> InUse(list, num)
    {
      for i := 0 to |list|
        invariant forall k :: 0 <= k < i ==> list[k].num != num
      {
        if list[i].num == num { return true; }
      }
      return false;
    }

    /** `netif_add`, once the interface is initialised: it must not be in the list yet, and there
        must be fewer than 255. */
    method Add(id: nat, first: char, second: char)
      requires Valid() && |list| < NUMBERS && Position(list, id) == |list|
      modifies this
      ensures Valid() && |list| == |old(list)| + 1 && list[1..] == old(list)
      ensures list[0].id == id && list[0].first == first && list[0].second == second
      ensures next == (list[0].num + 1) % NUMBERS
      ensures forall k :: 0 <= k < NUMBERS && !InUse(old(list), k) ==> Distance(old(next), list[0].num) <= Distance(old(next), k)
    {
      var num := ChooseNumber();
      next := if num == 254 then 0 else num + 1;
      list := [Interface(id, first, second, num)] + list;
    }

    /** `netif_remove`: the interface is unlinked; without it in the list nothing changes. */
    method Remove(id: nat)
      requires Valid()
      modifies this`list
      ensures Valid()
      ensures var i := Position(old(list), id);
              list == if i < |old(list)| then old(list)[..i] + old(list)[i + 1..] else old(list)
    {
      var i := 0;
      while i < |list| && list[i].id != id
        invariant i <= |list| && forall k :: 0 <= k < i ==> list[k].id != id
      {
        i := i + 1;
      }
      PositionIs(list, id, i);
      if i < |list| {
        RemoveKeeps(list, i);
        list := list[..i] + list[i + 1..];
      }
    }
  }

  lemma NoDistance(num: nat)
    requires num < NUMBERS
    ensures Distance(num, num) == 0
  {
  }

  lemma PositionIs(list: seq<Interface>, id: nat, i: nat)
    requires i <= |list| && (i < |list| ==> list[i].id == id) && forall k :: 0 <= k < i ==> list[k].id != id
    ensures Position(list, id) == i
  {
  }

  lemma RemoveKeeps(list: seq<Interface>, i: nat)
    requires Unique(list) && i < |list|
    ensures Unique(list[..i] + list[i + 1..])
  {
    var r := list[..i] + list[i + 1..];
    forall k | 0 <= k < |r| ensures r[k] == list[if k < i then k else k + 1] {}
  }
}
