/** Numbers as text: `lwip_itoa` (lwip/src/core/def.c), which fills a buffer from its end, and the
    `atoi` that reads it back. */
module Itoa {

  const NUL: char := '\0'

  function Digit(d: int): char
    requires 0 <= d < 10
  {
    '0' + d as char
  }

  predicate IsDigit(c: char) { '0' <= c <= '9' }

  function DigitValue(c: char): nat
    requires IsDigit(c)
  {
    (c - '0') as nat
  }

  /** The decimal notation of a natural number. */
  function Decimal(n: nat): (s: string)
    ensures s != [] && forall i :: 0 <= i < |s| ==> IsDigit(s[i])
  {
    if n < 10 then [Digit(n)] else Decimal(n / 10) + [Digit(n % 10)]
  }

  function Notation(number: int): string {
    if number >= 0 then Decimal(number) else ['-'] + Decimal(-number)
  }

  /** The string that a buffer holds: what comes before the first zero character. */
  function CString(s: string): string {
    if s == [] || s[0] == NUL then [] else [s[0]] + CString(s[1..])
  }

  // ---------------------------------------------------------------------- atoi

  /** The value of the digits that a string starts with, behind `acc`. */
  function Digits(s: string, acc: nat): nat
    decreases |s|
  {
    if s == [] || !IsDigit(s[0]) then acc else Digits(s[1..], acc * 10 + DigitValue(s[0]))
  }

  predicate IsSpace(c: char) { c == ' ' || '\t' <= c <= '\r' }

  /** The C library's `atoi`, for values that fit. */
  function Atoi(s: string): int {
    if s == [] then 0
    else if IsSpace(s[0]) then Atoi(s[1..])
    else if s[0] == '-' then -(Digits(s[1..], 0) as int)
    else if s[0] == '+' then Digits(s[1..], 0)
    else Digits(s, 0)
  }

  lemma {:induction false} DigitsAppend(s: string, d: char, acc: nat)
    requires IsDigit(d) && forall i :: 0 <= i < |s| ==> IsDigit(s[i])
    ensures Digits(s + [d], acc) == Digits(s, acc) * 10 + DigitValue(d)
    decreases |s|
  {
    if s == [] {
      assert s + [d] == [d] && [d][1..] == [];
    } else {
      assert (s + [d])[1..] == s[1..] + [d];
      DigitsAppend(s[1..], d, acc * 10 + DigitValue(s[0]));
    }
  }

  lemma {:induction false} DigitsOfDecimal(n: nat)
    ensures Digits(Decimal(n), 0) == n
  {
    if n < 10 {
      assert [Digit(n)][1..] == [];
    } else {
      DigitsOfDecimal(n / 10);
      DigitsAppend(Decimal(n / 10), Digit(n % 10), 0);
    }
  }

  /** Reading the notation of a number gives the number. */
  lemma AtoiOfNotation(number: int)
    ensures Atoi(Notation(number)) == number
  {
    var s := Decimal(if number >= 0 then number else -number);
    DigitsOfDecimal(if number >= 0 then number else -number);
    if number < 0 {
      assert (['-'] + s)[1..] == s;
    } else {
      assert IsDigit(s[0]);
    }
  }

  // ---------------------------------------------------------------------- itoa

  lemma {:induction false} CStringIs(s: string, t: string)
    requires |t| < |s| && s[..|t|] == t && s[|t|] == NUL && forall i :: 0 <= i < |t| ==> t[i] != NUL
    ensures CString(s) == t
    decreases |t|
  {
    if t != [] {
      assert s[0] == t[0];
      CStringIs(s[1..], t[1..]);
    }
  }

  lemma NotationHasNoNul(number: int)
    ensures forall i :: 0 <= i < |Notation(number)| ==> Notation(number)[i] != NUL
  {
  }

  /** What the loop still has to write in front of `done` to have the notation of `n`. */
  ghost predicate Remains(n: nat, left: nat, done: string) {
    Decimal(n) == if left == 0 then done else Decimal(left) + done
  }

  lemma RemainsStep(n: nat, left: nat, done: string)
    requires left > 0 && Remains(n, left, done)
    ensures Remains(n, left / 10, [Digit(left % 10)] + done)
  {
    if left < 10 {
      assert left / 10 == 0 && left % 10 == left;
    } else {
      assert Decimal(left) + done == Decimal(left / 10) + ([Digit(left % 10)] + done);
    }
  }

  /** The loop of `lwip_itoa`: digits from the end of the buffer, as long as there is room behind
      `res`. What is left of the number is not zero exactly if there was not enough. */
  method PutDigits(result: array<char>, n: nat, res: nat) returns (tmp: nat, left: nat)
    requires res + 1 <= result.Length
    modifies result
    ensures res <= tmp < result.Length && result[result.Length - 1] == NUL
    ensures forall i :: 0 <= i < res && i < result.Length - 1 ==> result[i] == old(result[i])
    ensures n == 0 ==> left == 0 && tmp == result.Length - 1
    ensures n > 0 ==> (left == 0 <==> |Decimal(n)| <= result.Length - 1 - res)
    ensures n > 0 && left == 0 ==> result[tmp..result.Length - 1] == Decimal(n)
  {
    hide Decimal, Remains, Digit;
    var end := result.Length - 1;
    tmp, left := end, n;
    result[tmp] := NUL;
    ghost var done: string := [];
    NothingDone(n);
    while left != 0 && tmp > res
      invariant res <= tmp <= end && result[end] == NUL && (n == 0 ==> left == 0 && tmp == end)
      invariant forall i :: 0 <= i < res && i < end ==> result[i] == old(result[i])
      invariant n > 0 ==> Remains(n, left, done)
      invariant |done| == end - tmp && forall i :: tmp <= i < end ==> result[i] == done[i - tmp]
    {
      RemainsStep(n, left, done);
      var c := Digit(left % 10);
      done := [c] + done;
      tmp := tmp - 1;
      result[tmp] := c;
      left := left / 10;
    }
    if n > 0 { RemainsLength(n, left, done); }
    assert result[tmp..end] == done;
  }

  lemma NothingDone(n: nat)
    ensures n > 0 ==> Remains(n, n, [])
  {
    assert Decimal(n) + [] == Decimal(n);
  }

  lemma RemainsLength(n: nat, left: nat, done: string)
    requires Remains(n, left, done)
    ensures left > 0 ==> |Decimal(n)| > |done|
    ensures left == 0 ==> Decimal(n) == done
  {
  }

  method PutEmpty(result: array<char>)
    requires result.Length > 0
    modifies result
    ensures CString(result[..]) == []
  {
    result[0] := NUL;
  }

  method PutZero(result: array<char>)
    requires result.Length > 1
    modifies result
    ensures CString(result[..]) == ['0']
  {
    result[0], result[1] := '0', NUL;
    CStringIs(result[..], ['0']);
  }

  /** `lwip_itoa`: the buffer holds the notation of the number if that fits with its zero
      character, and the empty string otherwise. */
  method Itoa(result: array<char>, number: int)
    modifies result
    ensures result.Length > 0 ==>
      CString(result[..]) == if |Notation(number)| < result.Length then Notation(number) else []
  {
    hide Decimal, CString, Notation;
    NotationLength(number);
    if result.Length < 2 {
      if result.Length == 1 { PutEmpty(result); }
      return;
    }
    var res := 0;
    if number < 0 {
      result[0] := '-';
      res := 1;
    }
    var tmp, n := PutDigits(result, if number >= 0 then number else -number, res);
    if n != 0 {
      PutEmpty(result);
      return;
    }
    ghost var digits := result[tmp..result.Length - 1];
    ZeroOnly(number, digits);
    if result[tmp] == NUL {
      PutZero(result);
    } else {
      Settle(result, number, tmp, res);
    }
  }

  /** Moving the digits behind the sign. */
  method Settle(result: array<char>, number: int, tmp: nat, res: nat)
    requires res == (if number < 0 then 1 else 0) && res <= tmp < result.Length && result[result.Length - 1] == NUL
    requires number < 0 ==> result[0] == '-'
    requires result[tmp..result.Length - 1] == Decimal(if number >= 0 then number else -number)
    modifies result
    ensures CString(result[..]) == Notation(number)
  {
    hide Decimal, CString, Notation;
    ghost var digits := result[tmp..result.Length - 1];
    MoveDown(result, tmp, res);
    Assembled(number, digits, result[..]);
  }

  /** The `memmove` at the end. */
  method MoveDown(a: array<char>, from: nat, to: nat)
    requires to <= from <= a.Length
    modifies a
    ensures forall j :: to <= j < to + (a.Length - from) ==> a[j] == old(a[from + (j - to)])
    ensures forall j :: 0 <= j < to ==> a[j] == old(a[j])
  {
    forall j | 0 <= j < a.Length - from {
      a[to + j] := a[from + j];
    }
  }

  lemma Assembled(number: int, digits: string, s: string)
    requires digits == Decimal(if number >= 0 then number else -number)
    requires var res := if number < 0 then 1 else 0;
             && res + |digits| < |s| && (number < 0 ==> s[0] == '-') && s[res + |digits|] == NUL
             && forall j :: res <= j < res + |digits| ==> s[j] == digits[j - res]
    ensures CString(s) == Notation(number)
  {
    hide Decimal, CString;
    NotationHasNoNul(number);
    CStringIs(s, Notation(number));
  }

  lemma NotationLength(number: int)
    ensures |Notation(number)| == |Decimal(if number >= 0 then number else -number)| + (if number < 0 then 1 else 0) > 0
  {
  }

  /** No digit was written only if the number is zero. */
  lemma ZeroOnly(number: int, digits: string)
    requires number != 0 ==> digits == Decimal(if number >= 0 then number else -number)
    ensures digits == [] ==> number == 0 && Notation(number) == ['0']
    ensures digits != [] && number != 0 ==> digits[0] != NUL
  {
  }

  /** Reading the buffer gives the number back exactly if the notation fits, or the number is
      zero. */
  lemma ItoaRoundTrip(number: int, bufsize: nat, s: string)
    requires s == if |Notation(number)| < bufsize then Notation(number) else []
    ensures Atoi(s) == number <==> |Notation(number)| < bufsize || number == 0
  {
    hide Notation;
    AtoiOfNotation(number);
  }
}
