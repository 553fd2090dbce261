/**
 * The C library text primitives the record decoder relies on: atoi,
 * NUL-terminated strings, and the "scan forward to a byte" loops.
 */
module CText {
  import opened Wrappers

  /** isspace in the C locale. */
  predicate IsSpace(c: char)
  {
    c == ' ' || c == '\t' || c == '\n' || c == '\r' || c == '\U{0B}' || c == '\U{0C}'
  }

  predicate IsDigit(c: char)
  {
    '0' <= c <= '9'
  }

  predicate AllDigits(s: string)
  {
    forall k :: 0 <= k < |s| ==> IsDigit(s[k])
  }

  function DigitChar(d: nat): (c: char)
    requires d < 10
    ensures IsDigit(c) && c as int - '0' as int == d
  {
    ('0' as int + d) as char
  }

  /** Leading white space, as atoi skips it. */
  function DropSpaces(s: string): (r: string)
    ensures |r| <= |s| && r == s[|s| - |r|..]
    ensures |r| > 0 ==> !IsSpace(r[0])
  {
    if |s| > 0 && IsSpace(s[0]) then DropSpaces(s[1..]) else s
  }

  /** The longest prefix of decimal digits. */
  function DigitRun(s: string): string
  {
    if |s| > 0 && IsDigit(s[0]) then [s[0]] + DigitRun(s[1..]) else []
  }

  /** DigitRun stops exactly at the first byte that is not a digit. */
  lemma {:induction false} DigitRunIsLongest(s: string)
    ensures |DigitRun(s)| <= |s| && DigitRun(s) == s[..|DigitRun(s)|] && AllDigits(DigitRun(s))
    ensures |DigitRun(s)| < |s| ==> !IsDigit(s[|DigitRun(s)|])
  {
    if |s| > 0 && IsDigit(s[0]) {
      DigitRunIsLongest(s[1..]);
      var r := DigitRun(s[1..]);
      assert DigitRun(s) == [s[0]] + r;
      assert s[..1 + |r|] == [s[0]] + s[1..][..|r|];
    }
  }

  /**
   * The number a run of decimal digits denotes, most significant first
   * (digit values are taken relative to '0').
   */
  function DecimalValue(d: string): int
  {
    if d == [] then 0 else DecimalValue(d[..|d| - 1]) * 10 + (d[|d| - 1] as int - '0' as int)
  }

  /**
   * atoi: skip white space, read an optional sign, then the longest run of
   * digits; anything after the digits is ignored. C's 32-bit overflow is
   * undefined behaviour and is not modelled: the result is unbounded.
   */
  function Atoi(s: string): int
  {
    var t := DropSpaces(s);
    if |t| > 0 && t[0] == '-' then -DecimalValue(DigitRun(t[1..]))
    else if |t| > 0 && t[0] == '+' then DecimalValue(DigitRun(t[1..]))
    else DecimalValue(DigitRun(t))
  }

  /** Decimal text of a natural number, without leading zeros. */
  function ShowNat(n: nat): (r: string)
    ensures |r| > 0 && AllDigits(r)
  {
    if n < 10 then [DigitChar(n)] else ShowNat(n / 10) + [DigitChar(n % 10)]
  }

  /** Decimal text of an integer, as printf("%d") writes it. */
  function ShowInt(n: int): string
  {
    if n < 0 then "-" + ShowNat(-n) else ShowNat(n)
  }

  /** The decimal text of an integer contains neither a space nor a NUL. */
  lemma ShowIntHasNoSeparators(n: int)
    ensures ' ' !in ShowInt(n) && '\0' !in ShowInt(n)
  {
    var d := if n < 0 then ShowNat(-n) else ShowNat(n);
    assert forall k :: 0 <= k < |d| ==> IsDigit(d[k]);
    assert ShowInt(n) == if n < 0 then "-" + d else d;
  }

  lemma {:induction false} DigitRunOfDigits(s: string)
    requires AllDigits(s)
    ensures DigitRun(s) == s
  {
    if |s| > 0 {
      DigitRunOfDigits(s[1..]);
      assert [s[0]] + s[1..] == s;
    }
  }

  lemma {:induction false} DecimalValueShowNat(n: nat)
    ensures DecimalValue(ShowNat(n)) == n
  {
    if n >= 10 {
      DecimalValueShowNat(n / 10);
      var s := ShowNat(n);
      assert s[..|s| - 1] == ShowNat(n / 10);
    }
  }

  lemma {:induction false} AtoiOfDigits(d: string)
    requires |d| > 0 && AllDigits(d)
    ensures Atoi(d) == DecimalValue(d)
  {
    assert IsDigit(d[0]);
    assert DropSpaces(d) == d;
    DigitRunOfDigits(d);
  }

  lemma {:induction false} AtoiOfNegatedDigits(d: string)
    requires |d| > 0 && AllDigits(d)
    ensures Atoi("-" + d) == -DecimalValue(d)
  {
    var m := "-" + d;
    assert DropSpaces(m) == m;
    assert m[1..] == d;
    DigitRunOfDigits(d);
  }

  /** atoi reads back every integer that ShowInt writes. */
  lemma {:induction false} AtoiShowInt(n: int)
    ensures Atoi(ShowInt(n)) == n
  {
    if n < 0 {
      AtoiOfNegatedDigits(ShowNat(-n));
      DecimalValueShowNat(-n);
    } else {
      AtoiOfDigits(ShowNat(n));
      DecimalValueShowNat(n);
    }
  }

  /** The C string that starts at the first byte of s: everything before the first NUL. */
  function CString(s: string): (r: string)
    ensures |r| <= |s| && r == s[..|r|] && '\0' !in r
    ensures |r| < |s| ==> s[|r|] == '\0'
  {
    if s == [] || s[0] == '\0' then [] else [s[0]] + CString(s[1..])
  }

  lemma {:induction false} CStringOfNulFree(s: string)
    requires '\0' !in s
    ensures CString(s) == s
  {
    if s != [] {
      CStringOfNulFree(s[1..]);
      assert [s[0]] + s[1..] == s;
    }
  }

  /**
   * Where a `while (*end != c) end++;` loop started at pos stops: the first
   * index at or after pos holding c, or None when the buffer ends first.
   */
  function FindFrom(s: string, pos: nat, c: char): (r: Option<nat>)
    decreases |s| - pos
    ensures r.Some? ==> pos <= r.value < |s| && s[r.value] == c
    ensures r.Some? ==> forall k :: pos <= k < r.value ==> s[k] != c
    ensures r.None? ==> forall k :: pos <= k < |s| ==> s[k] != c
  {
    if pos >= |s| then None
    else if s[pos] == c then Some(pos)
    else FindFrom(s, pos + 1, c)
  }

  /** The scan depends only on the bytes from pos up to the stopping byte. */
  lemma {:induction false} FindFromPrefix(pre: string, mid: string, post: string, c: char)
    requires c !in mid
    ensures FindFrom(pre + mid + [c] + post, |pre|, c) == Some(|pre| + |mid|)
  {
    var s := pre + mid + [c] + post;
    assert s[|pre| + |mid|] == c;
    assert forall k :: |pre| <= k < |pre| + |mid| ==> s[k] == mid[k - |pre|];
  }
}
