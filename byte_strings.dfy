/**
 * PHP strings are byte strings. Here a `string` stands for one: every char is
 * one byte (its code is below 256), so a multi-byte UTF-8 character such as the
 * flat sign occupies several chars, exactly as `strlen` and `substr` see it.
 * The functions below are the standard-library string operations the core
 * calls, with PHP's own semantics written out.
 */
module ByteStrings {

  /** `strtolower` on one byte: only ASCII `A`-`Z` change. */
  function LowerByte(c: char): char {
    if 'A' <= c <= 'Z' then (c as int + 32) as char else c
  }

  /** `strtoupper` on one byte: only ASCII `a`-`z` change. */
  function UpperByte(c: char): char {
    if 'a' <= c <= 'z' then (c as int - 32) as char else c
  }

  /** `strtolower` */
  function Lower(s: string): string {
    seq(|s|, i requires 0 <= i < |s| => LowerByte(s[i]))
  }

  /** `strtoupper` */
  function Upper(s: string): string {
    seq(|s|, i requires 0 <= i < |s| => UpperByte(s[i]))
  }

  /** The bytes `trim` removes when it is given no character list. */
  const TrimBytes: string := " \t\n\r\0\U{0B}"

  /** `ltrim($s, $chars)` */
  function LTrim(s: string, chars: string): string {
    if s != [] && s[0] in chars then LTrim(s[1..], chars) else s
  }

  /** `rtrim($s, $chars)` */
  function RTrim(s: string, chars: string): string {
    if s != [] && s[|s| - 1] in chars then RTrim(s[..|s| - 1], chars) else s
  }

  /** `trim($s)` */
  function Trim(s: string): string {
    RTrim(LTrim(s, TrimBytes), TrimBytes)
  }

  /** `substr($s, 0, $n)` for a non-negative length */
  function Prefix(s: string, n: nat): string {
    if n <= |s| then s[..n] else s
  }

  /** `explode($d, $s)` for a one-byte delimiter: empty pieces are kept. */
  function Explode(s: string, d: char): (r: seq<string>)
    ensures |r| >= 1
  {
    if s == [] then [""]
    else if s[0] == d then [""] + Explode(s[1..], d)
    else
      var rest := Explode(s[1..], d);
      [[s[0]] + rest[0]] + rest[1..]
  }

  /** `str_replace($c, '', $s)` for a one-byte search string. */
  function RemoveAll(s: string, c: char): string {
    if s == [] then [] else (if s[0] == c then [] else [s[0]]) + RemoveAll(s[1..], c)
  }

  /** A numeric string, as far as this model reads one: one or more ASCII digits. */
  predicate IsDigits(s: string) {
    |s| > 0 && forall i :: 0 <= i < |s| ==> '0' <= s[i] <= '9'
  }

  /** The value PHP gives a digit string when it is used as a number. */
  function DigitsValue(s: string): nat
    requires IsDigits(s)
  {
    if |s| == 1 then s[0] as int - '0' as int
    else 10 * DigitsValue(s[..|s| - 1]) + (s[|s| - 1] as int - '0' as int)
  }

  // ---------------------------------------------------------------------
  // Facts about these operations that the proofs of the core rely on.

  lemma LowerAppend(a: string, b: string)
    ensures Lower(a + b) == Lower(a) + Lower(b)
  {
    assert |Lower(a + b)| == |Lower(a) + Lower(b)|;
    forall i | 0 <= i < |a + b|
      ensures Lower(a + b)[i] == (Lower(a) + Lower(b))[i]
    {
      if i < |a| { assert (a + b)[i] == a[i]; } else { assert (a + b)[i] == b[i - |a|]; }
    }
  }

  /** A string without ASCII capitals is its own lower-case form. */
  lemma LowerUntouched(s: string)
    requires forall i :: 0 <= i < |s| ==> !('A' <= s[i] <= 'Z')
    ensures Lower(s) == s
  {
  }

  lemma LowerOfUpper(s: string)
    ensures Lower(Upper(s)) == Lower(s)
  {
  }

  lemma LowerIdempotent(s: string)
    ensures Lower(Lower(s)) == Lower(s)
  {
  }

  /** A string that does not start or end with a trimmed byte is left alone by `trim`. */
  lemma TrimUntouched(s: string)
    requires s != [] ==> s[0] !in TrimBytes && s[|s| - 1] !in TrimBytes
    ensures Trim(s) == s
  {
  }

  lemma RTrimUntouched(s: string, chars: string)
    requires s != [] ==> s[|s| - 1] !in chars
    ensures RTrim(s, chars) == s
  {
  }

  /** `rtrim` removes exactly one trailing byte of the list from a string that ends with it once. */
  lemma RTrimOne(s: string, c: char, chars: string)
    requires c in chars && (s != [] ==> s[|s| - 1] !in chars)
    ensures RTrim(s + [c], chars) == s
  {
    assert (s + [c])[..|s + [c]| - 1] == s;
  }

  /** A string without the delimiter is one piece. */
  lemma {:induction false} ExplodeWhole(s: string, d: char)
    requires d !in s
    ensures Explode(s, d) == [s]
  {
    if s != [] {
      ExplodeWhole(s[1..], d);
      assert [s[0]] + s[1..] == s;
    }
  }

  /** A delimiter-free head is split off as the first piece. */
  lemma {:induction false} ExplodeCons(a: string, d: char, b: string)
    requires d !in a
    ensures Explode(a + [d] + b, d) == [a] + Explode(b, d)
  {
    if a == [] {
      assert a + [d] + b == [d] + b;
      assert ([d] + b)[1..] == b;
    } else {
      ExplodeCons(a[1..], d, b);
      assert (a + [d] + b)[1..] == a[1..] + [d] + b;
      assert [a[0]] + a[1..] == a;
    }
  }

  lemma ExplodeTwo(a: string, d: char, b: string)
    requires d !in a && d !in b
    ensures Explode(a + [d] + b, d) == [a, b]
  {
    ExplodeCons(a, d, b);
    ExplodeWhole(b, d);
  }

  lemma ExplodeThree(a: string, d: char, b: string, c: string)
    requires d !in a && d !in b && d !in c
    ensures Explode(a + [d] + b + [d] + c, d) == [a, b, c]
  {
    assert a + [d] + b + [d] + c == a + [d] + (b + [d] + c);
    ExplodeCons(a, d, b + [d] + c);
    ExplodeTwo(b, d, c);
  }

  lemma {:induction false} RemoveAllAppend(a: string, b: string, c: char)
    ensures RemoveAll(a + b, c) == RemoveAll(a, c) + RemoveAll(b, c)
  {
    if a == [] {
      assert a + b == b;
    } else {
      RemoveAllAppend(a[1..], b, c);
      assert (a + b)[0] == a[0];
      assert (a + b)[1..] == a[1..] + b;
    }
  }

  lemma {:induction false} RemoveAllAbsent(s: string, c: char)
    requires c !in s
    ensures RemoveAll(s, c) == s
  {
    if s != [] {
      RemoveAllAbsent(s[1..], c);
      assert [s[0]] + s[1..] == s;
    }
  }

  lemma {:induction false} RemoveAllShrinks(s: string, c: char)
    ensures |RemoveAll(s, c)| <= |s| && c !in RemoveAll(s, c)
  {
    if s != [] {
      RemoveAllShrinks(s[1..], c);
    }
  }
}
