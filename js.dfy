/**
 * The few JavaScript built-ins the game's decision logic relies on:
 * values that may be null or undefined, String.prototype.indexOf,
 * String.prototype.toLowerCase, and the keys a `for ... in` loop binds
 * when it walks an array.
 */
module Js {

  /** A JavaScript value that may be null or undefined (both collapse to Null). */
  datatype Nullable<T> = Null | NonNull(value: T)

  /** `sub` occurs in `s` starting at index `i`. */
  predicate MatchesAt(s: string, sub: string, i: int)
  {
    0 <= i && i + |sub| <= |s| && s[i..i + |sub|] == sub
  }

  /** `sub` occurs somewhere in `s` (the empty string occurs everywhere). */
  ghost predicate Occurs(s: string, sub: string)
  {
    exists i :: MatchesAt(s, sub, i)
  }

  /**
   * String.prototype.indexOf(sub) with no start position: the first index
   * at which `sub` occurs in `s`, or -1 when it does not occur.
   */
  function IndexOf(s: string, sub: string): (r: int)
    ensures -1 <= r <= |s|
    ensures r == -1 <==> !Occurs(s, sub)
    ensures r != -1 ==> MatchesAt(s, sub, r)
    ensures forall j :: 0 <= j < r ==> !MatchesAt(s, sub, j)
  {
    IndexFrom(s, sub, 0)
  }

  /** The first occurrence of `sub` in `s` at or after index `from`, or -1. */
  function IndexFrom(s: string, sub: string, from: nat): (r: int)
    requires forall j :: 0 <= j < from ==> !MatchesAt(s, sub, j)
    ensures -1 <= r <= |s|
    ensures r == -1 <==> !Occurs(s, sub)
    ensures r != -1 ==> from <= r && MatchesAt(s, sub, r)
    ensures forall j :: 0 <= j < r ==> !MatchesAt(s, sub, j)
    decreases |s| + 1 - from
  {
    if from + |sub| > |s| then
      assert forall j :: from <= j ==> !MatchesAt(s, sub, j);
      -1
    else if s[from..from + |sub|] == sub then
      assert MatchesAt(s, sub, from);
      from
    else
      IndexFrom(s, sub, from + 1)
  }

  /** A one-character string occurs in `s` exactly when that character does. */
  lemma {:induction false} OccursChar(s: string, c: char)
    ensures Occurs(s, [c]) <==> c in s
  {
    if c in s {
      var i :| 0 <= i < |s| && s[i] == c;
      assert MatchesAt(s, [c], i);
    }
    if Occurs(s, [c]) {
      var i :| MatchesAt(s, [c], i);
      assert s[i] == s[i..i + 1][0] == c;
    }
  }

  /** A string occurs only where its first character does. */
  lemma OccursHead(s: string, sub: string)
    requires |sub| > 0 && Occurs(s, sub)
    ensures sub[0] in s
  {
    var i :| MatchesAt(s, sub, i);
    assert s[i] == s[i..i + |sub|][0];
  }

  /** String.prototype.toLowerCase on one character (ASCII letters only). */
  function LowerChar(c: char): char
  {
    if 'A' <= c <= 'Z' then (c as int - 'A' as int + 'a' as int) as char else c
  }

  /**
   * String.prototype.toLowerCase: every upper-case letter is replaced by its
   * lower-case form, everything else is kept, and the length is unchanged.
   */
  function ToLower(s: string): (r: string)
    ensures |r| == |s|
    ensures forall i :: 0 <= i < |r| ==> !('A' <= r[i] <= 'Z')
    ensures forall i :: 0 <= i < |s| && !('A' <= s[i] <= 'Z') ==> r[i] == s[i]
    ensures forall i :: 0 <= i < |s| && 'A' <= s[i] <= 'Z' ==> r[i] as int == s[i] as int + 32
  {
    seq(|s|, i requires 0 <= i < |s| => LowerChar(s[i]))
  }

  /** Lower-casing twice is lower-casing once. */
  lemma ToLowerIdempotent(s: string)
    ensures ToLower(ToLower(s)) == ToLower(s)
  {
    var once := ToLower(s);
    var twice := ToLower(once);
    assert forall i :: 0 <= i < |once| ==> twice[i] == once[i];
  }

  /** A string with no upper-case letter is its own lower-case form. */
  lemma ToLowerOfLower(s: string)
    requires forall i :: 0 <= i < |s| ==> !('A' <= s[i] <= 'Z')
    ensures ToLower(s) == s
  {
    var r := ToLower(s);
    assert forall i :: 0 <= i < |s| ==> r[i] == s[i];
  }

  /** The decimal text JavaScript gives a non-negative integer, e.g. as an array key. */
  function DecimalString(n: nat): (s: string)
    ensures |s| >= 1
    ensures forall i :: 0 <= i < |s| ==> '0' <= s[i] <= '9'
    ensures n < 10 ==> s == [('0' as int + n) as char]
    ensures n >= 10 ==> s[0] != '0'
  {
    var last := [('0' as int + n % 10) as char];
    if n < 10 then last else DecimalString(n / 10) + last
  }

  /**
   * The keys a `for (var k in a)` loop binds for an array `a` of length `n`:
   * the indices as strings "0", "1", ..., not the elements.
   */
  function ForInKeys(n: nat): (keys: seq<string>)
    ensures |keys| == n
    ensures forall i :: 0 <= i < n ==> keys[i] == DecimalString(i)
  {
    seq(n, i requires 0 <= i < n => DecimalString(i))
  }
}
