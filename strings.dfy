/**
 * The string primitives the exchange-rate code relies on:
 * `String.prototype.toLowerCase` (restricted to ASCII letters),
 * `String.prototype.trim` (the full JavaScript white-space and
 * line-terminator set) and the binary string order MongoDB uses when it
 * sorts on a string field.
 */
module Strings {

  // ---------------------------------------------------------------------
  // toLowerCase
  // ---------------------------------------------------------------------

  predicate IsUpper(c: char) {
    'A' <= c <= 'Z'
  }

  function LowerChar(c: char): char {
    if IsUpper(c) then (c as int + 32) as char else c
  }

  /** No ASCII upper-case letter occurs in `s`. */
  predicate IsLowerCase(s: string) {
    forall i :: 0 <= i < |s| ==> !IsUpper(s[i])
  }

  /** `s.toLowerCase()` on the ASCII letters; every other character is kept. */
  function Lower(s: string): (r: string)
    ensures |r| == |s|
    ensures IsLowerCase(r)
  {
    seq(|s|, i requires 0 <= i < |s| => LowerChar(s[i]))
  }

  /** Lower-casing changes no character but an upper-case letter, and moves each of those to its lower-case form. */
  lemma LowerChars(s: string)
    ensures forall i :: 0 <= i < |s| && !IsUpper(s[i]) ==> Lower(s)[i] == s[i]
    ensures forall i :: 0 <= i < |s| && IsUpper(s[i]) ==> Lower(s)[i] as int == s[i] as int + 32
  {
  }

  /** Lower-casing a lower-case string changes nothing. */
  lemma LowerOfLowerCase(s: string)
    requires IsLowerCase(s)
    ensures Lower(s) == s
  {
    forall i | 0 <= i < |s|
      ensures Lower(s)[i] == s[i]
    {
      assert !IsUpper(s[i]);
    }
  }

  /** toLowerCase is idempotent. */
  lemma LowerIdempotent(s: string)
    ensures Lower(Lower(s)) == Lower(s)
  {
    LowerOfLowerCase(Lower(s));
  }

  // ---------------------------------------------------------------------
  // trim
  // ---------------------------------------------------------------------

  /** The characters `trim` removes: ECMAScript WhiteSpace and LineTerminator. */
  predicate IsSpace(c: char) {
    var n := c as int;
    n == 0x20 || 0x09 <= n <= 0x0D || n == 0xA0 || n == 0x1680 ||
    0x2000 <= n <= 0x200A || n == 0x2028 || n == 0x2029 || n == 0x202F ||
    n == 0x205F || n == 0x3000 || n == 0xFEFF
  }

  /** Neither end of `s` is a white-space character. */
  predicate IsTrimmed(s: string) {
    s == [] || (!IsSpace(s[0]) && !IsSpace(s[|s| - 1]))
  }

  /** The index of the first non-white-space character at or after `i`; `|s|` when there is none. */
  function SkipSpaceForward(s: string, i: nat): (k: nat)
    requires i <= |s|
    ensures i <= k <= |s|
    ensures k < |s| ==> !IsSpace(s[k])
    ensures forall j :: i <= j < k ==> IsSpace(s[j])
    decreases |s| - i
  {
    if i < |s| && IsSpace(s[i]) then SkipSpaceForward(s, i + 1) else i
  }

  /** The end of the last non-white-space character before `e`; 0 when there is none. */
  function SkipSpaceBackward(s: string, e: nat): (k: nat)
    requires e <= |s|
    ensures k <= e
    ensures k > 0 ==> !IsSpace(s[k - 1])
    ensures forall j :: k <= j < e ==> IsSpace(s[j])
  {
    if e > 0 && IsSpace(s[e - 1]) then SkipSpaceBackward(s, e - 1) else e
  }

  /**
   * `s.trim()`: the slice of `s` from its first to its last
   * non-white-space character; empty when `s` is all white space. Only
   * white space is dropped, at both ends.
   */
  function Trim(s: string): (r: string)
    ensures IsTrimmed(r)
    ensures var k := SkipSpaceForward(s, 0);
      && k + |r| <= |s|
      && r == s[k..k + |r|]
      && (forall j :: 0 <= j < k ==> IsSpace(s[j]))
      && (forall j :: k + |r| <= j < |s| ==> IsSpace(s[j]))
  {
    var k := SkipSpaceForward(s, 0);
    var e := SkipSpaceBackward(s, |s|);
    if k < e then s[k..e] else []
  }

  /** A string without white space at either end is left alone by trim. */
  lemma TrimOfTrimmed(s: string)
    requires IsTrimmed(s)
    ensures Trim(s) == s
  {
  }

  /** Trimming keeps a lower-case string lower-case: it only drops characters. */
  lemma TrimKeepsLowerCase(s: string)
    requires IsLowerCase(s)
    ensures IsLowerCase(Trim(s))
  {
    var r := Trim(s);
    var k := SkipSpaceForward(s, 0);
    forall i | 0 <= i < |r|
      ensures !IsUpper(r[i])
    {
      assert r[i] == s[k + i];
    }
  }

  // ---------------------------------------------------------------------
  // MongoDB string order
  // ---------------------------------------------------------------------

  /**
   * `a` sorts no later than `b`: character-by-character comparison by code
   * point, a proper prefix sorting first. On `YYYY-MM-DD` dates this is the
   * calendar order.
   */
  predicate LexLe(a: string, b: string): (r: bool)
    ensures a <= b ==> r
    ensures r && |a| > 0 ==> |b| > 0 && a[0] <= b[0]
  {
    if |a| == 0 then true
    else if |b| == 0 then false
    else if a[0] != b[0] then a[0] < b[0]
    else LexLe(a[1..], b[1..])
  }

  lemma {:induction false} LexLeReflexive(a: string)
    ensures LexLe(a, a)
  {
    if |a| > 0 {
      LexLeReflexive(a[1..]);
    }
  }

  lemma {:induction false} LexLeTotal(a: string, b: string)
    ensures LexLe(a, b) || LexLe(b, a)
  {
    if |a| > 0 && |b| > 0 && a[0] == b[0] {
      LexLeTotal(a[1..], b[1..]);
    }
  }

  lemma {:induction false} LexLeAntisymmetric(a: string, b: string)
    requires LexLe(a, b) && LexLe(b, a)
    ensures a == b
  {
    if |a| > 0 && |b| > 0 {
      LexLeAntisymmetric(a[1..], b[1..]);
      assert a == [a[0]] + a[1..];
      assert b == [b[0]] + b[1..];
    }
  }

  lemma {:induction false} LexLeTransitive(a: string, b: string, c: string)
    requires LexLe(a, b) && LexLe(b, c)
    ensures LexLe(a, c)
  {
    if |a| > 0 && |b| > 0 && |c| > 0 && a[0] == b[0] && b[0] == c[0] {
      LexLeTransitive(a[1..], b[1..], c[1..]);
    }
  }

  /** `d` is the greatest element of `dates` in the string order. */
  predicate IsMaxOf(d: string, dates: set<string>) {
    d in dates && forall e :: e in dates ==> LexLe(e, d)
  }

  /** At most one element of a set is its greatest. */
  lemma MaxOfUnique(dates: set<string>, d1: string, d2: string)
    requires IsMaxOf(d1, dates) && IsMaxOf(d2, dates)
    ensures d1 == d2
  {
    LexLeAntisymmetric(d1, d2);
  }

  /** Every finite non-empty set of strings has a greatest element. */
  lemma {:induction false} MaxOfExists(dates: set<string>)
    requires dates != {}
    ensures exists d :: IsMaxOf(d, dates)
  {
    var x :| x in dates;
    if dates == {x} {
      LexLeReflexive(x);
      assert IsMaxOf(x, dates);
    } else {
      var rest := dates - {x};
      MaxOfExists(rest);
      var y :| IsMaxOf(y, rest);
      LexLeTotal(x, y);
      if LexLe(x, y) {
        assert IsMaxOf(y, dates);
      } else {
        LexLeReflexive(x);
        forall e | e in dates
          ensures LexLe(e, x)
        {
          if e != x {
            LexLeTransitive(e, y, x);
          }
        }
        assert IsMaxOf(x, dates);
      }
    }
  }
}
