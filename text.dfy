/** The few JavaScript string operations the chatbot relies on:
    `toLowerCase`, `includes` and `trim`. */
module Text {

  /** `toLowerCase` on one character, restricted to the ASCII letters. */
  function LowerChar(c: char): char
  {
    if 'A' <= c <= 'Z' then (c as int - 'A' as int + 'a' as int) as char else c
  }

  predicate IsLowerChar(c: char)
  {
    !('A' <= c <= 'Z')
  }

  predicate IsLower(s: string)
  {
    forall i :: 0 <= i < |s| ==> IsLowerChar(s[i])
  }

  /** Every piece of a lower-case string is lower case. */
  lemma LowerSlice(s: string, a: nat, b: nat)
    requires IsLower(s) && a <= b <= |s|
    ensures IsLower(s[a..b])
  {
    forall k | 0 <= k < b - a ensures IsLowerChar(s[a..b][k]) {
      assert s[a..b][k] == s[a + k];
    }
  }

  /** `String.prototype.toLowerCase`, character by character. */
  function Lower(s: string): (r: string)
    ensures |r| == |s|
    ensures forall i :: 0 <= i < |s| ==> r[i] == LowerChar(s[i])
    ensures IsLower(r)
  {
    if s == [] then [] else [LowerChar(s[0])] + Lower(s[1..])
  }

  /** Lower-casing a string that has no upper-case letter changes nothing;
      in particular `Lower` is idempotent. */
  lemma {:induction false} LowerOfLower(s: string)
    requires IsLower(s)
    ensures Lower(s) == s
  {
    if s != [] {
      LowerOfLower(s[1..]);
    }
  }

  lemma LowerIdempotent(s: string)
    ensures Lower(Lower(s)) == Lower(s)
  {
    LowerOfLower(Lower(s));
  }

  /** `p` occurs in `s` starting at index `i`. */
  predicate OccursAt(s: string, p: string, i: int)
  {
    0 <= i && i + |p| <= |s| && s[i..i + |p|] == p
  }

  /** `String.prototype.includes`. */
  function Contains(s: string, p: string): (r: bool)
    ensures r <==> exists i :: OccursAt(s, p, i)
    decreases |s|
  {
    if |s| < |p| then false
    else if s[..|p|] == p then assert OccursAt(s, p, 0); true
    else
      var r := Contains(s[1..], p);
      assert r ==> exists i :: OccursAt(s, p, i) by {
        if r {
          var i :| OccursAt(s[1..], p, i);
          assert s[1..][i..i + |p|] == s[i + 1..i + 1 + |p|];
          assert OccursAt(s, p, i + 1);
        }
      }
      assert (exists i :: OccursAt(s, p, i)) ==> r by {
        if exists i :: OccursAt(s, p, i) {
          var i :| OccursAt(s, p, i);
          assert i != 0;
          assert s[1..][i - 1..i - 1 + |p|] == s[i..i + |p|];
          assert OccursAt(s[1..], p, i - 1);
        }
      }
      r
  }

  /** A string containing `long` contains every piece of `long`. */
  lemma ContainsPiece(m: string, long: string, short: string, at: nat)
    requires at + |short| <= |long| && long[at..at + |short|] == short
    requires Contains(m, long)
    ensures Contains(m, short)
  {
    var i :| OccursAt(m, long, i);
    forall k | 0 <= k < |short| ensures m[i + at + k] == short[k] {
      assert short[k] == long[at + k];
      assert long[at + k] == m[i..i + |long|][at + k];
    }
    assert m[i + at..i + at + |short|] == short;
    assert OccursAt(m, short, i + at);
  }

  /** A pattern with a character that occurs nowhere in `s` is not in `s`. */
  lemma CharAbsent(s: string, p: string, k: nat)
    requires k < |p|
    requires forall i :: 0 <= i < |s| ==> s[i] != p[k]
    ensures !Contains(s, p)
  {
  }

  /** A pattern with two neighbouring characters that are never neighbours
      in `s` is not in `s`. */
  lemma PairAbsent(s: string, p: string, k: nat)
    requires k + 1 < |p|
    requires forall i :: 0 <= i < |s| - 1 && s[i] == p[k] ==> s[i + 1] != p[k + 1]
    ensures !Contains(s, p)
  {
  }

  /** The characters `trim` removes: ECMAScript WhiteSpace and LineTerminator. */
  predicate IsSpace(c: char)
  {
    c == ' ' || c == '\t' || c == '\n' || c == '\r'
    || c == '\U{B}' || c == '\U{C}' || c == '\U{A0}' || c == '\U{1680}'
    || ('\U{2000}' <= c <= '\U{200A}')
    || c == '\U{2028}' || c == '\U{2029}' || c == '\U{202F}' || c == '\U{205F}'
    || c == '\U{3000}' || c == '\U{FEFF}'
  }

  /** The index of the first character at or after `i` that is not white
      space, or `|s|`. */
  function SkipSpaces(s: string, i: nat): (n: nat)
    requires i <= |s|
    ensures i <= n <= |s|
    ensures forall k :: i <= k < n ==> IsSpace(s[k])
    ensures n < |s| ==> !IsSpace(s[n])
    decreases |s| - i
  {
    if i < |s| && IsSpace(s[i]) then SkipSpaces(s, i + 1) else i
  }

  /** The end of `s[lo..j]` once its trailing white space is dropped. */
  function SkipSpacesBack(s: string, lo: nat, j: nat): (n: nat)
    requires lo <= j <= |s|
    ensures lo <= n <= j
    ensures forall k :: n <= k < j ==> IsSpace(s[k])
    ensures lo < n ==> !IsSpace(s[n - 1])
    decreases j - lo
  {
    if lo < j && IsSpace(s[j - 1]) then SkipSpacesBack(s, lo, j - 1) else j
  }

  /** `r` is `s[i..j]` and everything of `s` outside that slice is white space. */
  predicate IsTrimmedSlice(s: string, i: int, j: int, r: string)
  {
    && 0 <= i <= j <= |s| && r == s[i..j]
    && (forall k :: 0 <= k < i ==> IsSpace(s[k]))
    && (forall k :: j <= k < |s| ==> IsSpace(s[k]))
  }

  /** `String.prototype.trim`: the slice of `s` left once the white space at
      both ends is removed. */
  function Trim(s: string): (r: string)
    ensures exists i, j :: IsTrimmedSlice(s, i, j, r)
    ensures r != [] ==> !IsSpace(r[0]) && !IsSpace(r[|r| - 1])
  {
    var i := SkipSpaces(s, 0);
    var j := SkipSpacesBack(s, i, |s|);
    assert IsTrimmedSlice(s, i, j, s[i..j]);
    s[i..j]
  }

  /** A slice of a lower-case string is lower-case, and so is its trim. */
  lemma TrimOfLower(s: string)
    requires IsLower(s)
    ensures IsLower(Trim(s))
  {
    var r := Trim(s);
    var i, j :| IsTrimmedSlice(s, i, j, r);
    forall k | 0 <= k < |r| ensures IsLowerChar(r[k]) {
      assert r[k] == s[i + k];
    }
  }
}
