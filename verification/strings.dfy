/** The small part of Python's `str` behaviour the push command relies on:
    prefix and suffix tests, the `in` substring operator, `join` and ASCII
    lower-casing, together with the Option and Result wrappers used for
    Python's `None` returns and raised errors. */
module Strings {

  /** Python's `None` or a value. */
  datatype Option<+T> = None | Some(value: T)

  /** A value, or the error a Python function would raise instead. */
  datatype Result<+T, +E> = Success(value: T) | Failure(error: E)

  /** `s.startswith(prefix)` */
  predicate StartsWith(s: string, prefix: string) {
    |prefix| <= |s| && s[..|prefix|] == prefix
  }

  /** `s.endswith(suffix)` */
  predicate EndsWith(s: string, suffix: string) {
    |suffix| <= |s| && s[|s| - |suffix|..] == suffix
  }

  /** `sub` sits in `s` starting at index `i`. */
  predicate OccursAt(s: string, sub: string, i: int) {
    0 <= i && i + |sub| <= |s| && s[i..i + |sub|] == sub
  }

  /** The declarative meaning of Python's `sub in s`: some window of `s` is `sub`.
      The empty string occurs in every string. */
  ghost predicate IsSubstring(sub: string, s: string) {
    exists i :: 0 <= i <= |s| && OccursAt(s, sub, i)
  }

  /** Dropping the first character shifts every occurrence left by one. */
  lemma OccursAfterFirst(s: string, sub: string, i: int)
    requires |s| > 0 && 0 <= i
    ensures OccursAt(s[1..], sub, i) <==> OccursAt(s, sub, i + 1)
  {
    if i + |sub| <= |s[1..]| {
      assert s[1..][i..i + |sub|] == s[i + 1..i + 1 + |sub|];
    }
  }

  /** Python's `sub in s`, computed by trying every start position in turn. */
  function Contains(s: string, sub: string): (found: bool)
    ensures found <==> IsSubstring(sub, s)
    decreases |s|
  {
    if StartsWith(s, sub) then
      assert OccursAt(s, sub, 0);
      true
    else if |s| == 0 then
      false
    else
      var rest := Contains(s[1..], sub);
      assert rest ==> IsSubstring(sub, s) by {
        if rest {
          var i :| 0 <= i <= |s[1..]| && OccursAt(s[1..], sub, i);
          OccursAfterFirst(s, sub, i);
        }
      }
      assert IsSubstring(sub, s) ==> rest by {
        if IsSubstring(sub, s) {
          var i :| 0 <= i <= |s| && OccursAt(s, sub, i);
          assert i >= 1;
          OccursAfterFirst(s, sub, i - 1);
        }
      }
      rest
  }

  /** A fragment of one side of a concatenation is a fragment of the whole. */
  lemma SubstringOfConcat(sub: string, a: string, b: string)
    ensures IsSubstring(sub, a) ==> IsSubstring(sub, a + b)
    ensures IsSubstring(sub, b) ==> IsSubstring(sub, a + b)
  {
    var ab := a + b;
    if IsSubstring(sub, a) {
      var i :| 0 <= i <= |a| && OccursAt(a, sub, i);
      assert ab[i..i + |sub|] == a[i..i + |sub|];
      assert OccursAt(ab, sub, i);
    }
    if IsSubstring(sub, b) {
      var i :| 0 <= i <= |b| && OccursAt(b, sub, i);
      assert ab[|a| + i..|a| + i + |sub|] == b[i..i + |sub|];
      assert OccursAt(ab, sub, |a| + i);
    }
  }

  /** `sep.join(parts)`: every part appears in the joined text. */
  function Join(parts: seq<string>, sep: string): (r: string)
    ensures forall k :: 0 <= k < |parts| ==> IsSubstring(parts[k], r)
  {
    if |parts| == 0 then ""
    else if |parts| == 1 then
      assert OccursAt(parts[0], parts[0], 0);
      parts[0]
    else
      var rest := Join(parts[1..], sep);
      var r := parts[0] + sep + rest;
      assert r == parts[0] + (sep + rest);
      assert OccursAt(parts[0], parts[0], 0);
      SubstringOfConcat(parts[0], parts[0], sep + rest);
      assert forall k :: 1 <= k < |parts| ==> IsSubstring(parts[k], rest) by {
        assert forall k :: 1 <= k < |parts| ==> parts[1..][k - 1] == parts[k];
      }
      assert forall k :: 1 <= k < |parts| ==> IsSubstring(parts[k], r) by {
        forall k | 1 <= k < |parts|
          ensures IsSubstring(parts[k], r)
        {
          SubstringOfConcat(parts[k], parts[0] + sep, rest);
        }
      }
      r
  }

  /** Joining two pieces puts the separator between them. */
  lemma JoinPair(a: string, b: string, sep: string)
    ensures Join([a, b], sep) == a + sep + b
  {
    assert [a, b][1..] == [b];
  }

  predicate IsUpper(c: char) {
    'A' <= c <= 'Z'
  }

  /** `c.lower()` for an ASCII letter; every other character is left alone. */
  function LowerChar(c: char): (l: char)
    ensures !IsUpper(l)
    ensures IsUpper(c) ==> l as int == c as int + 32
    ensures !IsUpper(c) ==> l == c
  {
    if IsUpper(c) then (c as int + 32) as char else c
  }

  /** `s.lower()` on ASCII text: the same characters with every capital letter
      replaced by its small letter. */
  function Lower(s: string): (l: string)
    ensures |l| == |s|
    ensures forall i :: 0 <= i < |s| ==> l[i] == LowerChar(s[i])
    ensures forall i :: 0 <= i < |l| ==> !IsUpper(l[i])
  {
    seq(|s|, i requires 0 <= i < |s| => LowerChar(s[i]))
  }

  /** Two strings that differ only in the case of ASCII letters. */
  predicate EqualIgnoringCase(a: string, b: string) {
    |a| == |b| && forall i :: 0 <= i < |a| ==> LowerChar(a[i]) == LowerChar(b[i])
  }

  /** Lower-casing erases exactly the differences in letter case. */
  lemma LowerIgnoresCase(a: string, b: string)
    ensures EqualIgnoringCase(a, b) <==> Lower(a) == Lower(b)
  {
    if Lower(a) == Lower(b) {
      assert forall i :: 0 <= i < |a| ==> Lower(a)[i] == LowerChar(a[i]);
    }
  }
}
