/**
 * The string primitives the plugin uses: `explode`/`end` on one separator,
 * `explode(...)[0]`, and `str_replace` with one search string.
 */
module Strings {

  /** `pat` occurs in `s` at index `i`. */
  predicate StartsAt(pat: string, s: string, i: nat) {
    i + |pat| <= |s| && s[i..i + |pat|] == pat
  }

  /** `end(explode($sep, $s))`: the text after the last separator, or all of `s`. */
  function LastSegment(s: string, sep: char): (r: string)
    ensures sep !in r && |r| <= |s|
  {
    if s == [] then []
    else if s[|s| - 1] == sep then []
    else LastSegment(s[..|s| - 1], sep) + [s[|s| - 1]]
  }

  /** The last segment is a suffix of `s`, preceded by the separator unless it is all of `s`. */
  lemma {:induction false} LastSegmentIsSuffix(s: string, sep: char)
    ensures var r := LastSegment(s, sep);
            r == s[|s| - |r|..] && (|r| < |s| ==> s[|s| - |r| - 1] == sep)
  {
    if s != [] && s[|s| - 1] != sep {
      var t := s[..|s| - 1];
      LastSegmentIsSuffix(t, sep);
      var r' := LastSegment(t, sep);
      assert s[|s| - |r'| - 1..] == t[|t| - |r'|..] + [s[|s| - 1]];
    }
  }

  /** `explode($sep, $s)[0]`: the text before the first separator, or all of `s`. */
  function FirstSegment(s: string, sep: char): (r: string)
    ensures sep !in r && |r| <= |s|
  {
    if s == [] then []
    else if s[0] == sep then []
    else [s[0]] + FirstSegment(s[1..], sep)
  }

  /** The first segment is a prefix of `s`, followed by the separator unless it is all of `s`. */
  lemma {:induction false} FirstSegmentIsPrefix(s: string, sep: char)
    ensures var r := FirstSegment(s, sep);
            r == s[..|r|] && (|r| < |s| ==> s[|r|] == sep)
  {
    if s != [] && s[0] != sep {
      FirstSegmentIsPrefix(s[1..], sep);
    }
  }

  /**
   * `str_replace($pat, $rep, $s)`: scan left to right, replace every
   * occurrence and continue after it. An empty search string changes nothing.
   */
  function ReplaceAll(s: string, pat: string, rep: string): string
    decreases |s|
  {
    if pat == [] || |s| < |pat| then s
    else if s[..|pat|] == pat then rep + ReplaceAll(s[|pat|..], pat, rep)
    else [s[0]] + ReplaceAll(s[1..], pat, rep)
  }

  /** Every character of the result comes from the subject or from the replacement. */
  lemma {:induction false} ReplaceAllChars(s: string, pat: string, rep: string)
    ensures forall ch :: ch in ReplaceAll(s, pat, rep) ==> ch in s || ch in rep
    decreases |s|
  {
    if pat == [] || |s| < |pat| {
    } else if s[..|pat|] == pat {
      ReplaceAllChars(s[|pat|..], pat, rep);
      forall ch | ch in s[|pat|..] ensures ch in s {
        var i :| 0 <= i < |s[|pat|..]| && s[|pat|..][i] == ch;
        assert s[|pat| + i] == ch;
      }
    } else {
      ReplaceAllChars(s[1..], pat, rep);
      forall ch | ch in s[1..] ensures ch in s {
        var i :| 0 <= i < |s[1..]| && s[1..][i] == ch;
        assert s[i + 1] == ch;
      }
    }
  }

  /** A subject in which the search string never occurs comes back unchanged. */
  lemma {:induction false} ReplaceAllUnmatched(s: string, pat: string, rep: string)
    requires forall i: nat :: !StartsAt(pat, s, i)
    ensures ReplaceAll(s, pat, rep) == s
    decreases |s|
  {
    if pat != [] && |s| >= |pat| {
      assert !StartsAt(pat, s, 0);
      forall i: nat | StartsAt(pat, s[1..], i) ensures StartsAt(pat, s, i + 1) {
        assert s[1..][i..i + |pat|] == s[i + 1..i + 1 + |pat|];
      }
      ReplaceAllUnmatched(s[1..], pat, rep);
      assert s == [s[0]] + s[1..];
    }
  }

  /** Replacing one character by one character acts on each position alone. */
  lemma {:induction false} ReplaceCharAt(s: string, a: char, b: char)
    ensures |ReplaceAll(s, [a], [b])| == |s|
    ensures forall i :: 0 <= i < |s| ==> ReplaceAll(s, [a], [b])[i] == if s[i] == a then b else s[i]
  {
    if s != [] {
      ReplaceCharAt(s[1..], a, b);
      assert s[..1] == [s[0]];
    }
  }

  /** Replacing one character distributes over a leading character. */
  lemma ReplaceCharCons(x: char, y: string, a: char, rep: string)
    ensures ReplaceAll([x] + y, [a], rep) == (if x == a then rep else [x]) + ReplaceAll(y, [a], rep)
  {
    assert ([x] + y)[..1] == [x];
    assert ([x] + y)[1..] == y;
  }

  /** An occurrence at the front is replaced, and the scan goes on after it. */
  lemma ReplaceAtFront(s: string, pat: string, rep: string)
    requires pat != [] && |pat| <= |s| && s[..|pat|] == pat
    ensures ReplaceAll(s, pat, rep) == rep + ReplaceAll(s[|pat|..], pat, rep)
  {
  }

  /** Without an occurrence at the front, the first character is kept. */
  lemma KeepFront(s: string, pat: string, rep: string)
    requires s != [] && !(|pat| <= |s| && s[..|pat|] == pat)
    ensures ReplaceAll(s, pat, rep) == [s[0]] + ReplaceAll(s[1..], pat, rep)
  {
    if |s| < |pat| {
      assert |s[1..]| < |pat|;
      assert s == [s[0]] + s[1..];
    }
  }

  /** After a separator, a separator-free tail is the last segment. */
  lemma {:induction false} LastSegmentAfter(dir: string, sep: char, tail: string)
    requires sep !in tail
    ensures LastSegment(dir + [sep] + tail, sep) == tail
    decreases |tail|
  {
    var s := dir + [sep] + tail;
    if tail == [] {
      assert s[|s| - 1] == sep;
    } else {
      var init := tail[..|tail| - 1];
      assert s[..|s| - 1] == dir + [sep] + init;
      LastSegmentAfter(dir, sep, init);
      assert init + [tail[|tail| - 1]] == tail;
    }
  }

  /** Before a separator, a separator-free head is the first segment. */
  lemma {:induction false} FirstSegmentBefore(head: string, sep: char, rest: string)
    requires sep !in head
    ensures FirstSegment(head + [sep] + rest, sep) == head
  {
    var s := head + [sep] + rest;
    if head != [] {
      assert s[1..] == head[1..] + [sep] + rest;
      FirstSegmentBefore(head[1..], sep, rest);
    }
  }

  /** Removing a trailing occurrence of `pat` from text that holds none of its first character. */
  lemma {:induction false} RemoveTrailing(n: string, pat: string)
    requires pat != [] && pat[0] !in n
    ensures ReplaceAll(n + pat, pat, []) == n
  {
    var s := n + pat;
    if n == [] {
      assert s == pat && s[|pat|..] == [];
      ReplaceAtFront(s, pat, []);
    } else {
      assert s[0] == n[0] && n[0] != pat[0];
      KeepFront(s, pat, []);
      assert s[1..] == n[1..] + pat;
      RemoveTrailing(n[1..], pat);
      assert [n[0]] + n[1..] == n;
    }
  }

  /** An occurrence in the tail of `s` is an occurrence in `s`, one place later. */
  lemma StartsAtTail(pat: string, s: string, i: nat)
    requires s != [] && StartsAt(pat, s[1..], i)
    ensures StartsAt(pat, s, i + 1)
  {
    assert s[1..][i..i + |pat|] == s[i + 1..i + 1 + |pat|];
  }

  /** Removing a trailing `pat` when no occurrence of it starts inside `n`. */
  lemma {:induction false} RemoveTrailingUnmatched(n: string, pat: string)
    requires pat != []
    requires forall i :: 0 <= i < |n| ==> !StartsAt(pat, n + pat, i)
    ensures ReplaceAll(n + pat, pat, []) == n
  {
    var s := n + pat;
    if n == [] {
      assert s == pat && s[|pat|..] == [];
      ReplaceAtFront(s, pat, []);
    } else {
      var tail := n[1..];
      assert s[1..] == tail + pat;
      forall i | 0 <= i < |tail| ensures !StartsAt(pat, tail + pat, i) {
        if StartsAt(pat, tail + pat, i) {
          StartsAtTail(pat, s, i);
        }
      }
      RemoveTrailingUnmatched(tail, pat);
      assert !StartsAt(pat, s, 0);
      KeepFront(s, pat, []);
      assert [n[0]] + tail == n;
    }
  }
}
