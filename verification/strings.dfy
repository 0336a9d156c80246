/**
 The handful of Python `str` operations the download code relies on, with
 their exact semantics: `p in s`, `s.endswith(p)`, `s.split(sep)`,
 `sep.join(parts)` and `s.replace(a, b)`. Occurrences are found leftmost
 first and never overlap, as in CPython.
 */
module Strings {
  import opened Results

  /** `p` occurs in `s` starting at index `i`. */
  predicate OccursAt(s: string, p: string, i: int) {
    0 <= i && i + |p| <= |s| && s[i..i + |p|] == p
  }

  /** Python's `p in s`. */
  predicate Contains(s: string, p: string) {
    exists i | 0 <= i <= |s| - |p| :: OccursAt(s, p, i)
  }

  /** Python's `s.endswith(p)`. */
  predicate EndsWith(s: string, p: string) {
    |p| <= |s| && s[|s| - |p|..] == p
  }

  /** Moving the start of `s` one character to the right shifts every occurrence by one. */
  lemma OccursAtTail(s: string, p: string, i: int)
    requires |s| > 0 && i >= 0
    ensures OccursAt(s, p, i + 1) <==> OccursAt(s[1..], p, i)
  {
    if 0 <= i && i + 1 + |p| <= |s| {
      assert s[1..][i..i + |p|] == s[i + 1..i + 1 + |p|];
    }
  }

  /** The index of the first occurrence of `p` in `s` (Python's `s.find(p)`, with `None` for -1). */
  function Find(s: string, p: string): (r: Option<nat>)
    ensures r.Some? ==> OccursAt(s, p, r.value)
    ensures r.Some? ==> forall j :: 0 <= j < r.value ==> !OccursAt(s, p, j)
    ensures r.None? <==> !Contains(s, p)
    decreases |s|
  {
    if |s| < |p| then None
    else if s[..|p|] == p then assert OccursAt(s, p, 0); Some(0)
    else
      match Find(s[1..], p)
      case None =>
        assert forall j :: 0 <= j <= |s| - |p| ==> !OccursAt(s, p, j) by {
          forall j | 0 <= j <= |s| - |p| ensures !OccursAt(s, p, j) {
            if j > 0 { OccursAtTail(s, p, j - 1); }
          }
        }
        None
      case Some(i) =>
        OccursAtTail(s, p, i);
        assert forall j :: 0 <= j < i + 1 ==> !OccursAt(s, p, j) by {
          forall j | 0 <= j < i + 1 ensures !OccursAt(s, p, j) {
            if j > 0 { OccursAtTail(s, p, j - 1); }
          }
        }
        Some(i + 1)
  }

  /** Python's `sep.join(parts)`. */
  function Join(parts: seq<string>, sep: string): string
    decreases |parts|
  {
    if |parts| == 0 then []
    else if |parts| == 1 then parts[0]
    else parts[0] + sep + Join(parts[1..], sep)
  }

  /**
   Python's `s.split(sep)` for a non-empty separator: the pieces between the
   leftmost non-overlapping occurrences of `sep`. Joining the pieces with
   `sep` gives `s` back, no piece holds `sep`, and every piece but the last
   is followed by an occurrence of `sep` that begins nowhere earlier.
   */
  function Split(s: string, sep: string): (r: seq<string>)
    requires sep != []
    ensures |r| >= 1
    ensures Join(r, sep) == s
    ensures |r| == 1 <==> !Contains(s, sep)
    ensures forall k :: 0 <= k < |r| ==> !Contains(r[k], sep)
    ensures forall k :: 0 <= k < |r| - 1 ==> !Contains(r[k] + sep[..|sep| - 1], sep)
    decreases |s|
  {
    match Find(s, sep)
    case None => [s]
    case Some(i) =>
      var rest := Split(s[i + |sep|..], sep);
      NothingBefore(s, sep, i);
      SplitStep(s, sep, i, rest);
      HeadPieceLeftmost(s, sep, i);
      var r := [s[..i]] + rest;
      assert forall k :: 1 <= k < |r| ==> r[k] == rest[k - 1];
      r
  }

  /**
   The piece before the first occurrence of `sep` is cut at the leftmost
   place: no occurrence starts in it, even one reaching into the separator.
   */
  lemma HeadPieceLeftmost(s: string, sep: string, i: nat)
    requires sep != [] && OccursAt(s, sep, i)
    requires forall j :: 0 <= j < i ==> !OccursAt(s, sep, j)
    ensures !Contains(s[..i] + sep[..|sep| - 1], sep)
  {
    var t := s[..i + |sep| - 1];
    assert s[i..i + |sep|] == sep;
    assert s[..i] + sep[..|sep| - 1] == t by {
      assert t == s[..i] + s[i..i + |sep| - 1];
      assert s[i..i + |sep| - 1] == sep[..|sep| - 1];
    }
    forall j | 0 <= j <= |t| - |sep| ensures !OccursAt(t, sep, j) {
      OccursInPrefix(s, t, sep, j);
      assert !OccursAt(s, sep, j);
    }
  }

  /** A prefix in which no occurrence of `p` begins does not contain `p`. */
  lemma NothingBefore(s: string, p: string, i: nat)
    requires p != [] && i <= |s|
    requires forall j :: 0 <= j < i ==> !OccursAt(s, p, j)
    ensures !Contains(s[..i], p)
  {
    forall j | 0 <= j <= i - |p| ensures !OccursAt(s[..i], p, j) {
      assert !OccursAt(s, p, j);
      assert s[..i][j..j + |p|] == s[j..j + |p|];
    }
  }

  /** Cutting `s` at an occurrence of `sep`: the head and the pieces after it join back to `s`. */
  lemma SplitStep(s: string, sep: string, i: nat, rest: seq<string>)
    requires OccursAt(s, sep, i)
    requires |rest| >= 1 && Join(rest, sep) == s[i + |sep|..]
    ensures Join([s[..i]] + rest, sep) == s
  {
    var head, tail := s[..i], s[i + |sep|..];
    calc {
      Join([head] + rest, sep);
      == { JoinCons(head, rest, sep); }
      head + sep + Join(rest, sep);
      ==
      head + sep + tail;
      == { assert s[i..i + |sep|] == sep; }
      s;
    }
  }

  /** Joining a piece in front of at least one more piece puts a separator between them. */
  lemma JoinCons(x: string, rest: seq<string>, sep: string)
    requires |rest| >= 1
    ensures Join([x] + rest, sep) == x + sep + Join(rest, sep)
  {
    assert ([x] + rest)[1..] == rest;
  }

  /**
   The first piece of a split is the longest prefix of `s` in which no
   occurrence of `sep` begins; the remaining pieces are the split of what
   follows the first occurrence.
   */
  lemma SplitHead(s: string, sep: string)
    requires sep != []
    ensures Split(s, sep)[0] <= s
    ensures forall j :: 0 <= j < |Split(s, sep)[0]| ==> !OccursAt(s, sep, j)
    ensures |Split(s, sep)| == 1 ==> Split(s, sep)[0] == s
    ensures |Split(s, sep)| > 1 ==>
              var h := |Split(s, sep)[0]|;
              OccursAt(s, sep, h) && Split(s, sep)[1..] == Split(s[h + |sep|..], sep)
  {
  }

  /** Python's `s.replace(pat, rep)`: scan left to right, rewriting each non-overlapping occurrence of `pat`. */
  function Replace(s: string, pat: string, rep: string): (r: string)
    requires pat != []
    ensures !Contains(s, pat) ==> r == s
    decreases |s|
  {
    match Find(s, pat)
    case None => s
    case Some(i) => s[..i] + rep + Replace(s[i + |pat|..], pat, rep)
  }

  /** CPython's identity `s.replace(a, b) == b.join(s.split(a))`: the scan and the split agree. */
  lemma {:induction false} ReplaceIsJoinOfSplit(s: string, pat: string, rep: string)
    requires pat != []
    ensures Replace(s, pat, rep) == Join(Split(s, pat), rep)
    decreases |s|
  {
    match Find(s, pat)
    case None =>
    case Some(i) =>
      var tail := s[i + |pat|..];
      ReplaceIsJoinOfSplit(tail, pat, rep);
      var ps := Split(tail, pat);
      assert Split(s, pat) == [s[..i]] + ps;
      JoinCons(s[..i], ps, rep);
  }

  /** A one-character pattern occurs exactly where that character stands. */
  lemma CharOccursAt(s: string, c: char, k: nat)
    requires k < |s|
    ensures OccursAt(s, [c], k) <==> s[k] == c
  {
    assert s[k..k + 1] == [s[k]];
  }

  /** Replacing one character by another rewrites exactly the positions holding it and keeps the length. */
  lemma {:induction false} ReplaceChar(s: string, c: char, d: char)
    ensures |Replace(s, [c], [d])| == |s|
    ensures forall k :: 0 <= k < |s| ==>
              Replace(s, [c], [d])[k] == (if s[k] == c then d else s[k])
    decreases |s|
  {
    var r := Replace(s, [c], [d]);
    match Find(s, [c])
    case None =>
      forall k | 0 <= k < |s| ensures s[k] != c {
        CharOccursAt(s, c, k);
      }
    case Some(i) =>
      var tail := s[i + 1..];
      ReplaceChar(tail, c, d);
      var rt := Replace(tail, [c], [d]);
      forall k | 0 <= k < i ensures s[k] != c {
        CharOccursAt(s, c, k);
      }
      CharOccursAt(s, c, i);
      assert s == s[..i] + [c] + tail;
      SpliceReplaced(s[..i], tail, rt, c, d);
      assert r == s[..i] + [d] + rt;
  }

  /** The inductive step of `ReplaceChar`: a head free of `c`, then `c`, then a tail already rewritten. */
  lemma SpliceReplaced(head: string, tail: string, rt: string, c: char, d: char)
    requires forall k :: 0 <= k < |head| ==> head[k] != c
    requires |rt| == |tail|
    requires forall k :: 0 <= k < |tail| ==> rt[k] == (if tail[k] == c then d else tail[k])
    ensures var s, r := head + [c] + tail, head + [d] + rt;
            |r| == |s| && forall k :: 0 <= k < |s| ==> r[k] == (if s[k] == c then d else s[k])
  {
    var s, r := head + [c] + tail, head + [d] + rt;
    forall k | 0 <= k < |s| ensures r[k] == (if s[k] == c then d else s[k]) {
      if k > |head| {
        assert r[k] == rt[k - |head| - 1] && s[k] == tail[k - |head| - 1];
      }
    }
  }

  /**
   If `pat` does not begin anywhere inside `pre + pat` before the copy placed
   after `pre`, then that copy is the first occurrence in `pre + pat + tail`.
   */
  lemma FindAfterPrefix(pre: string, pat: string, tail: string)
    requires pat != []
    requires !Contains(pre + pat[..|pat| - 1], pat)
    ensures Find(pre + pat + tail, pat) == Some(|pre|)
  {
    var s := pre + pat + tail;
    assert s[|pre|..|pre| + |pat|] == pat;
    assert OccursAt(s, pat, |pre|);
    forall j | 0 <= j < |pre| ensures !OccursAt(s, pat, j) {
      var w := pre + pat[..|pat| - 1];
      assert !OccursAt(w, pat, j);
      assert w[j..j + |pat|] == s[j..j + |pat|];
    }
  }

  /** One occurrence of `pat`, with none starting earlier, is rewritten in place. */
  lemma ReplaceFirst(pre: string, pat: string, rep: string, post: string)
    requires pat != []
    requires !Contains(pre + pat[..|pat| - 1], pat)
    ensures Replace(pre + pat + post, pat, rep) == pre + rep + Replace(post, pat, rep)
  {
    var s := pre + pat + post;
    FindAfterPrefix(pre, pat, post);
    assert s[..|pre|] == pre;
    assert s[|pre| + |pat|..] == post;
  }

  /**
   A marker whose first character appears nowhere else in it cannot start
   inside `pre` and end inside a copy of itself placed after `pre`.
   */
  lemma NoStraddle(pre: string, pat: string)
    requires pat != []
    requires forall k :: 1 <= k < |pat| ==> pat[k] != pat[0]
    requires !Contains(pre, pat)
    ensures !Contains(pre + pat[..|pat| - 1], pat)
  {
    var w := pre + pat[..|pat| - 1];
    forall j | 0 <= j <= |w| - |pat| ensures !OccursAt(w, pat, j) {
      if j + |pat| <= |pre| {
        assert !OccursAt(pre, pat, j);
        assert w[j..j + |pat|] == pre[j..j + |pat|];
      } else {
        // an occurrence here would put a later character of pat over its first one
        var k := |pre| - j;
        assert w[j..j + |pat|][k] == w[|pre|] == pat[0];
        assert pat[k] != pat[0];
      }
    }
  }

  /** A string that lacks some character of `p` cannot contain `p`. */
  lemma MissingCharExcludes(s: string, p: string, k: nat)
    requires k < |p|
    requires p[k] !in s
    ensures !Contains(s, p)
  {
    forall j | 0 <= j <= |s| - |p| ensures !OccursAt(s, p, j) {
      assert s[j..j + |p|][k] == s[j + k];
    }
  }

  /** `p` occurs in any string that ends with it. */
  lemma EndsWithContains(s: string, p: string)
    requires EndsWith(s, p)
    ensures Contains(s, p)
  {
    assert OccursAt(s, p, |s| - |p|);
  }

  /** An occurrence with none before it is the one `Find` reports. */
  lemma FindIsFirst(s: string, p: string, h: nat)
    requires OccursAt(s, p, h)
    requires forall j :: 0 <= j < h ==> !OccursAt(s, p, j)
    ensures Find(s, p) == Some(h)
  {
    var v := Find(s, p).value;
    assert !(v > h);
  }

  /**
   `v` is the longest prefix of `rest` in which neither `a` nor `b` begins:
   what `rest.split(b)[0].split(a)[0]` yields when `a` is one character.
   */
  ghost predicate IsToken(rest: string, v: string, a: string, b: string) {
    && v <= rest
    && (forall j :: 0 <= j < |v| ==> !OccursAt(rest, a, j) && !OccursAt(rest, b, j))
    && (|v| == |rest| || OccursAt(rest, a, |v|) || OccursAt(rest, b, |v|))
  }

  /** A string has at most one token for a given pair of stops. */
  lemma TokenUnique(rest: string, v: string, w: string, a: string, b: string)
    requires IsToken(rest, v, a, b) && IsToken(rest, w, a, b)
    ensures v == w
  {
  }

  /** Occurrences that fit inside a prefix are the same in the prefix and in the whole. */
  lemma OccursInPrefix(s: string, t: string, p: string, j: int)
    requires t <= s
    requires 0 <= j && j + |p| <= |t|
    ensures OccursAt(t, p, j) <==> OccursAt(s, p, j)
  {
    assert t[j..j + |p|] == s[j..j + |p|];
  }

  /** Splitting on `outer` and then on the one-character `inner`, keeping the first piece each time, yields the token. */
  lemma HeadOfHead(rest: string, outer: string, inner: string)
    requires outer != [] && |inner| == 1
    ensures IsToken(rest, Split(Split(rest, outer)[0], inner)[0], inner, outer)
  {
    var hs := Split(rest, outer);
    var h := hs[0];
    SplitHead(rest, outer);
    var vs := Split(h, inner);
    var v := vs[0];
    SplitHead(h, inner);
    forall j | 0 <= j < |v| ensures !OccursAt(rest, inner, j) && !OccursAt(rest, outer, j) {
      OccursInPrefix(rest, h, inner, j);
    }
    if |vs| > 1 {
      OccursInPrefix(rest, h, inner, |v|);
    } else if |hs| > 1 {
      assert OccursAt(rest, outer, |h|);
    }
  }

  /**
   For a string holding `sep`, the first piece of the second piece of
   `s.split(sep)`, split again on `stop`, is the token that follows the
   first occurrence of `sep`.
   */
  lemma SecondPieceToken(s: string, sep: string, stop: string)
    requires sep != [] && |stop| == 1
    requires Contains(s, sep)
    ensures Find(s, sep).Some?
    ensures |Split(s, sep)| >= 2
    ensures IsToken(s[Find(s, sep).value + |sep|..], Split(Split(s, sep)[1], stop)[0], stop, sep)
  {
    SplitHead(s, sep);
    var h := |Split(s, sep)[0]|;
    FindIsFirst(s, sep, h);
    var rest := s[h + |sep|..];
    assert Split(s, sep)[1] == Split(rest, sep)[0];
    HeadOfHead(rest, sep, stop);
  }

  /** Every character of the suffix region of `s` is a character of the suffix. */
  lemma SuffixChar(s: string, z: string, e: int)
    requires EndsWith(s, z)
    requires |s| - |z| <= e < |s|
    ensures s[e] in z
  {
    assert s[|s| - |z|..][e - (|s| - |z|)] == s[e];
  }

  /** A suffix survives putting anything in front. */
  lemma EndsWithAppend(a: string, r: string, z: string)
    requires EndsWith(r, z)
    ensures EndsWith(a + r, z)
  {
    assert (a + r)[|a + r| - |z|..] == r[|r| - |z|..];
  }

  /** A string whose last character differs from that of `p` does not end with `p`. */
  lemma EndsWithLastChar(s: string, p: string)
    requires |p| > 0 && |s| > 0 && s[|s| - 1] != p[|p| - 1]
    ensures !EndsWith(s, p)
  {
    if |p| <= |s| {
      assert s[|s| - |p|..][|p| - 1] == s[|s| - 1];
    }
  }

  /**
   Replacing a pattern whose last character does not occur in `z` keeps the
   suffix `z`: no occurrence can reach into it.
   */
  lemma {:induction false} ReplaceKeepsSuffix(s: string, pat: string, rep: string, z: string)
    requires pat != []
    requires pat[|pat| - 1] !in z
    requires EndsWith(s, z)
    ensures EndsWith(Replace(s, pat, rep), z)
    decreases |s|
  {
    match Find(s, pat)
    case None =>
    case Some(i) =>
      var tail := s[i + |pat|..];
      OccurrenceBeforeSuffix(s, pat, z, i);
      ReplaceKeepsSuffix(tail, pat, rep, z);
      EndsWithAppend(s[..i] + rep, Replace(tail, pat, rep), z);
  }

  /** An occurrence of a pattern whose last character is not in `z` ends before the suffix `z`. */
  lemma OccurrenceBeforeSuffix(s: string, pat: string, z: string, i: int)
    requires pat != [] && pat[|pat| - 1] !in z
    requires EndsWith(s, z) && OccursAt(s, pat, i)
    ensures i + |pat| <= |s| - |z|
    ensures EndsWith(s[i + |pat|..], z)
  {
    var e := i + |pat| - 1;
    assert s[i..i + |pat|][|pat| - 1] == s[e];
    assert e < |s| - |z| by {
      if e >= |s| - |z| {
        SuffixChar(s, z, e);
      }
    }
    var tail := s[i + |pat|..];
    assert tail[|tail| - |z|..] == s[|s| - |z|..];
  }

  /**
   Appending text that lacks the last character of `p` cannot create an
   occurrence: any occurrence in `a + b` lying partly in `b` would end there.
   */
  lemma NoOccurrenceAcross(a: string, b: string, p: string)
    requires p != [] && p[|p| - 1] !in b
    requires !Contains(a, p)
    ensures !Contains(a + b, p)
  {
    var s := a + b;
    forall j | 0 <= j <= |s| - |p| ensures !OccursAt(s, p, j) {
      if j + |p| <= |a| {
        assert s[j..j + |p|] == a[j..j + |p|];
        assert !OccursAt(a, p, j);
      } else {
        var e := j + |p| - 1;
        assert s[j..j + |p|][|p| - 1] == s[e] == b[e - |a|];
      }
    }
  }

  /** An occurrence in a prefix is an occurrence in the whole. */
  lemma ContainsInPrefix(a: string, b: string, p: string)
    requires Contains(a, p)
    ensures Contains(a + b, p)
  {
    var j :| 0 <= j <= |a| - |p| && OccursAt(a, p, j);
    OccursInPrefix(a + b, a, p, j);
  }
}
