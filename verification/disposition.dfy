/**
 The name `save_response_content` gives a downloaded file: the first
 `filename="..."` capture of the (already percent-decoded)
 `Content-Disposition` header, with every path separator turned into `_`,
 or `downloaded_file` when the header has no such capture. The separator
 is POSIX's `/`.
 */
module ContentDisposition {
  import opened Results
  import opened Strings
  import opened Tree

  /** The literal text the pattern `filename="([^"]+)"` starts with. */
  const Opening := "filename=\""
  const Fallback := "downloaded_file"

  /**
   The pattern `filename="([^"]+)"` matches `h` at index `i` capturing `v`:
   the opening, a non-empty run of non-quote characters, a closing quote.
   */
  ghost predicate MatchesAt(h: string, i: int, v: string) {
    v != [] && '"' !in v && OccursAt(h, Opening + v + "\"", i)
  }

  /** What a match at `i` says about the text after the opening. */
  lemma MatchShape(h: string, i: int, v: string)
    requires MatchesAt(h, i, v)
    ensures OccursAt(h, Opening, i)
    ensures Find(h[i + |Opening|..], "\"") == Some(|v|)
    ensures h[i + |Opening|..][..|v|] == v
  {
    var m := Opening + v + "\"";
    var rest := h[i + |Opening|..];
    assert h[i..i + |m|] == m;
    assert h[i..i + |Opening|] == m[..|Opening|] == Opening;
    assert rest[..|v| + 1] == m[|Opening|..] == v + "\"";
    assert rest[..|v|] == v;
    assert OccursAt(rest, "\"", |v|) by {
      assert rest[|v|..|v| + 1] == (v + "\"")[|v|..];
    }
    forall j | 0 <= j < |v| ensures !OccursAt(rest, "\"", j) {
      assert rest[j..j + 1] == [v[j]];
    }
    FindIsFirst(rest, "\"", |v|);
  }

  /** A match begins with the opening. */
  lemma MatchHasOpening(h: string, i: int, v: string)
    ensures MatchesAt(h, i, v) ==> OccursAt(h, Opening, i)
  {
    if MatchesAt(h, i, v) {
      MatchShape(h, i, v);
    }
  }

  /** The regex attempt at index `i`: the capture if the pattern matches there. */
  function MatchAt(h: string, i: nat): (r: Option<string>)
    ensures r.Some? ==> MatchesAt(h, i, r.value)
    ensures r.None? ==> forall v :: !MatchesAt(h, i, v)
  {
    if OccursAt(h, Opening, i) then
      var rest := h[i + |Opening|..];
      match Find(rest, "\"")
      case Some(k) =>
        if k > 0 then
          var v := rest[..k];
          assert '"' !in v by {
            forall j | 0 <= j < k ensures v[j] != '"' {
              assert !OccursAt(rest, "\"", j);
              assert rest[j..j + 1] == [v[j]];
            }
          }
          assert h[i..i + |Opening| + k + 1] == Opening + v + "\"" by {
            assert h[i..i + |Opening|] == Opening;
            assert h[i + |Opening|..i + |Opening| + k + 1] == rest[..k + 1] == v + "\"";
          }
          Some(v)
        else
          assert forall v :: !MatchesAt(h, i, v) by {
            forall v | MatchesAt(h, i, v) ensures false {
              MatchShape(h, i, v);
            }
          }
          None
      case None =>
        assert forall v :: !MatchesAt(h, i, v) by {
          forall v | MatchesAt(h, i, v) ensures false {
            MatchShape(h, i, v);
          }
        }
        None
    else
      assert forall v :: !MatchesAt(h, i, v) by {
        forall v | MatchesAt(h, i, v) ensures false {
          MatchShape(h, i, v);
        }
      }
      None
  }

  /** At a given index the pattern captures at most one string. */
  lemma MatchUnique(h: string, i: int, v: string, w: string)
    requires MatchesAt(h, i, v) && MatchesAt(h, i, w)
    ensures v == w
  {
    MatchShape(h, i, v);
    MatchShape(h, i, w);
  }

  /** `re.search`: the leftmost index from `start` on where the pattern matches, with its capture. */
  function Search(h: string, start: nat): (r: Option<(nat, string)>)
    ensures r.Some? ==> start <= r.value.0 && MatchesAt(h, r.value.0, r.value.1)
    ensures r.Some? ==> forall j, w :: start <= j < r.value.0 ==> !MatchesAt(h, j, w)
    ensures r.None? ==> forall j, w :: start <= j ==> !MatchesAt(h, j, w)
    decreases |h| - start
  {
    if start > |h| then None
    else
      match MatchAt(h, start)
      case Some(v) => Some((start, v))
      case None => Search(h, start + 1)
  }

  /**
   The saved file name: the first capture with separators replaced, or the
   fallback. Either way it is non-empty and holds neither a separator nor
   a quote, so it cannot name a nested path (it may still be `.` or `..`).
   */
  function SavedFileName(header: string): (name: string)
    ensures name != [] && PathSep !in name && '"' !in name
    ensures (forall i, v :: !MatchesAt(header, i, v)) ==> name == Fallback
  {
    match Search(header, 0)
    case None => Fallback
    case Some((_, v)) =>
      ReplaceChar(v, PathSep, '_');
      var name := Replace(v, [PathSep], "_");
      assert name[0] == (if v[0] == PathSep then '_' else v[0]);
      assert forall k :: 0 <= k < |name| ==> name[k] != PathSep && name[k] != '"' by {
        forall k | 0 <= k < |name| ensures name[k] != PathSep && name[k] != '"' {
          assert v[k] in v;
        }
      }
      name
  }

  /** The leftmost match is the one `re.search` reports. */
  lemma SearchFindsLeftmost(h: string, i: nat, v: string)
    requires MatchesAt(h, i, v)
    requires forall j, w :: 0 <= j < i ==> !MatchesAt(h, j, w)
    ensures Search(h, 0) == Some((i, v))
  {
    var r := Search(h, 0);
    assert r.Some?;
    var (k, c) := r.value;
    assert !(k > i);
    assert !(k < i);
    MatchUnique(h, i, v, c);
  }

  /**
   When the header matches, the name is the leftmost capture, character for
   character, except that each separator became `_`.
   */
  lemma SavedFileNameOfMatch(header: string, i: nat, v: string)
    requires MatchesAt(header, i, v)
    requires forall j, w :: 0 <= j < i ==> !MatchesAt(header, j, w)
    ensures |SavedFileName(header)| == |v|
    ensures forall k :: 0 <= k < |v| ==>
              SavedFileName(header)[k] == (if v[k] == PathSep then '_' else v[k])
  {
    SearchFindsLeftmost(header, i, v);
    ReplaceChar(v, PathSep, '_');
  }

  /** In `<pre>filename="<v>"<post>`, the pattern matches right after `<pre>`, and nowhere inside `<pre>` when no opening starts there. */
  lemma MatchAfterPrefix(pre: string, v: string, post: string)
    requires !Contains(pre + Opening[..|Opening| - 1], Opening)
    requires v != [] && '"' !in v
    ensures MatchesAt(pre + Opening + v + "\"" + post, |pre|, v)
    ensures forall j, w :: 0 <= j < |pre| ==> !MatchesAt(pre + Opening + v + "\"" + post, j, w)
  {
    var h := pre + Opening + v + "\"" + post;
    assert h == pre + (Opening + v + "\"") + post;
    assert h[|pre|..|pre| + |Opening + v + "\""|] == Opening + v + "\"";
    assert h == pre + Opening + (v + "\"" + post);
    FindAfterPrefix(pre, Opening, v + "\"" + post);
    forall j, w | 0 <= j < |pre| ensures !MatchesAt(h, j, w) {
      assert !OccursAt(h, Opening, j);
      MatchHasOpening(h, j, w);
    }
  }

  /**
   A header `<pre>filename="<v>"<post>` in which no opening starts inside
   `<pre>` names the file after `<v>`.
   */
  lemma FirstCaptureWins(pre: string, v: string, post: string)
    requires !Contains(pre + Opening[..|Opening| - 1], Opening)
    requires v != [] && '"' !in v
    ensures SavedFileName(pre + Opening + v + "\"" + post) == Replace(v, [PathSep], "_")
  {
    MatchAfterPrefix(pre, v, post);
    SearchFindsLeftmost(pre + Opening + v + "\"" + post, |pre|, v);
  }

  /** A capture with one separator between two separator-free parts: `a/b` is saved as `a_b`. */
  lemma SeparatorReplaced(pre: string, a: string, b: string, post: string)
    requires !Contains(pre + Opening[..|Opening| - 1], Opening)
    requires '"' !in a && '"' !in b
    requires PathSep !in a && PathSep !in b
    ensures SavedFileName(pre + Opening + a + [PathSep] + b + "\"" + post) == a + "_" + b
  {
    var v := a + [PathSep] + b;
    assert '"' !in v;
    assert pre + Opening + a + [PathSep] + b + "\"" + post == pre + Opening + v + "\"" + post;
    FirstCaptureWins(pre, v, post);
    MissingCharExcludes(a, [PathSep], 0);
    MissingCharExcludes(b, [PathSep], 0);
    assert [PathSep][..0] == [];
    assert a + [] == a;
    ReplaceFirst(a, [PathSep], "_", b);
  }
}
