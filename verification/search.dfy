/**
 `search_pth_index`: the artifacts a model folder offers, found by listing
 its top level and keeping the regular files with the right suffix.
 */
module ArtifactSearch {
  import opened Results
  import opened Strings
  import opened Tree
  import opened Artifacts

  /** `a` is `b` with some elements left out, the rest kept in order. */
  ghost predicate IsSubsequence(a: seq<string>, b: seq<string>)
    decreases |b|
  {
    |a| == 0 ||
    (|b| > 0 && ((a[0] == b[0] && IsSubsequence(a[1..], b[1..])) || IsSubsequence(a, b[1..])))
  }

  /**
   The names, in listing order, of the regular files whose name ends with
   `ext`: exactly those, and never a directory.
   */
  function Matching(order: seq<string>, d: Folder, ext: string): (r: seq<string>)
    requires forall i :: 0 <= i < |order| ==> order[i] in d
    ensures forall n :: n in r <==> n in order && d[n].File? && EndsWith(n, ext)
    ensures IsSubsequence(r, order)
    decreases |order|
  {
    if |order| == 0 then []
    else
      var rest := Matching(order[1..], d, ext);
      if d[order[0]].File? && EndsWith(order[0], ext) then
        assert ([order[0]] + rest)[1..] == rest;
        [order[0]] + rest
      else rest
  }

  /** The paths of `names` inside `folder`. */
  function PathsIn(folder: string, names: seq<string>): (r: seq<string>)
    ensures |r| == |names|
    ensures forall k :: 0 <= k < |names| ==> r[k] == PathJoin(folder, names[k])
  {
    seq(|names|, k requires 0 <= k < |names| => PathJoin(folder, names[k]))
  }

  /**
   `search_pth_index(folder)`: a missing folder yields two empty lists;
   otherwise the weights files and the index files of its top level, as
   paths inside the folder, each list in listing order.
   */
  function SearchArtifacts(path: string, folder: Option<Folder>, order: seq<string>): (r: (seq<string>, seq<string>))
    requires folder.Some? ==> IsListing(order, folder.value)
    ensures folder.None? ==> r == ([], [])
    ensures folder.Some? ==>
              && r.0 == PathsIn(path, Matching(order, folder.value, WeightsMarker))
              && r.1 == PathsIn(path, Matching(order, folder.value, IndexMarker))
  {
    match folder
    case None => ([], [])
    case Some(d) =>
      (PathsIn(path, Matching(order, d, WeightsMarker)), PathsIn(path, Matching(order, d, IndexMarker)))
  }
}
