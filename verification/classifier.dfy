/**
 The string logic of `download_from_url` and its helpers: which download
 strategy a URL selects, the Google Drive file id it carries, and the two
 rewrites that turn a Hugging Face page link into a direct download link.
 */
module Classifier {
  import opened Results
  import opened Strings

  /** The four ways a source URL is fetched, in the order they are tried. */
  datatype Strategy = GoogleDrive | DirectFile | DirectoryListing | Generic

  const DriveHost := "drive.google.com"
  const BlobSegment := "/blob/"
  const ResolveSegment := "/resolve/"
  const TreeSegment := "/tree/main"

  /** The path marker of a `drive.google.com/file/d/<id>/view` link. */
  const FileMarker := "file/d/"
  /** The query marker of a `drive.google.com/uc?id=<id>` link. */
  const IdMarker := "id="

  /** The link handed to the Drive downloader for a file id. */
  const DriveDownloadBase := "https://drive.google.com/uc?id="

  const HubHost := "huggingface.co"
  const HubBase := "https://huggingface.co"
  const ArchiveExt := ".zip"

  /**
   The strategy `download_from_url` runs: a Drive marker wins over
   everything, then a blob or resolve segment, then a tree listing; anything
   else is fetched as is.
   */
  function Classify(url: string): (s: Strategy)
    ensures s == GoogleDrive <==> Contains(url, DriveHost)
    ensures s == DirectFile <==>
              !Contains(url, DriveHost) && (Contains(url, BlobSegment) || Contains(url, ResolveSegment))
    ensures s == DirectoryListing <==>
              !Contains(url, DriveHost) && !Contains(url, BlobSegment) && !Contains(url, ResolveSegment)
              && Contains(url, TreeSegment)
    ensures s == Generic <==>
              !Contains(url, DriveHost) && !Contains(url, BlobSegment) && !Contains(url, ResolveSegment)
              && !Contains(url, TreeSegment)
  {
    if Contains(url, DriveHost) then GoogleDrive
    else if Contains(url, BlobSegment) || Contains(url, ResolveSegment) then DirectFile
    else if Contains(url, TreeSegment) then DirectoryListing
    else Generic
  }

  /**
   `extract_google_drive_id`: the `file/d/` form is looked at first and
   yields the text after its first occurrence up to the next `/` (or the
   next `file/d/`); otherwise the `id=` form yields the text after its first
   occurrence up to the next `&` (or the next `id=`); a URL with neither
   marker has no id. The id may be empty.
   */
  function ExtractDriveId(url: string): (r: Option<string>)
    ensures r.None? <==> !Contains(url, FileMarker) && !Contains(url, IdMarker)
    ensures Contains(url, FileMarker) ==>
              && r.Some?
              && Find(url, FileMarker).Some?
              && IsToken(url[Find(url, FileMarker).value + |FileMarker|..], r.value, "/", FileMarker)
    ensures !Contains(url, FileMarker) && Contains(url, IdMarker) ==>
              && r.Some?
              && Find(url, IdMarker).Some?
              && IsToken(url[Find(url, IdMarker).value + |IdMarker|..], r.value, "&", IdMarker)
  {
    if Contains(url, FileMarker) then
      SecondPieceToken(url, FileMarker, "/");
      Some(Split(Split(url, FileMarker)[1], "/")[0])
    else if Contains(url, IdMarker) then
      SecondPieceToken(url, IdMarker, "&");
      Some(Split(Split(url, IdMarker)[1], "&")[0])
    else None
  }

  /** A token cut at a one-character stop never holds that character. */
  lemma TokenLacksStop(rest: string, v: string, c: char, b: string)
    requires IsToken(rest, v, [c], b)
    ensures c !in v
  {
    forall k | 0 <= k < |v| ensures v[k] != c {
      assert !OccursAt(rest, [c], k);
      assert rest[k..k + 1] == [v[k]];
    }
  }

  /** Whatever form the link has, an extracted Drive id never contains `/` in the first form or `&` in the second. */
  lemma DriveIdHasNoSeparator(url: string)
    ensures Contains(url, FileMarker) ==> '/' !in ExtractDriveId(url).value
    ensures !Contains(url, FileMarker) && Contains(url, IdMarker) ==> '&' !in ExtractDriveId(url).value
  {
    if Contains(url, FileMarker) {
      var i := Find(url, FileMarker).value;
      TokenLacksStop(url[i + |FileMarker|..], ExtractDriveId(url).value, '/', FileMarker);
    } else if Contains(url, IdMarker) {
      var i := Find(url, IdMarker).value;
      TokenLacksStop(url[i + |IdMarker|..], ExtractDriveId(url).value, '&', IdMarker);
    }
  }

  /** No `/` and no `file/d/` begins at index `j` of `<id>/<rest>`, for `j` inside `<id>`. */
  lemma FileTokenPosition(id: string, rest: string, j: int)
    requires '/' !in id
    requires !(EndsWith(id, "file") && "d/" <= rest)
    requires 0 <= j < |id|
    ensures !OccursAt(id + "/" + rest, "/", j) && !OccursAt(id + "/" + rest, FileMarker, j)
  {
    var x := id + "/" + rest;
    assert x[j..j + 1] == [id[j]];
    if j + |FileMarker| <= |x| {
      var m := x[j..j + |FileMarker|];
      if j + 4 < |id| {
        assert m[4] == id[j + 4];
      } else if j + 4 > |id| {
        assert m[|id| - j] == '/';
        assert FileMarker[..4] == "file";
        assert FileMarker[|id| - j] in FileMarker[..4];
      } else if !EndsWith(id, "file") {
        assert m[..4] == x[j..j + 4];
        assert x[j..j + 4] == id[j..];
        assert FileMarker[..4] == "file";
      } else {
        assert m[5..] == x[j + 5..j + 7];
        assert x[j + 5..j + 7] == rest[..2];
        assert FileMarker[5..] == "d/";
      }
      assert m != FileMarker;
    }
  }

  /** No `&` and no `id=` begins at index `j` of `<id><tail>`, for `j` inside `<id>`. */
  lemma QueryTokenPosition(id: string, tail: string, j: int)
    requires '&' !in id && !Contains(id, IdMarker)
    requires tail == [] || tail[0] == '&'
    requires 0 <= j < |id|
    ensures !OccursAt(id + tail, "&", j) && !OccursAt(id + tail, IdMarker, j)
  {
    var x := id + tail;
    assert x[j..j + 1] == [id[j]];
    if j + |IdMarker| <= |x| {
      var m := x[j..j + |IdMarker|];
      if j + |IdMarker| <= |id| {
        assert m == id[j..j + |IdMarker|];
        assert !OccursAt(id, IdMarker, j);
      } else {
        assert m[|id| - j] == '&';
        assert IdMarker[|id| - j] in IdMarker;
      }
      assert m != IdMarker;
    }
  }

  /**
   A `.../file/d/<id>/...` link yields exactly `<id>` when the marker does not
   occur earlier and `<id>` has no `/`. The one further exclusion is an id
   ending in `file` followed by `/d/`, which forms a second marker that
   `split` cuts at first.
   */
  lemma {:induction false} DriveIdFromFilePath(pre: string, id: string, rest: string)
    requires !Contains(pre, FileMarker)
    requires '/' !in id
    requires !(EndsWith(id, "file") && "d/" <= rest)
    ensures ExtractDriveId(pre + FileMarker + id + "/" + rest) == Some(id)
  {
    var url := pre + FileMarker + id + "/" + rest;
    var x := id + "/" + rest;
    assert url == pre + FileMarker + x;
    assert FileMarker[1..] == "ile/d/";
    NoStraddle(pre, FileMarker);
    FindAfterPrefix(pre, FileMarker, x);
    assert url[|pre| + |FileMarker|..] == x;
    FileIdIsToken(id, rest);
    TokenUnique(x, id, ExtractDriveId(url).value, "/", FileMarker);
  }

  /** `<id>` is the token of `<id>/<rest>` for the path form's stops. */
  lemma FileIdIsToken(id: string, rest: string)
    requires '/' !in id
    requires !(EndsWith(id, "file") && "d/" <= rest)
    ensures IsToken(id + "/" + rest, id, "/", FileMarker)
  {
    var x := id + "/" + rest;
    forall j | 0 <= j < |id| ensures !OccursAt(x, "/", j) && !OccursAt(x, FileMarker, j) {
      FileTokenPosition(id, rest, j);
    }
    assert x[|id|..|id| + 1] == "/";
  }

  /**
   A `...id=<id>` link, ended by `&` or by the end of the URL, yields exactly
   `<id>` when the link has no `file/d/` marker, `id=` does not occur
   earlier, and `<id>` holds neither `&` nor `id=`.
   */
  lemma {:induction false} DriveIdFromQuery(pre: string, id: string, tail: string)
    requires !Contains(pre + IdMarker + id + tail, FileMarker)
    requires !Contains(pre, IdMarker)
    requires '&' !in id && !Contains(id, IdMarker)
    requires tail == [] || tail[0] == '&'
    ensures ExtractDriveId(pre + IdMarker + id + tail) == Some(id)
  {
    var url := pre + IdMarker + id + tail;
    var x := id + tail;
    assert url == pre + IdMarker + x;
    assert IdMarker[1..] == "d=";
    NoStraddle(pre, IdMarker);
    FindAfterPrefix(pre, IdMarker, x);
    assert url[|pre| + |IdMarker|..] == x;
    QueryIdIsToken(id, tail);
    TokenUnique(x, id, ExtractDriveId(url).value, "&", IdMarker);
  }

  /** `<id>` is the token of `<id><tail>` for the query form's stops. */
  lemma QueryIdIsToken(id: string, tail: string)
    requires '&' !in id && !Contains(id, IdMarker)
    requires tail == [] || tail[0] == '&'
    ensures IsToken(id + tail, id, "&", IdMarker)
  {
    var x := id + tail;
    forall j | 0 <= j < |id| ensures !OccursAt(x, "&", j) && !OccursAt(x, IdMarker, j) {
      QueryTokenPosition(id, tail, j);
    }
    if tail != [] {
      assert x[|id|..|id| + 1] == "&";
    }
  }

  /**
   The direct-file rewrite of `download_blob_or_resolve`: with no `/blob/`
   the URL is kept; otherwise every non-overlapping `/blob/`, scanned left
   to right, becomes `/resolve/` (Python's `str.replace`, not only the first).
   The URL and its rewrite are the same pieces glued by the two segments.
   */
  function RewriteBlob(url: string): (r: string)
    ensures !Contains(url, BlobSegment) ==> r == url
    ensures r == Join(Split(url, BlobSegment), ResolveSegment)
  {
    ReplaceIsJoinOfSplit(url, BlobSegment, ResolveSegment);
    if Contains(url, BlobSegment) then Replace(url, BlobSegment, ResolveSegment) else url
  }

  /** A link `<pre>/blob/<post>` with a single blob segment becomes `<pre>/resolve/<post>`. */
  lemma RewriteBlobOnce(pre: string, post: string)
    requires !Contains(pre + "/blob", BlobSegment)
    requires !Contains(post, BlobSegment)
    ensures RewriteBlob(pre + BlobSegment + post) == pre + ResolveSegment + post
  {
    assert BlobSegment[..|BlobSegment| - 1] == "/blob";
    ReplaceFirst(pre, BlobSegment, ResolveSegment, post);
    assert OccursAt(pre + BlobSegment + post, BlobSegment, |pre|);
  }

  /** `<a>/blob/<b>/blob/<c>` has both segments rewritten, not only the first. */
  lemma RewriteBlobEveryOccurrence(a: string, b: string, c: string)
    requires !Contains(a + "/blob", BlobSegment)
    requires !Contains(b + "/blob", BlobSegment)
    requires !Contains(c, BlobSegment)
    ensures RewriteBlob(a + BlobSegment + b + BlobSegment + c) == a + ResolveSegment + b + ResolveSegment + c
  {
    assert BlobSegment[..|BlobSegment| - 1] == "/blob";
    var tail := b + BlobSegment + c;
    assert a + BlobSegment + b + BlobSegment + c == a + BlobSegment + tail;
    ReplaceFirst(a, BlobSegment, ResolveSegment, tail);
    ReplaceFirst(b, BlobSegment, ResolveSegment, c);
    assert OccursAt(a + BlobSegment + tail, BlobSegment, |a|);
  }

  /** The index of the first link ending in `.zip`, as the generator in `download_from_huggingface` finds it. */
  function FirstArchiveLink(hrefs: seq<string>): (r: Option<nat>)
    ensures r.Some? ==> r.value < |hrefs| && EndsWith(hrefs[r.value], ArchiveExt)
    ensures r.Some? ==> forall j :: 0 <= j < r.value ==> !EndsWith(hrefs[j], ArchiveExt)
    ensures r.None? <==> forall j :: 0 <= j < |hrefs| ==> !EndsWith(hrefs[j], ArchiveExt)
    decreases |hrefs|
  {
    if |hrefs| == 0 then None
    else if EndsWith(hrefs[0], ArchiveExt) then Some(0)
    else
      match FirstArchiveLink(hrefs[1..])
      case None => None
      case Some(k) => Some(k + 1)
  }

  /**
   The download link the listing strategy follows: the first `.zip` href
   with every `blob` turned into `resolve`, prefixed with the hub's address
   exactly when it does not name the hub. `None` when no href ends in
   `.zip`. The link always names the hub and still ends in `.zip`.
   */
  function ListingTarget(hrefs: seq<string>): (r: Option<string>)
    ensures r.None? <==> forall j :: 0 <= j < |hrefs| ==> !EndsWith(hrefs[j], ArchiveExt)
    ensures r.Some? ==> Contains(r.value, HubHost) && EndsWith(r.value, ArchiveExt)
    ensures r.Some? ==>
              var u := Replace(hrefs[FirstArchiveLink(hrefs).value], "blob", "resolve");
              (r.value == u <==> Contains(u, HubHost)) && (r.value == u || r.value == HubBase + u)
  {
    match FirstArchiveLink(hrefs)
    case None => None
    case Some(k) =>
      var u := Replace(hrefs[k], "blob", "resolve");
      ReplaceKeepsSuffix(hrefs[k], "blob", "resolve", ArchiveExt);
      if Contains(u, HubHost) then Some(u)
      else
        assert (HubBase + u)[8..8 + |HubHost|] == HubHost;
        assert OccursAt(HubBase + u, HubHost, 8);
        EndsWithAppend(HubBase, u, ArchiveExt);
        Some(HubBase + u)
  }
}
