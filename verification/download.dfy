/**
 `download_from_url` and the fetch helpers it dispatches to, with the
 network abstracted into a `Network` value: the responses GET requests
 receive, the links a listing page carries, and whether the Drive
 downloader completes. The result is what lands in the staging directory,
 or the reason nothing did; the Python function reports only
 `"downloaded"` versus `None`, which is `Ok` versus `Err` here.
 */
module Download {
  import opened Results
  import opened Strings
  import opened Classifier
  import ContentDisposition

  /** The parts of a GET response the code reads: the status code and the percent-decoded `Content-Disposition` header, `""` when absent. */
  datatype Response = Response(status: int, disposition: string)

  /**
   The outside world: `get` answers every GET, `links` gives the `href` of
   each anchor on the page at a URL in document order, and `drive` says
   whether the Drive downloader completes for a link without raising.
   */
  datatype Network = Network(get: string -> Response, links: string -> seq<string>, drive: string -> bool)

  /** Why a download produced nothing. */
  datatype FetchError =
    | InvalidSource      // a Drive link without a usable file id
    | BadStatus(code: int)  // a GET answered with a status other than 200
    | NoArchiveFound     // a listing page without a `.zip` link
    | DriveFailed        // the Drive downloader raised

  /** What a successful download wrote: a Drive file, or a body streamed from `source` to the staging file `name`. */
  datatype Fetched = FromDrive(link: string) | Staged(source: string, name: string)

  const OkStatus := 200

  /** `download_file` (also the request step of `download_blob_or_resolve`): a streamed GET saved only on status 200. */
  function FetchFile(url: string, net: Network): (r: Result<Fetched, FetchError>)
    ensures r.Ok? <==> net.get(url).status == OkStatus
    ensures r.Ok? ==> r.value.Staged? && r.value.source == url
    ensures r.Ok? ==> r.value.name == ContentDisposition.SavedFileName(net.get(url).disposition)
    ensures r.Err? ==> r.error == BadStatus(net.get(url).status)
  {
    var response := net.get(url);
    if response.status == OkStatus then
      Ok(Staged(url, ContentDisposition.SavedFileName(response.disposition)))
    else
      Err(BadStatus(response.status))
  }

  /** The id `download_from_url` accepts: present and non-empty (Python's truthiness test on the id). */
  predicate UsableId(id: Option<string>) {
    id.Some? && id.value != []
  }

  /**
   `download_from_url`: exactly one strategy runs, the one `Classify`
   picks. Anything staged comes from a 200 response and is named after its
   `Content-Disposition` header; a failed status is reported with its code.
   */
  function DownloadFromUrl(url: string, net: Network): (r: Result<Fetched, FetchError>)
    ensures Classify(url) == GoogleDrive && !UsableId(ExtractDriveId(url)) ==> r == Err(InvalidSource)
    ensures Classify(url) == GoogleDrive ==>
              (r.Ok? <==> UsableId(ExtractDriveId(url)) && net.drive(DriveDownloadBase + ExtractDriveId(url).value))
    ensures Classify(url) == GoogleDrive && UsableId(ExtractDriveId(url)) ==>
              (r == Err(DriveFailed) <==> !net.drive(DriveDownloadBase + ExtractDriveId(url).value))
    ensures r.Ok? && r.value.FromDrive? ==>
              Classify(url) == GoogleDrive && r.value.link == DriveDownloadBase + ExtractDriveId(url).value
    ensures r.Ok? && r.value.Staged? ==>
              && Classify(url) != GoogleDrive
              && net.get(r.value.source).status == OkStatus
              && r.value.name == ContentDisposition.SavedFileName(net.get(r.value.source).disposition)
    ensures r.Err? && r.error.BadStatus? ==> r.error.code != OkStatus
    ensures Classify(url) == DirectFile ==>
              (r.Ok? <==> net.get(RewriteBlob(url)).status == OkStatus)
              && (r.Ok? ==> r.value.source == RewriteBlob(url))
              && (r.Err? ==> r.error == BadStatus(net.get(RewriteBlob(url)).status))
    ensures Classify(url) == DirectoryListing ==>
              (r == Err(NoArchiveFound) <==>
                 forall j :: 0 <= j < |net.links(url)| ==> !EndsWith(net.links(url)[j], ArchiveExt))
    ensures Classify(url) == DirectoryListing && ListingTarget(net.links(url)).Some? ==>
              var target := ListingTarget(net.links(url)).value;
              && (r.Ok? <==> net.get(target).status == OkStatus)
              && (r.Ok? ==> r.value.source == target)
              && (r.Err? ==> r.error == BadStatus(net.get(target).status))
    ensures Classify(url) == DirectoryListing && r.Ok? ==>
              Contains(r.value.source, HubHost) && EndsWith(r.value.source, ArchiveExt)
    ensures Classify(url) == Generic ==>
              (r.Ok? <==> net.get(url).status == OkStatus)
              && (r.Ok? ==> r.value.source == url)
              && (r.Err? ==> r.error == BadStatus(net.get(url).status))
  {
    match Classify(url)
    case GoogleDrive =>
      var id := ExtractDriveId(url);
      if UsableId(id) then
        var link := DriveDownloadBase + id.value;
        if net.drive(link) then Ok(FromDrive(link)) else Err(DriveFailed)
      else
        Err(InvalidSource)
    case DirectFile =>
      FetchFile(RewriteBlob(url), net)
    case DirectoryListing =>
      (match ListingTarget(net.links(url))
       case None => Err(NoArchiveFound)
       case Some(target) => FetchFile(target, net))
    case Generic =>
      FetchFile(url, net)
  }

  /**
   The listing strategy, stated by position: when the listing's hrefs are
   `pre`, then a `.zip` href `link`, then anything, and nothing in `pre`
   ends in `.zip`, the download is exactly a fetch of `link` with `blob`
   turned into `resolve`, prefixed with the hub's address when it does not
   name the hub.
   */
  lemma {:induction false} ListingFetchesFirstArchive(url: string, net: Network, pre: seq<string>, link: string, post: seq<string>)
    requires Classify(url) == DirectoryListing
    requires net.links(url) == pre + [link] + post
    requires forall j :: 0 <= j < |pre| ==> !EndsWith(pre[j], ArchiveExt)
    requires EndsWith(link, ArchiveExt)
    ensures var u := Replace(link, "blob", "resolve");
            DownloadFromUrl(url, net) == FetchFile(if Contains(u, HubHost) then u else HubBase + u, net)
  {
    var hs := net.links(url);
    assert hs[|pre|] == link;
    assert forall j :: 0 <= j < |pre| ==> hs[j] == pre[j];
    assert FirstArchiveLink(hs).Some?;
    var k := FirstArchiveLink(hs).value;
    assert !(k < |pre|);
    assert !(k > |pre|);
  }
}
