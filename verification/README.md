# model_download, modelled in Dafny

This project models the decision logic of the model-download tool in
`bfrvc/unit/tools/model_download.py`. The tool takes a URL and picks one of
four download strategies: Google Drive, a direct Hugging Face file, a
Hugging Face listing page, or a plain URL. It names the downloaded file
after its `Content-Disposition` header. Once the archive is extracted, it
normalises the folder layout and reports the `.pth` weights and `.index`
files it finds.

The network, HTML parsing, percent-decoding, zip extraction and file system
calls are replaced by values:
- the `Network` record says what each GET returns, which links a page
  carries, and whether the Drive downloader succeeds;
- the header is taken already decoded;
- a directory is a finite map `Folder = map<string, Entry>`, where
  `Entry = File(bytes) | Dir(Folder)`;
- each listing of a folder is an explicit order that satisfies
  `Tree.IsListing`. `search_pth_index` lists its folder twice, and the
  model uses one order for both listings (see "Left out").

Python's string operations are modelled exactly in `Strings`, for
non-empty separators and patterns, which are the only ones the tool uses.
`Split` and `Replace` work on leftmost, non-overlapping occurrences. The separator is
POSIX `/`.

Modules, in dependency order:
- `Results`: `Option` and `Result`.
- `Strings`: `in`, `endswith`, `split`, `join`, `replace` and `find`.
- `Tree`: the directory model, listings and `os.path.join`.
- `Artifacts`: the `.pth` and `.index` markers shared by the search and the rename step.
- `Classifier`: strategy choice, Drive id extraction and the two URL rewrites.
- `ContentDisposition`: the saved file name.
- `Download`: `download_from_url` over an abstract network.
- `ArtifactSearch`: `search_pth_index`.
- `Layout`: `clean_extracted_files`.
- `Pipeline`: the clean-then-search path, proved end to end for a wrapped archive.

Points where the code's behaviour is easy to misread:
- `RewriteBlob` follows `str.replace`, so it rewrites every `/blob/`, not
  only the first. Its result can still contain `/blob/`: `x/blob/blob/y`
  becomes `x/resolve/blob/y`.
- The Drive id is the text up to the *earlier* of the next stop character
  and the next marker. This is because the code splits on the marker first.
  An id therefore ends at a later `file/d/` (or `id=`) as well as at `/`
  (or `&`).
- `shutil.rmtree` raises when `__MACOSX` is a regular file. That exception
  ends the cleaning step, so `Layout.Clean` returns `Err` in that case.
- Only one wrapper level is hoisted. A `__MACOSX` folder inside the wrapper
  is moved up and is not removed; `Layout.NestedMetadataSurvives` shows
  this.
- Re-running the rename step changes nothing only when the model name has
  no `.pth` in it. With the model name `x.pth`, a lone `b.index` becomes
  `x.pth.index` on the first pass and `x.pth.pth` on the second.
  `Layout.RenameNotIdempotentForWeightsModel` shows this.

## Model

| member | source | states |
|---|---|---|
| Strings.Split | bfrvc/unit/tools/model_download.py:98 | `str.split`: the pieces joined by the separator give back the string, no piece contains the separator, there is one piece exactly when the separator is absent, and each cut is at the leftmost occurrence (a piece followed by the separator's first characters but the last still holds no separator) |
| Strings.HeadPieceLeftmost | bfrvc/unit/tools/model_download.py:98 | the text before the first occurrence of the separator, extended by all of the separator but its last character, holds no occurrence |
| Strings.Replace | bfrvc/unit/tools/model_download.py:114 | `str.replace` leaves a string without the pattern unchanged |
| Strings.ReplaceIsJoinOfSplit | bfrvc/unit/tools/model_download.py:114 | `s.replace(p, q)` equals `q.join(s.split(p))`: every occurrence is replaced, leftmost first, without overlap |
| Strings.ReplaceChar | bfrvc/unit/tools/model_download.py:132 | replacing one character by another keeps the length and changes exactly the matching positions |
| Strings.ReplaceKeepsSuffix | bfrvc/unit/tools/model_download.py:168 | a replacement whose pattern ends in a character absent from a suffix keeps that suffix (a `.zip` link still ends in `.zip` after `blob` becomes `resolve`) |
| Classifier.Classify | bfrvc/unit/tools/model_download.py:62-78 | exactly one strategy, in priority order: Drive host, then a blob or resolve segment, then `/tree/main`, then generic; each case holds if and only if its condition holds |
| Classifier.ExtractDriveId | bfrvc/unit/tools/model_download.py:97-101 | no id exactly when neither marker occurs; the `file/d/` form is preferred, and the id is the unique token after its first occurrence that stops at `/` or a later marker; the `id=` form is the same with `&` |
| Classifier.DriveIdHasNoSeparator | bfrvc/unit/tools/model_download.py:97-100 | an id from the path form holds no `/`; an id from the query form holds no `&` |
| Classifier.DriveIdFromFilePath | bfrvc/unit/tools/model_download.py:97-98 | extraction inverts link building: `<pre>file/d/<id>/<rest>` yields `<id>` when the marker is first and `<id>` is free of `/` |
| Classifier.DriveIdFromQuery | bfrvc/unit/tools/model_download.py:99-100 | `<pre>id=<id>` followed by `&...` or by the end of the URL yields `<id>` |
| Classifier.RewriteBlob | bfrvc/unit/tools/model_download.py:113-114 | a URL without `/blob/` is kept; otherwise the rewrite is the URL's pieces between `/blob/` segments, joined by `/resolve/` |
| Classifier.RewriteBlobOnce | bfrvc/unit/tools/model_download.py:113-114 | `<pre>/blob/<post>` becomes `<pre>/resolve/<post>` |
| Classifier.RewriteBlobEveryOccurrence | bfrvc/unit/tools/model_download.py:113-114 | with two blob segments, both are rewritten |
| Classifier.FirstArchiveLink | bfrvc/unit/tools/model_download.py:159-166 | the index of the first href ending in `.zip`, or none exactly when no href does |
| Classifier.ListingTarget | bfrvc/unit/tools/model_download.py:159-173 | none exactly when no href ends in `.zip`; otherwise the result names the hub, still ends in `.zip`, and has the hub prefix exactly when the rewritten link lacks the host |
| ContentDisposition.MatchAt | bfrvc/unit/tools/model_download.py:130 | the regex attempt at one index captures a value exactly when `filename="<non-empty, quote-free>"` starts there |
| ContentDisposition.Search | bfrvc/unit/tools/model_download.py:130 | `re.search`: the leftmost matching index and its capture, or none when no index matches |
| ContentDisposition.SearchFindsLeftmost | bfrvc/unit/tools/model_download.py:130 | a match with none at an earlier index is the one `re.search` reports |
| ContentDisposition.SavedFileName | bfrvc/unit/tools/model_download.py:128-135 | the name is never empty and holds neither a separator nor a quote; with no match it is `downloaded_file` |
| ContentDisposition.SavedFileNameOfMatch | bfrvc/unit/tools/model_download.py:129-135 | for the leftmost match, the name is the capture character for character, with `/` turned into `_` |
| ContentDisposition.FirstCaptureWins | bfrvc/unit/tools/model_download.py:129-135 | a header `<pre>filename="<v>"<post>` with no earlier opening names the file after `<v>` with separators replaced, whatever follows |
| ContentDisposition.SeparatorReplaced | bfrvc/unit/tools/model_download.py:132 | a capture `a/b` is saved as `a_b` |
| Download.FetchFile | bfrvc/unit/tools/model_download.py:185-189 | succeeds exactly on status 200, staging the body from that URL under the name its `Content-Disposition` header gives; any other status fails with that code |
| Download.DownloadFromUrl | bfrvc/unit/tools/model_download.py:59-85 | only the classified strategy runs; a Drive link without a usable id fails without any download; Drive succeeds exactly when the id is usable and the downloader completes, and with a usable id fails with the Drive error exactly when the downloader does not complete; staged files come from a 200 response and are named from the header; direct files are fetched from the rewritten URL and fail with its status code; a listing fails with no archive exactly when no href ends in `.zip`, and otherwise fetches the listing's download link, succeeding exactly on status 200 |
| Download.ListingFetchesFirstArchive | bfrvc/unit/tools/model_download.py:157-173 | for hrefs `pre + [link] + post` with no `.zip` in `pre` and `link` ending in `.zip`, the download fetches `link` with `blob` turned into `resolve`, prefixed with `https://huggingface.co` exactly when it lacks the host |
| ArtifactSearch.Matching | bfrvc/unit/tools/model_download.py:37-46 | a name is kept exactly when it is listed, is a regular file and ends with the suffix; the kept names keep listing order |
| ArtifactSearch.SearchArtifacts | bfrvc/unit/tools/model_download.py:33-47 | a missing folder yields two empty lists; otherwise the weights paths and the index paths of the regular top-level files |
| Layout.StripMetadata | bfrvc/unit/tools/model_download.py:294-296 | fails exactly when `__MACOSX` is a regular file; otherwise the folder minus that one name, every other entry kept |
| Layout.Subfolders | bfrvc/unit/tools/model_download.py:298-302 | exactly the directories of the listing, each once |
| Layout.OnlyDirIsSole | bfrvc/unit/tools/model_download.py:298-303 | a lone directory is the only entry of the subfolder list, whatever files sit beside it |
| Layout.Hoist | bfrvc/unit/tools/model_download.py:298-310 | with exactly one top-level directory, the directory goes and its children take its place next to the untouched siblings; with none or several, nothing changes |
| Layout.RenamePreserves | bfrvc/unit/tools/model_download.py:312-322 | an entry the loop does not visit keeps its name and content |
| Layout.RenameAllMoves | bfrvc/unit/tools/model_download.py:312-322 | the loop keeps the number of entries; each visited entry's content is afterwards under its own name or under its target name; only the two canonical names can appear |
| Layout.CanonicalNamesAreFixed | bfrvc/unit/tools/model_download.py:314-317 | for a model name without `.pth`, `<model>.pth` and `<model>.index` are their own targets |
| Layout.RenameAllSettles | bfrvc/unit/tools/model_download.py:312-322 | for a model name without `.pth`, after the loop every entry that would be renamed finds its target name taken |
| Layout.SettledIsFixpoint | bfrvc/unit/tools/model_download.py:312-322 | a settled folder is left as it is by any rename pass |
| Layout.RenameArtifacts | bfrvc/unit/tools/model_download.py:312-322 | the loop's outcome (`Layout.RenamedFrom`): never overwrites, so the entry count is kept; entries without a target stay put; every new name is the target of an entry; the first entry in listing order whose target name is free takes it with its content; names other than the two canonical ones are never written; for any model name, an entry that takes its target leaves its name unless it is `<model>.index`, and an entry that does not take it stays with its content unless its target is `<model>.index`; for a model name without `.pth`, an entry leaves its name exactly when it takes its target (`Layout.TakesTarget`), and keeps its content otherwise; only the canonical names are new; an existing `<model>.pth` is kept; the result is settled when the model name lacks `.pth` |
| Layout.RenameAllRenamedFrom | bfrvc/unit/tools/model_download.py:312-322 | the loop over any listing yields a folder renamed in the sense of `Layout.RenamedFrom` |
| Layout.NewNamesAreTargets | bfrvc/unit/tools/model_download.py:312-322 | a name the loop adds is the target of one of the entries it visits |
| Layout.CanonicalAfterOne | bfrvc/unit/tools/model_download.py:314-322 | for a model name without `.pth`, a canonical name is present after one iteration exactly when it was present before or the visited entry targets it |
| Layout.WeightsNameIsFixed | bfrvc/unit/tools/model_download.py:314-315 | for any model name, `<model>.pth` holds `.pth` and so is its own target |
| Layout.OtherNamesUnchanged | bfrvc/unit/tools/model_download.py:312-322 | a name other than `<model>.pth` and `<model>.index` that is still present after the loop holds what it held before |
| Layout.RenameRuleAnyModel | bfrvc/unit/tools/model_download.py:312-322 | for any model name: the entry at listing position `i` that takes its target leaves its name unless it is `<model>.index`; one that does not take its target keeps its name and content unless its target is `<model>.index` |
| Layout.RenameRule | bfrvc/unit/tools/model_download.py:312-322 | for a model name without `.pth`, the entry at listing position `i` leaves its name exactly when its target was absent from the folder and no earlier entry has the same target; otherwise it keeps its name and content |
| Layout.RenameIdempotent | bfrvc/unit/tools/model_download.py:312-322 | a second rename pass, over any listing, changes nothing when the model name lacks `.pth` |
| Layout.RenameNotIdempotentForWeightsModel | bfrvc/unit/tools/model_download.py:314-317 | with `.pth` in the model name, the second pass renames `<model>.index` to `<model>.pth` |
| Layout.FirstTargetWins | bfrvc/unit/tools/model_download.py:312-322 | a free target name ends up holding the content of the first entry in listing order whose target it is |
| Layout.TakenTargetFilled | bfrvc/unit/tools/model_download.py:312-322 | a free target name of any visited entry is taken once the loop is over |
| Layout.FirstWeightsWins | bfrvc/unit/tools/model_download.py:312-322 | the first `.pth`-named entry in listing order takes the weights name, if that name was free |
| Layout.FirstIndexWins | bfrvc/unit/tools/model_download.py:312-322 | the first entry in listing order named with `.index` but not `.pth` takes the index name, if that name was free |
| Layout.Unwrapped | bfrvc/unit/tools/model_download.py:294-310 | steps 1 and 2 without listings: `__MACOSX` is gone, and when exactly one directory remains at the top level, it is replaced by its children while every other entry keeps its content |
| Layout.HoistIsUnwrapped | bfrvc/unit/tools/model_download.py:294-310 | the listing-driven hoist of the stripped folder equals `Layout.Unwrapped`, whatever the listing order |
| Layout.MetadataOnlyFromWrapper | bfrvc/unit/tools/model_download.py:294-322 | after renaming the unwrapped folder, `__MACOSX` is present only when the lone wrapper held one |
| Layout.Clean | bfrvc/unit/tools/model_download.py:294-322 | fails exactly when `__MACOSX` is a file; otherwise the result is `Layout.Unwrapped` of the input renamed in the sense of `Layout.RenamedFrom`, which for a model name without `.pth` fixes every entry of the result, and for any model name fixes every entry outside the `<model>.index` case; `__MACOSX` is in the result only when the lone wrapper held one; the result is settled for a model name without `.pth` |
| Layout.NestedMetadataSurvives | bfrvc/unit/tools/model_download.py:294-310 | a `__MACOSX` folder inside the lone wrapper is moved up and survives cleaning unchanged |
| Pipeline.RenamePair | bfrvc/unit/tools/model_download.py:312-322 | a weights file and an index file are renamed to the canonical pair in either listing order |
| Pipeline.CleanWrappedArchive | bfrvc/unit/tools/model_download.py:294-322 | an archive wrapped in one folder, with or without `__MACOSX` beside it, is cleaned to exactly `{<model>.pth, <model>.index}` holding the original bytes |
| Pipeline.SearchCanonical | bfrvc/unit/tools/model_download.py:33-47 | the search over the cleaned folder, in either listing order, returns exactly the one-element lists `[<path>/<model>.pth]` and `[<path>/<model>.index]` |

## Left out

- HTTP: `requests.get`, streaming and the `tqdm` progress bar are not modelled. A GET is the `Network.get` value, and only its status and header are used.
- Google Drive downloads: `gdown.download` is a foreign library. Its outcome is the `Network.drive` predicate, and the bytes it writes are not modelled.
- HTML parsing: BeautifulSoup is not modelled. A listing page is the sequence of its anchors' `href` values, in document order (`Network.links`).
- Percent-decoding: `urllib.parse.unquote` is a library call. The header is taken already decoded.
- Downloaded bytes: the body written by `save_response_content` (lines 137-145) is not modelled. Only the chosen file name is.
- `rename_downloaded_files` (lines 191-201): the names `os.walk` returns never contain the separator, so on POSIX it renames nothing. It is not modelled.
- Archive handling: `extract`, `unzip_file`, `zipfile` and `os.remove` are archive decoding and file system effects.
- Process state: `os.chdir`, `os.makedirs` and the module-level paths (lines 17-21) are not modelled. The staging folder is implicit, and `PathJoin` takes the folder as a parameter.
- Orchestration: `model_download` and `handle_extraction_process` (lines 240-284) are left out. They pick the first `.zip` in a real directory listing, call `format_title`, and swallow every exception. `Pipeline` composes the modelled steps instead.
- `format_title` is not part of this model. The model name is any string without a `/`; see the next two lines.
- Layout.Clean: the model name is assumed to hold no `/`. It comes from a file's base name with `.zip` cut off (line 271), and `format_title` is assumed not to add a separator. A name with `/` would make the rename destination (lines 320-322) a nested or absolute path: `os.rename` then raises `FileNotFoundError` or moves the file out of the folder. That case is not modelled.
- Layout.RenameArtifacts: the same assumption about the model name holds; the nested or absolute destinations it excludes are not modelled.
- Layout.RenameArtifacts: with `.pth` in the model name, an existing `<model>.index` can be renamed to `<model>.pth`, and a later `.index` entry can then take the freed name. For `<model>.index` and for the entries whose target it is, the contract then states only the count, that each one's content ends under its own name or its target name, and the origin of each new name. It does not say which entry ends where.
- Layout.Clean: inherits the `<model>.index` gap of `Layout.RenameArtifacts` for model names holding `.pth`.
- Layout.RenameRule: the exact stay-or-leave rule is proved only for model names without `.pth`. With `.pth` in the model name, `<model>.index` is itself renamed, so a canonical name can be vacated and refilled during the loop. `Layout.RenameRuleAnyModel` states the rule for every model name, except for `<model>.index` itself and for entries whose target it is.
- Logging is not modelled.
- Layout.Hoist: collisions of `shutil.move` are excluded by the precondition `HoistSafe`. The wrapper's children must not share a name with a top-level entry, including the wrapper itself.
- Layout.RenameIdempotent: proved only for model names without `.pth`. For other names it does not hold; `RenameNotIdempotentForWeightsModel` shows why.
- ArtifactSearch.SearchArtifacts: a path that exists but is a regular file is not modelled. `os.listdir` raises for it.
- ArtifactSearch.SearchArtifacts: the two `os.listdir` calls (lines 39 and 44) are assumed to return the same order. A folder that changes between the two calls, or a file system that lists in varying order, is not modelled.
- Download.DownloadFromUrl: an exception other than a failed status, a missing archive link or a failed Drive download is not modelled. Examples are a connection error or a write failure. The `"downloaded"`/`None` result is `Ok`/`Err`.
- Non-POSIX path separators are not modelled: `os.path.sep` is `/` throughout.
