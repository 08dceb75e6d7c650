# KnowunityDownloader download pipelines, modelled in Dafny

KnowunityDownloader saves the PDF documents behind one Knowunity link into a
local directory. It has two front-ends, and each one runs its own pipeline.
This project models both pipelines.

- **Scrape strategy** (`main.py`, `MainWindow.download_pdfs`):
  - It checks the URL, the output path and that the path exists.
  - It turns the identifiers captured from the page into content links.
  - It removes duplicate links and keeps first-seen order (`PDFLinkHandler.remove_duplicates`).
  - It derives a file name from each link.
  - It downloads every link whose file is not there yet.
  - Any exception ends the whole batch. The final message box then reports failure.
- **Metadata strategy** (`maingui.py`):
  - `KnowUnityGui.download_pdf` checks the URL and the output directory.
  - `KnowUnity.extract_uuid` finds the UUID in the URL.
  - `KnowUnity.download_pdf` asks the metadata API for the document's title and content URLs.
  - It downloads every part and names the files by position.
  - It skips parts whose request fails.
  - At the end it raises unless every part was saved.

Modules, with the definitions that model the code directly (they have no
contract of their own; the lemmas in the table below state their properties):

- `Common` (`common.dfy`):
  - `Option`, and bytes as `seq<bv8>`.
  - What the file system says about a path (`PathKind`).
  - `Directory`, a class whose `files` map is the output directory. Its `Exists` and `Write` methods are the only way the pipelines touch it.
- `LinkHandler` (`link_handler.dfy`):
  - `ContentLink` is the f-string of main.py:49, and `Links` the list comprehension of main.py:48-51.
  - `Dedup` is `dict.fromkeys` as order-preserving de-duplication (main.py:46-53).
- `ScrapeDownload` (`scrape_download.dfy`):
  - `IsKnowPageUrl` is the URL guard (main.py:114).
  - `PdfFileName` is the name derivation (main.py:134-135).
  - `Step` is one turn of the skip-if-exists loop (main.py:134-141), and `Run` the whole loop (main.py:133-141). The method `DownloadLinks` runs the same loop over the `Directory`.
  - The method `DownloadPdfs` is the whole of `download_pdfs` (main.py:104-152).
- `Decimal` (`decimal.dfy`): `str()` of a counter, and its inverse.
- `Uuid` (`uuid.dfy`): the leftmost search for the UUID pattern (maingui.py:16, 116-119).
- `KnowDownload` (`know_download.dfy`):
  - `PartFileName` is the file-name expression (maingui.py:156-162).
  - `ContentUrls` is `know_content_urls` (maingui.py:139).
  - `FetchPart` is one turn of the enumerate loop (maingui.py:149-166), and `FetchParts` the loop after its first turns. `DownloadParts` is the whole loop (maingui.py:146-166).
  - `PartNames` gives the file names of a list of positions. It is the reference the lemmas compare `downloaded_files` with.
  - `Download` is all of `KnowUnity.download_pdf` (maingui.py:131-169). The class `KnowUnity` and its method `DownloadPdf` run it over the `Directory`.
  - `GuiPrecheck` and `GuiDownloadPdf` are the GUI checks and the GUI handler.

The network and the file system are inputs:

- `page(url)`: the captures of a page, or `None` when the page request raises.
- `fetch(link)`: what a content request gives.
- `api(endpoint)`: the metadata, or `None` when `get_data` returns nothing usable.
- `kind`: whether the output path is missing, a regular file or a directory.

Three facts about the code, which the model follows:

- The UUID pattern is case-sensitive: it matches lower-case hex only.
- Files are written in place, with no temporary file and no rename. A stream that breaks part-way in `main.py` leaves a truncated file, and later runs skip that file.
- `KnowUnity.download_pdf` raises after the loop when any part failed. It returns no count of successes and failures.

## Model

| member | source | states |
|---|---|---|
| ScrapeDownload.Precheck | main.py:108-126 | No check objects exactly when the URL starts with `https://knowunity.de/knows/`, the output path is non-empty and it exists. Each message is given exactly when its check is the first to fail: the empty-URL message for the empty URL; "Invalid URL" for a non-empty URL without the prefix; the select-directory message for a valid URL with an empty path; and the missing-directory message for a valid URL with a non-empty path that does not exist. |
| ScrapeDownload.LastSegment | main.py:134 | `split("/")[-1]` is the longest suffix without a `/`: it is a suffix, it holds no `/`, and a `/` comes right before it when it is shorter than the input. |
| ScrapeDownload.BeforeFirst | main.py:134 | `split("_")[0]` is the longest prefix without the separator: it is a prefix, it holds no separator, and the separator follows it when it is shorter. |
| ScrapeDownload.PdfFileNameShape | main.py:134-135 | A derived file name is a stem plus `.pdf`. The stem holds neither `/` nor `_` and starts the link's last segment. |
| ScrapeDownload.LastSegmentAfterSlash | main.py:134 | The last segment of `p + "/" + seg` is `seg` when `seg` has no `/`. |
| ScrapeDownload.BeforeFirstAppend | main.py:134 | Cutting `a + b` at the first separator: within `a` when `a` holds one, and otherwise after all of `a`. |
| ScrapeDownload.FileNameAfterSlash | main.py:134-135 | For any link `p/c.pdf` with no `/` in `c`, the name is `c` cut at its first `_` plus `.pdf`. When `c` has no `_`, the name is `c + ".pdf.pdf"`. |
| ScrapeDownload.ContentLinkFileName | main.py:134-135 | The same two cases for the content link built from a capture. A capture without `_` is saved as `capture.pdf.pdf`. |
| ScrapeDownload.BeforeFirstOfPdf | main.py:134 | The link's `.pdf` suffix has no `_`, so cutting leaves it whole. |
| ScrapeDownload.RunAbortedIsFinal | main.py:128-152 | Once an exception has ended the batch, no further request or write happens. |
| ScrapeDownload.RunKeepsExisting | main.py:136-137 | A file present before the loop is still present with the same bytes afterwards. Earlier requests stay a prefix of the requests, and an ended batch stays ended. |
| ScrapeDownload.RunRequestsOnlyMissing | main.py:133-138 | Every request is for one of the links, and only for a link whose file did not exist when the loop started. |
| ScrapeDownload.RunFetchesEachNameOnce | main.py:136-141 | In one run no two requested links share a destination file name. |
| ScrapeDownload.RunSavesBodies | main.py:136-141 | From any batch state the loop can reach (the names requested so far are distinct and, unless the batch has ended, present), a link requested from then on whose response streamed has its file holding exactly that body at the end, whatever the status. No later link of the run writes that file again. |
| ScrapeDownload.RunFromStartSavesBodies | main.py:133-141 | For a whole run of the loop: every requested link whose response streamed has its file holding exactly its body when the run ends. |
| ScrapeDownload.RunNewFilesWereRequested | main.py:136-141 | Every file that appears or changes during the loop is the derived file of a link that was requested. |
| ScrapeDownload.RunCompleteHasAll | main.py:133-141 | When the loop ends without an exception, every link's derived file exists. |
| ScrapeDownload.RunAllPresentIsNoop | main.py:136-137 | When every link's file already exists, the loop requests nothing and changes nothing. |
| ScrapeDownload.RerunIsIdempotent | main.py:133-141 | Running again after a completed run makes no request and leaves the directory as it was. |
| ScrapeDownload.ResponseBodyIsSavedWhatever | main.py:138-148 | For one link: the HTTP status is never checked, so the response body is saved whatever the status. A stream that breaks part-way ends the batch. The truncated file it leaves is skipped by the next run. `RunSavesBodies` states the saved body for a general batch. |
| ScrapeDownload.DownloadLinks | main.py:133-141 | The loop over the links leaves the directory, the requests and the ended-flag exactly as the specification `Run` gives them. The lemmas above describe `Run`. `Run` and those lemmas take the naming function as a parameter and hold for any naming. `DownloadPdfs` passes `PdfFileName`. |
| ScrapeDownload.DownloadPdfs | main.py:104-152 | A failed check gives its message, requests nothing and writes nothing. A page request that raises gives the error message. For a directory, the outcome is `Run` over `remove_duplicates` of the captures. For a regular file, the first link is requested, `open` raises and nothing is written. |
| LinkHandler.ContentLinkInjective | main.py:49 | Different captures give different content links. |
| LinkHandler.FirstIndex | main.py:46-53 | The position of an element's first occurrence: the element is there and not earlier. |
| LinkHandler.FirstIndexOfPrefix | main.py:46-53 | Extending a sequence keeps the first occurrence of an element already present. |
| LinkHandler.Dedup | main.py:46-53 | The keys of `dict.fromkeys`: no longer than the input, and the elements are exactly the input's elements, in both directions. |
| LinkHandler.DedupDistinct | main.py:46-53 | No key is listed twice. |
| LinkHandler.DedupFirstSeenOrder | main.py:46-53 | Keys appear in the order of their first occurrence in the input. |
| LinkHandler.DedupPositionOrder | main.py:46-53 | Both directions of the order statement: one key comes before another exactly when its first occurrence does. |
| LinkHandler.DedupOfDistinct | main.py:46-53 | A sequence without repeats is returned unchanged. |
| LinkHandler.DedupIdempotent | main.py:46-53 | De-duplicating twice is the same as once. |
| LinkHandler.FirstIndexOfLink | main.py:48-51 | A capture's link first occurs in the comprehension where the capture first occurs. |
| LinkHandler.RemoveDuplicates | main.py:42-53 | Every output is the content link of some capture, and every capture's link is in the output. No link appears twice. The output is no longer than the input, and empty input gives empty output. |
| LinkHandler.RemoveDuplicatesFirstSeen | main.py:42-53 | A capture first seen before another has its link listed before the other's. |
| LinkHandler.DedupRepeatedFirst | main.py:46-53 | `[a, b, a, c]` with distinct elements collapses to `[a, b, c]`. |
| LinkHandler.RemoveDuplicatesExample | main.py:42-53 | The captures `a, b, a, c` give the links of `a`, `b`, `c`, in that order. |
| Decimal.NatToString | maingui.py:159 | `str(counter)` is a non-empty run of decimal digits with no leading zero. |
| Decimal.ParseNatToString | maingui.py:159 | Reading the digits back gives the number. |
| Decimal.NatToStringInjective | maingui.py:159 | Different counters give different digit strings. |
| Uuid.UuidShapeIsPattern | maingui.py:16 | The positional shape is exactly what the regular expression, read piece by piece, matches: 36 characters, `-` at positions 8, 13, 18 and 23, and lower-case hex elsewhere. |
| Uuid.SearchFrom | maingui.py:118 | The scan returns the first position from `i` on where the pattern matches, and `None` when it matches nowhere from `i` on. |
| Uuid.ExtractUuid | maingui.py:116-119 | The result is `None` exactly when no substring of the URL matches. Otherwise it is the leftmost matching substring. It has the UUID shape and matches the pattern. |
| KnowDownload.PartFileNameCases | maingui.py:148-162 | A single part is saved as `title.pdf`. Among several parts, position k is saved as `title_k.pdf`, so the `counter > 0` fallback is never taken. |
| KnowDownload.PartFileNamesDistinct | maingui.py:156-162 | Among several parts, different positions give different file names. |
| KnowDownload.Succeeded | maingui.py:148-154 | The positions of successful fetches, strictly increasing. A position is listed exactly when its fetch succeeds. |
| KnowDownload.SucceededAll | maingui.py:148-168 | Every position succeeded exactly when every fetch succeeded. |
| KnowDownload.FetchPartsDownloaded | maingui.py:146-165 | `downloaded_files` holds the names of the successful parts, in input order. |
| KnowDownload.FetchPartsLeavesOthers | maingui.py:163-164 | A file whose name no part has is left as it was. |
| KnowDownload.FetchPartsFileAt | maingui.py:149-165 | Among several parts, the file of part k holds that part's body when its fetch succeeds. When the fetch fails, that file is left as it was. |
| KnowDownload.DownloadPartsTally | maingui.py:146-169 | `downloaded_files` is exactly the successful parts' names, in order, and is no longer than the URL list. It is as long as the URL list exactly when every fetch succeeded. |
| KnowDownload.DownloadPartsFile | maingui.py:149-165 | For any number of parts: a successful part's file holds its body, and a failed part writes nothing. |
| KnowDownload.DownloadPartsLeavesOthers | maingui.py:163-164 | Files other than the parts' own are untouched. |
| KnowDownload.DownloadedNamesDistinct | maingui.py:156-165 | The names in `downloaded_files` are pairwise different, for any number of parts. |
| KnowDownload.SecondOfThreeFails | maingui.py:148-169 | Three parts whose second fetch fails: `title_1.pdf` and `title_3.pdf` are written and listed, so the count check fails. |
| KnowDownload.DownloadCompletesIff | maingui.py:133-169 | `download_pdf` completes exactly when the metadata arrives and every part's fetch succeeds. Without metadata it raises after the single metadata request and writes nothing. |
| KnowDownload.KnowUnity.constructor | maingui.py:112-114 | The object keeps the URL and the UUID extracted from it. |
| KnowDownload.KnowUnity.DownloadPdf | maingui.py:131-169 | The enumerate loop leaves the directory, the requests and the outcome exactly as the specification `Download` gives them. The lemmas above describe `Download`. |
| KnowDownload.GuiPrecheck | maingui.py:77-88 | No check objects exactly when the URL is non-empty, the path is a non-empty directory and the URL holds a UUID. Each message is given exactly when its check is the first to fail: "Please enter a URL" for the empty URL; "Please choose a valid output directory" for a non-empty URL whose path is empty or not a directory; and "Invalid URL" when the path is a directory but the URL holds no UUID. |
| KnowDownload.GuiDownloadPdf | maingui.py:73-94 | A failed check shows its message, requests nothing and writes nothing. Otherwise the status is "Download complete" or the exception's message, and the files and requests are those of `Download`. |
| Common.Directory.Exists | main.py:136 | `os.path.exists` on a name in the output directory: true exactly when the directory holds it. |
| Common.Directory.Write | main.py:139-141 | `open(path, "wb")` and writing the body: the directory maps the name to the body and nothing else changes. |

## Left out

- The PyQt user interface is not modelled: window layout, dialogs, dark mode. Message boxes and the status bar are modelled only as the message they would show.
- Settings and config persistence is not modelled: `load_config`/`save_config` and `load_settings`/`save_settings` are plain file I/O. A failure of `save_config` inside the `try` would also report failure; the model does not include that.
- HTTP mechanics are inputs, not models: sessions, headers, `raise_for_status`, chunked streaming, JSON decoding.
- A metadata document without `title` or `contentUrl` raises a `KeyError` whose text the GUI shows. The model does not include malformed metadata; `api` gives either a well-formed document or `None`.
- The regular-expression scan of the page markup (`re.findall`) is not modelled. The captures are the input to link derivation.
- Each request's outcome is a function of its URL. The same URL requested twice in one run is modelled as giving the same outcome both times.
- Disk write errors are not modelled, except for the output path being a regular file in `main.py`.
- File names are flat keys of the output directory. A title or capture containing `/` that would reach a sub-directory is not modelled as such.
- Logging is not modelled.
- `pageCount` is read into the metadata but never used, so no property is stated about it.
