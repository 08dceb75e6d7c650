/** The metadata strategy of maingui.py: KnowUnity looks up a document's
    metadata by its UUID and downloads every content part, naming the files
    by position; a failed part is skipped and the batch goes on, and the call
    raises at the end unless every part was saved. KnowUnityGui.download_pdf
    checks its inputs first and shows the outcome in the status bar. */
module KnowDownload {
  import opened Common
  import opened Decimal
  import opened Uuid

  /** The metadata API the UUID is appended to. */
  const API_ENDPOINT: string := "https://apiedge-eu-central-1.knowunity.com/knows/"

  /** The messages of the two exceptions KnowUnity.download_pdf raises. */
  const METADATA_ERROR: string := "Failed to retrieve KnowUnity data"
  const INCOMPLETE_ERROR: string := "Failed to download all PDF files"

  /** The status-bar messages of KnowUnityGui.download_pdf. */
  const ENTER_URL: string := "Please enter a URL"
  const CHOOSE_DIR: string := "Please choose a valid output directory"
  const INVALID_URL: string := "Invalid URL"
  const COMPLETE: string := "Download complete"

  /** One entry of the metadata's "contents" list. */
  datatype Content = Content(contentUrl: string, pageCount: int)

  /** The metadata document: its "title" and its "contents". */
  datatype Know = Know(title: string, contents: seq<Content>)

  /** requests.get(url) followed by raise_for_status(): FetchFailed when
      either raises a RequestException, otherwise the response's content. */
  datatype ContentFetch = FetchFailed | Fetched(body: Bytes)

  /** The files of the output directory and the names in downloaded_files. */
  datatype Tally = Tally(files: map<string, Bytes>, downloaded: seq<string>)

  /** How download_pdf ended: normally, or with an exception's message. */
  datatype Outcome = Completed | Raised(message: string)

  /** know_content_urls: the contentUrl of every part, in order. */
  function ContentUrls(know: Know): (urls: seq<string>)
  {
    seq(|know.contents|, i requires 0 <= i < |know.contents| => know.contents[i].contentUrl)
  }

  /** The file name of the part with 1-based position `counter` among `total`
      parts. The last branch is only taken for counter 0, which enumerate(...,
      start=1) never produces. */
  function PartFileName(title: string, total: nat, counter: nat): string
  {
    if total == 1 then title + ".pdf"
    else if counter > 0 then title + "_" + NatToString(counter) + ".pdf"
    else title + ".pdf"
  }

  /** A single part is saved as title.pdf; among several, the part at
      position k is saved as title_k.pdf, so the counter > 0 test never
      fails. */
  lemma PartFileNameCases(title: string, total: nat, counter: nat)
    requires 1 <= counter <= total
    ensures total == 1 ==> PartFileName(title, total, counter) == title + ".pdf"
    ensures total > 1 ==> PartFileName(title, total, counter) == title + "_" + NatToString(counter) + ".pdf"
  {
  }

  /** Among several parts, different positions give different file names. */
  lemma PartFileNamesDistinct(title: string, total: nat, j: nat, k: nat)
    requires total > 1 && 1 <= j && 1 <= k && j != k
    ensures PartFileName(title, total, j) != PartFileName(title, total, k)
  {
    var pre := title + "_";
    var sj, sk := NatToString(j), NatToString(k);
    var nj, nk := pre + sj + ".pdf", pre + sk + ".pdf";
    if |sj| == |sk| {
      assert nj[|pre|..|pre| + |sj|] == sj;
      assert nk[|pre|..|pre| + |sk|] == sk;
    } else {
      assert |nj| != |nk|;
    }
    NatToStringInjective(j, k);
  }

  /** One turn of the enumerate loop: a failed fetch is skipped, a successful
      one is written to its file and its name appended to downloaded_files. */
  function FetchPart(t: Tally, title: string, total: nat, counter: nat, url: string,
                     fetch: string -> ContentFetch): Tally
  {
    match fetch(url)
    case FetchFailed => t
    case Fetched(body) =>
      var name := PartFileName(title, total, counter);
      Tally(t.files[name := body], t.downloaded + [name])
  }

  /** The enumerate loop after its first |urls| turns, where `total` is the
      number of content URLs of the document; the part urls[k - 1] has
      counter k. */
  function FetchParts(files: map<string, Bytes>, title: string, total: nat, urls: seq<string>,
                      fetch: string -> ContentFetch): Tally
  {
    if urls == [] then Tally(files, [])
    else
      var n := |urls|;
      FetchPart(FetchParts(files, title, total, urls[..n - 1], fetch), title, total, n, urls[n - 1], fetch)
  }

  /** The whole loop of download_pdf over the document's content URLs. */
  function DownloadParts(files: map<string, Bytes>, title: string, urls: seq<string>,
                         fetch: string -> ContentFetch): Tally
  {
    FetchParts(files, title, |urls|, urls, fetch)
  }

  /** The 1-based positions of the URLs whose fetch succeeds, in increasing
      order. */
  function Succeeded(urls: seq<string>, fetch: string -> ContentFetch): (ks: seq<nat>)
    ensures |ks| <= |urls|
    ensures forall i :: 0 <= i < |ks| ==> 1 <= ks[i] <= |urls| && fetch(urls[ks[i] - 1]).Fetched?
    ensures forall i, j :: 0 <= i < j < |ks| ==> ks[i] < ks[j]
    ensures forall k :: 1 <= k <= |urls| && fetch(urls[k - 1]).Fetched? ==> k in ks
  {
    if urls == [] then []
    else
      var n := |urls|;
      var init := urls[..n - 1];
      var ks := Succeeded(init, fetch);
      assert forall k :: 0 <= k < n - 1 ==> init[k] == urls[k];
      if fetch(urls[n - 1]).Fetched? then ks + [n] else ks
  }

  /** The names of the parts at the given positions. */
  function PartNames(title: string, total: nat, ks: seq<nat>): seq<string>
  {
    seq(|ks|, i requires 0 <= i < |ks| => PartFileName(title, total, ks[i]))
  }

  /** Every fetch succeeds exactly when every position is among the
      successful ones. */
  lemma {:induction false} SucceededAll(urls: seq<string>, fetch: string -> ContentFetch)
    ensures |Succeeded(urls, fetch)| == |urls| <==>
            forall k :: 0 <= k < |urls| ==> fetch(urls[k]).Fetched?
  {
    if urls != [] {
      var n := |urls|;
      SucceededAll(urls[..n - 1], fetch);
      assert forall k :: 0 <= k < n - 1 ==> urls[..n - 1][k] == urls[k];
    }
  }

  /** downloaded_files holds the names of the successful parts, in input
      order. */
  lemma {:induction false} FetchPartsDownloaded(files: map<string, Bytes>, title: string, total: nat,
                                                urls: seq<string>, fetch: string -> ContentFetch)
    ensures FetchParts(files, title, total, urls, fetch).downloaded
         == PartNames(title, total, Succeeded(urls, fetch))
  {
    if urls != [] {
      var n := |urls|;
      FetchPartsDownloaded(files, title, total, urls[..n - 1], fetch);
      var ks := Succeeded(urls[..n - 1], fetch);
      if fetch(urls[n - 1]).Fetched? {
        assert PartNames(title, total, ks + [n])
            == PartNames(title, total, ks) + [PartFileName(title, total, n)];
      }
    }
  }

  /** A file whose name no part of the loop has is left as it was. */
  lemma {:induction false} FetchPartsLeavesOthers(files: map<string, Bytes>, title: string, total: nat,
                                                  urls: seq<string>, fetch: string -> ContentFetch, name: string)
    requires forall k :: 1 <= k <= |urls| ==> PartFileName(title, total, k) != name
    ensures var r := FetchParts(files, title, total, urls, fetch);
            (name in r.files <==> name in files) && (name in files ==> r.files[name] == files[name])
  {
    if urls != [] {
      var n := |urls|;
      assert PartFileName(title, total, n) != name;
      FetchPartsLeavesOthers(files, title, total, urls[..n - 1], fetch, name);
    }
  }

  /** Among several parts, the file of the part at position k ends up with
      that part's body when its fetch succeeds, and is left as it was when it
      fails. */
  lemma {:induction false} FetchPartsFileAt(files: map<string, Bytes>, title: string, total: nat,
                                            urls: seq<string>, fetch: string -> ContentFetch, k: nat)
    requires total > 1 && 1 <= k <= |urls|
    ensures var r := FetchParts(files, title, total, urls, fetch);
            var name := PartFileName(title, total, k);
            (fetch(urls[k - 1]).Fetched? ==> name in r.files && r.files[name] == fetch(urls[k - 1]).body) &&
            (fetch(urls[k - 1]).FetchFailed? ==>
               (name in r.files <==> name in files) && (name in files ==> r.files[name] == files[name]))
  {
    var n := |urls|;
    var init := urls[..n - 1];
    var name := PartFileName(title, total, k);
    if k == n {
      forall j | 1 <= j <= n - 1
        ensures PartFileName(title, total, j) != name
      {
        PartFileNamesDistinct(title, total, j, k);
      }
      FetchPartsLeavesOthers(files, title, total, init, fetch, name);
    } else {
      var p := FetchParts(files, title, total, init, fetch);
      assert FetchParts(files, title, total, urls, fetch) == FetchPart(p, title, total, n, urls[n - 1], fetch);
      PartFileNamesDistinct(title, total, k, n);
      FetchPartsFileAt(files, title, total, init, fetch, k);
      assert init[k - 1] == urls[k - 1];
    }
  }

  /** downloaded_files lists the names of exactly the successful parts, in
      input order; it is as long as the list of URLs exactly when every fetch
      succeeded, which is when download_pdf does not raise. */
  lemma DownloadPartsTally(files: map<string, Bytes>, title: string, urls: seq<string>,
                           fetch: string -> ContentFetch)
    ensures var r := DownloadParts(files, title, urls, fetch);
            r.downloaded == PartNames(title, |urls|, Succeeded(urls, fetch)) &&
            |r.downloaded| <= |urls| &&
            (|r.downloaded| == |urls| <==> forall k :: 0 <= k < |urls| ==> fetch(urls[k]).Fetched?)
  {
    FetchPartsDownloaded(files, title, |urls|, urls, fetch);
    SucceededAll(urls, fetch);
  }

  /** The part at 1-based position k: when its fetch succeeds its file holds
      the response body; when it fails nothing is written for it. */
  lemma DownloadPartsFile(files: map<string, Bytes>, title: string, urls: seq<string>,
                          fetch: string -> ContentFetch, k: nat)
    requires 1 <= k <= |urls|
    ensures var r := DownloadParts(files, title, urls, fetch);
            var name := PartFileName(title, |urls|, k);
            (fetch(urls[k - 1]).Fetched? ==> name in r.files && r.files[name] == fetch(urls[k - 1]).body) &&
            (fetch(urls[k - 1]).FetchFailed? ==>
               (name in r.files <==> name in files) && (name in files ==> r.files[name] == files[name]))
  {
    if |urls| > 1 {
      FetchPartsFileAt(files, title, |urls|, urls, fetch, k);
    } else {
      assert urls[..0] == [];
      assert FetchParts(files, title, 1, urls[..0], fetch) == Tally(files, []);
      assert DownloadParts(files, title, urls, fetch) == FetchPart(Tally(files, []), title, 1, 1, urls[0], fetch);
    }
  }

  /** No file other than the parts' own is touched. */
  lemma DownloadPartsLeavesOthers(files: map<string, Bytes>, title: string, urls: seq<string>,
                                  fetch: string -> ContentFetch, name: string)
    requires forall k :: 1 <= k <= |urls| ==> PartFileName(title, |urls|, k) != name
    ensures var r := DownloadParts(files, title, urls, fetch);
            (name in r.files <==> name in files) && (name in files ==> r.files[name] == files[name])
  {
    FetchPartsLeavesOthers(files, title, |urls|, urls, fetch, name);
  }

  /** The saved files have pairwise different names: with several parts
      the positions differ, and a single part leaves at most one name. */
  lemma DownloadedNamesDistinct(files: map<string, Bytes>, title: string, urls: seq<string>,
                                fetch: string -> ContentFetch)
    ensures var d := DownloadParts(files, title, urls, fetch).downloaded;
            forall i, j :: 0 <= i < j < |d| ==> d[i] != d[j]
  {
    DownloadPartsTally(files, title, urls, fetch);
    if |urls| > 1 {
      var ks := Succeeded(urls, fetch);
      forall i, j | 0 <= i < j < |ks|
        ensures PartFileName(title, |urls|, ks[i]) != PartFileName(title, |urls|, ks[j])
      {
        PartFileNamesDistinct(title, |urls|, ks[i], ks[j]);
      }
    }
  }

  /** Three parts whose second fetch fails: title_1.pdf and title_3.pdf are
      written, downloaded_files has two entries, so download_pdf raises. */
  lemma SecondOfThreeFails(files: map<string, Bytes>, title: string, urls: seq<string>,
                           fetch: string -> ContentFetch)
    requires |urls| == 3
    requires fetch(urls[0]).Fetched? && fetch(urls[1]).FetchFailed? && fetch(urls[2]).Fetched?
    ensures var r := DownloadParts(files, title, urls, fetch);
            r.downloaded == [title + "_1.pdf", title + "_3.pdf"] &&
            r.files == files[title + "_1.pdf" := fetch(urls[0]).body][title + "_3.pdf" := fetch(urls[2]).body]
  {
    assert NatToString(1) == "1" && NatToString(3) == "3";
    assert PartFileName(title, 3, 1) == title + "_1.pdf";
    assert PartFileName(title, 3, 3) == title + "_3.pdf";
    var t0 := Tally(files, []);
    var t1 := FetchPart(t0, title, 3, 1, urls[0], fetch);
    var t2 := FetchPart(t1, title, 3, 2, urls[1], fetch);
    var t3 := FetchPart(t2, title, 3, 3, urls[2], fetch);
    assert urls[..2][..1][..0] == [] && urls[..2][..1][0] == urls[0];
    assert urls[..2][1] == urls[1] && urls[..2][..1] == urls[..1];
    assert FetchParts(files, title, 3, urls[..1], fetch) == t1;
    assert FetchParts(files, title, 3, urls[..2], fetch) == t2;
    assert DownloadParts(files, title, urls, fetch) == t3;
  }

  /** KnowUnity.download_pdf as a function of the directory's files: the
      metadata request, then one request per content URL. */
  datatype Report = Report(outcome: Outcome, files: map<string, Bytes>, requests: seq<string>)

  function Download(files: map<string, Bytes>, uuid: string, api: string -> Option<Know>,
                    fetch: string -> ContentFetch): Report
  {
    var endpoint := API_ENDPOINT + uuid;
    match api(endpoint)
    case None => Report(Raised(METADATA_ERROR), files, [endpoint])
    case Some(know) =>
      var urls := ContentUrls(know);
      var t := DownloadParts(files, know.title, urls, fetch);
      Report(if |t.downloaded| != |urls| then Raised(INCOMPLETE_ERROR) else Completed,
             t.files, [endpoint] + urls)
  }

  /** download_pdf completes exactly when the metadata arrives and every
      part's fetch succeeds; without metadata it raises before any content
      request and writes nothing. */
  lemma DownloadCompletesIff(files: map<string, Bytes>, uuid: string, api: string -> Option<Know>,
                             fetch: string -> ContentFetch)
    ensures var r := Download(files, uuid, api, fetch);
            var data := api(API_ENDPOINT + uuid);
            (r.outcome.Completed? <==>
               data.Some? && forall k :: 0 <= k < |data.value.contents| ==>
                               fetch(data.value.contents[k].contentUrl).Fetched?) &&
            (data.None? ==> r.requests == [API_ENDPOINT + uuid] && r.files == files)
  {
    var data := api(API_ENDPOINT + uuid);
    if data.Some? {
      var urls := ContentUrls(data.value);
      DownloadPartsTally(files, data.value.title, urls, fetch);
      assert forall k :: 0 <= k < |urls| ==> urls[k] == data.value.contents[k].contentUrl;
    }
  }

  /** KnowUnity: the URL it was built from and the UUID found in it. */
  class KnowUnity {
    const url: string
    const uuid: Option<string>

    constructor (url: string)
      ensures this.url == url && uuid == ExtractUuid(url)
    {
      this.url := url;
      this.uuid := ExtractUuid(url);
    }

    /** KnowUnity.download_pdf writing into `dir`; `api` is what the metadata
        request yields for a URL (None when get_data returns None) and
        `fetch` what a content request yields. */
    method DownloadPdf(dir: Directory, api: string -> Option<Know>, fetch: string -> ContentFetch)
      returns (outcome: Outcome, requests: seq<string>)
      requires uuid.Some?
      modifies dir
      ensures Report(outcome, dir.files, requests) == Download(old(dir.files), uuid.value, api, fetch)
    {
      var endpoint := API_ENDPOINT + uuid.value;
      requests := [endpoint];
      var data := api(endpoint);
      if data.None? {
        return Raised(METADATA_ERROR), requests;
      }
      var title := data.value.title;
      var urls := ContentUrls(data.value);
      var downloaded: seq<string> := [];
      var i := 0;
      while i < |urls|
        invariant 0 <= i <= |urls|
        invariant requests == [endpoint] + urls[..i]
        invariant Tally(dir.files, downloaded) == FetchParts(old(dir.files), title, |urls|, urls[..i], fetch)
      {
        var contentUrl := urls[i];
        requests := requests + [contentUrl];
        var content := fetch(contentUrl);
        if content.Fetched? {
          var filename := PartFileName(title, |urls|, i + 1);
          dir.Write(filename, content.body);
          downloaded := downloaded + [filename];
        }
        assert urls[..i + 1][..i] == urls[..i];
        assert urls[..i + 1] == urls[..i] + [contentUrl];
        i := i + 1;
      }
      assert urls[..i] == urls;
      outcome := if |downloaded| != |urls| then Raised(INCOMPLETE_ERROR) else Completed;
    }
  }

  /** The checks of KnowUnityGui.download_pdf that run before anything is
      requested, in source order; None when all pass. */
  function GuiPrecheck(url: string, outputDir: string, kind: PathKind): (message: Option<string>)
    ensures message.None? <==> url != "" && outputDir != "" && kind == Dir && ExtractUuid(url).Some?
    ensures message.None? ==> exists j: nat :: MatchesAt(url, j)
    ensures message == Some(ENTER_URL) <==> url == ""
    ensures message == Some(CHOOSE_DIR) <==> url != "" && (outputDir == "" || kind != Dir)
    ensures message == Some(INVALID_URL) <==> url != "" && outputDir != "" && kind == Dir && ExtractUuid(url).None?
  {
    if url == "" then Some(ENTER_URL)
    else if outputDir == "" || kind != Dir then Some(CHOOSE_DIR)
    else if ExtractUuid(url).None? then Some(INVALID_URL)
    else None
  }

  /** KnowUnityGui.download_pdf: `status` is the status-bar message and
      `requests` every URL requested, in order. */
  method GuiDownloadPdf(url: string, outputDir: string, kind: PathKind,
                        api: string -> Option<Know>, fetch: string -> ContentFetch, dir: Directory)
    returns (status: string, requests: seq<string>)
    modifies dir
    ensures GuiPrecheck(url, outputDir, kind).Some? ==>
              status == GuiPrecheck(url, outputDir, kind).value &&
              requests == [] && dir.files == old(dir.files)
    ensures GuiPrecheck(url, outputDir, kind).None? ==>
              var r := Download(old(dir.files), ExtractUuid(url).value, api, fetch);
              dir.files == r.files && requests == r.requests &&
              status == (if r.outcome.Completed? then COMPLETE else r.outcome.message)
  {
    if url == "" {
      return ENTER_URL, [];
    }
    if outputDir == "" || kind != Dir {
      return CHOOSE_DIR, [];
    }
    var knowunity := new KnowUnity(url);
    if knowunity.uuid.None? {
      return INVALID_URL, [];
    }
    var outcome;
    outcome, requests := knowunity.DownloadPdf(dir, api, fetch);
    status := if outcome.Completed? then COMPLETE else outcome.message;
  }
}
