/** MainWindow.download_pdfs of main.py: the page-scraping strategy. The URL
    must start with the page prefix, the output path must exist, the page's
    content links are derived and de-duplicated, and each link is downloaded
    into the output directory unless a file of its derived name is already
    there. An exception anywhere in the batch ends the whole batch. */
module ScrapeDownload {
  import opened Common
  import opened LinkHandler

  /** The prefix that re.match(r"https://knowunity\.de/knows/.*", url) demands. */
  const KNOW_PAGE_PREFIX: string := "https://knowunity.de/knows/"

  /** re.match anchors at the start and `.*` accepts any rest, including an
      empty one, so the pattern is a prefix test. */
  predicate IsKnowPageUrl(url: string)
  {
    KNOW_PAGE_PREFIX <= url
  }

  /** The message box the window shows at the end of download_pdfs. */
  datatype Notice =
    | EnterUrl          // "Please enter a URL."
    | InvalidUrl        // "Invalid URL."
    | SelectOutputDir   // "Please select an output directory."
    | OutputDirMissing  // "Output directory does not exist."
    | DownloadFailed    // "An error occurred while downloading the PDFs."
    | Downloaded        // "PDFs downloaded successfully."

  /** The four checks that run before anything is fetched, in source order;
      None when all of them pass. */
  function Precheck(url: string, outputDir: string, kind: PathKind): (n: Option<Notice>)
    ensures n.None? <==> IsKnowPageUrl(url) && outputDir != "" && kind != Missing
    ensures n == Some(EnterUrl) <==> url == ""
    ensures n == Some(InvalidUrl) <==> url != "" && !IsKnowPageUrl(url)
    ensures n == Some(SelectOutputDir) <==> IsKnowPageUrl(url) && outputDir == ""
    ensures n == Some(OutputDirMissing) <==> IsKnowPageUrl(url) && outputDir != "" && kind == Missing
  {
    if url == "" then Some(EnterUrl)
    else if !IsKnowPageUrl(url) then Some(InvalidUrl)
    else if outputDir == "" then Some(SelectOutputDir)
    else if kind == Missing then Some(OutputDirMissing)
    else None
  }

  /** s.split("/")[-1]: the longest suffix of s without a '/'. */
  function LastSegment(s: string): (seg: string)
    ensures '/' !in seg
    ensures |seg| <= |s| && s[|s| - |seg|..] == seg
    ensures |seg| < |s| ==> s[|s| - |seg| - 1] == '/'
  {
    if s == [] || s[|s| - 1] == '/' then []
    else
      var init := s[..|s| - 1];
      var seg := LastSegment(init) + [s[|s| - 1]];
      assert s == init + [s[|s| - 1]];
      seg
  }

  /** s.split(sep)[0]: the longest prefix of s without `sep`. */
  function BeforeFirst(s: string, sep: char): (head: string)
    ensures sep !in head
    ensures head <= s
    ensures |head| < |s| ==> s[|head|] == sep
  {
    if s == [] || s[0] == sep then [] else [s[0]] + BeforeFirst(s[1..], sep)
  }

  /** The file name download_pdfs saves a link under: the last path segment
      cut at its first '_', with ".pdf" appended. */
  function PdfFileName(link: string): string
  {
    BeforeFirst(LastSegment(link), '_') + ".pdf"
  }

  /** A derived file name is a stem followed by ".pdf", where the stem starts
      the link's last segment and holds neither '/' nor '_'. */
  lemma PdfFileNameShape(link: string)
    ensures var name := PdfFileName(link);
            |name| >= 4 && name[|name| - 4..] == ".pdf" &&
            '/' !in name[..|name| - 4] && '_' !in name[..|name| - 4] &&
            name[..|name| - 4] <= LastSegment(link)
  {
    var stem := BeforeFirst(LastSegment(link), '_');
    assert (stem + ".pdf")[..|stem|] == stem;
  }

  lemma {:induction false} LastSegmentAfterSlash(p: string, seg: string)
    requires '/' !in seg
    ensures LastSegment(p + "/" + seg) == seg
  {
    var t := p + "/" + seg;
    if seg != [] {
      var init := seg[..|seg| - 1];
      assert t[..|t| - 1] == p + "/" + init;
      LastSegmentAfterSlash(p, init);
      assert seg == init + [seg[|seg| - 1]];
    }
  }

  lemma {:induction false} BeforeFirstAppend(a: string, b: string, sep: char)
    ensures sep !in a ==> BeforeFirst(a + b, sep) == a + BeforeFirst(b, sep)
    ensures sep in a ==> BeforeFirst(a + b, sep) == BeforeFirst(a, sep)
  {
    if a == [] {
      assert a + b == b;
    } else if a[0] == sep {
      assert (a + b)[0] == sep;
    } else {
      var t := a[1..];
      assert a == [a[0]] + t;
      assert (a + b)[0] == a[0] && (a + b)[1..] == t + b;
      assert BeforeFirst(a + b, sep) == [a[0]] + BeforeFirst(t + b, sep);
      assert BeforeFirst(a, sep) == [a[0]] + BeforeFirst(t, sep);
      BeforeFirstAppend(t, b, sep);
      assert sep in a <==> sep in t;
      if sep !in t {
        assert [a[0]] + (t + BeforeFirst(b, sep)) == a + BeforeFirst(b, sep);
      }
    }
  }

  /** The name of a link p/c.pdf whose last segment c.pdf is free of '/'. */
  lemma FileNameAfterSlash(p: string, capture: string)
    requires '/' !in capture
    ensures '_' in capture ==> PdfFileName(p + "/" + capture + ".pdf") == BeforeFirst(capture, '_') + ".pdf"
    ensures '_' !in capture ==> PdfFileName(p + "/" + capture + ".pdf") == capture + ".pdf" + ".pdf"
  {
    var seg := capture + ".pdf";
    var link := p + "/" + capture + ".pdf";
    assert link == p + "/" + seg;
    LastSegmentAfterSlash(p, seg);
    var stem := BeforeFirst(seg, '_');
    assert PdfFileName(link) == stem + ".pdf";
    BeforeFirstAppend(capture, ".pdf", '_');
    BeforeFirstOfPdf();
    assert '_' !in capture ==> stem == capture + ".pdf";
  }

  /** The name a scraped link is saved under, in terms of its capture: the
      capture cut at its first '_' plus ".pdf"; a capture without '_' keeps the
      link's own ".pdf", so its file is called capture + ".pdf.pdf". */
  lemma ContentLinkFileName(capture: string)
    requires '/' !in capture
    ensures '_' in capture ==> PdfFileName(ContentLink(capture)) == BeforeFirst(capture, '_') + ".pdf"
    ensures '_' !in capture ==> PdfFileName(ContentLink(capture)) == capture + ".pdf" + ".pdf"
  {
    FileNameAfterSlash(CONTENT_DIR, capture);
  }

  lemma BeforeFirstOfPdf()
    ensures BeforeFirst(".pdf", '_') == ".pdf"
  {
  }

  /** What requests.get(link, stream=True) and reading its body give:
      Raised when the request itself raises; otherwise the status, which
      download_pdfs never looks at, the bytes streamed into the file, and
      whether the stream raised part-way. */
  datatype Fetch = Raised | Streamed(status: int, body: Bytes, broken: bool)

  /** The output directory's files, the links requested so far, and whether
      an exception has ended the batch. */
  datatype Batch = Batch(files: map<string, Bytes>, requests: seq<string>, aborted: bool)

  function Start(files: map<string, Bytes>): Batch
  {
    Batch(files, [], false)
  }

  /** One turn of the download loop for `link`, where nameOf(link) is the
      file the link is saved under (PdfFileName in download_pdfs). The loop's
      properties below hold for any naming, so they are stated for nameOf. */
  function Step(b: Batch, link: string, nameOf: string -> string, fetch: string -> Fetch): Batch
  {
    var name := nameOf(link);
    if b.aborted || name in b.files then b
    else
      match fetch(link)
      case Raised => b.(requests := b.requests + [link], aborted := true)
      case Streamed(_, body, broken) => Batch(b.files[name := body], b.requests + [link], broken)
  }

  /** The download loop over `links`, starting from `b`. */
  function Run(b: Batch, links: seq<string>, nameOf: string -> string, fetch: string -> Fetch): Batch
    decreases |links|
  {
    if links == [] then b else Run(Step(b, links[0], nameOf, fetch), links[1..], nameOf, fetch)
  }

  /** Once an exception has ended the batch nothing further happens. */
  lemma {:induction false} RunAbortedIsFinal(b: Batch, links: seq<string>,
      nameOf: string -> string, fetch: string -> Fetch)
    requires b.aborted
    ensures Run(b, links, nameOf, fetch) == b
    decreases |links|
  {
    if links != [] {
      RunAbortedIsFinal(b, links[1..], nameOf, fetch);
    }
  }

  /** A file that exists before the loop is never fetched over or rewritten;
      the requests made so far stay a prefix of the requests. */
  lemma {:induction false} RunKeepsExisting(b: Batch, links: seq<string>,
      nameOf: string -> string, fetch: string -> Fetch)
    ensures b.requests <= Run(b, links, nameOf, fetch).requests
    ensures b.aborted ==> Run(b, links, nameOf, fetch).aborted
    ensures forall n :: n in b.files ==>
              n in Run(b, links, nameOf, fetch).files && Run(b, links, nameOf, fetch).files[n] == b.files[n]
    decreases |links|
  {
    if links != [] {
      RunKeepsExisting(Step(b, links[0], nameOf, fetch), links[1..], nameOf, fetch);
    }
  }

  /** Every request the loop makes is for one of the links, and only for a
      link whose file did not exist when the loop started. */
  lemma {:induction false} RunRequestsOnlyMissing(b: Batch, links: seq<string>,
      nameOf: string -> string, fetch: string -> Fetch)
    ensures forall k :: |b.requests| <= k < |Run(b, links, nameOf, fetch).requests| ==>
              Run(b, links, nameOf, fetch).requests[k] in links &&
              nameOf(Run(b, links, nameOf, fetch).requests[k]) !in b.files
    decreases |links|
  {
    if links != [] {
      var b' := Step(b, links[0], nameOf, fetch);
      RunRequestsOnlyMissing(b', links[1..], nameOf, fetch);
      RunKeepsExisting(b', links[1..], nameOf, fetch);
      var r := Run(b, links, nameOf, fetch);
      forall k | |b.requests| <= k < |r.requests|
        ensures r.requests[k] in links && nameOf(r.requests[k]) !in b.files
      {
        if k < |b'.requests| {
          assert k == |b.requests| && r.requests[k] == b'.requests[k] == links[0];
        } else {
          assert r.requests[k] in links[1..];
        }
      }
    }
  }

  /** No two of the requested links share a file name. */
  predicate NamesDistinct(requests: seq<string>, nameOf: string -> string)
  {
    forall i, j :: 0 <= i < j < |requests| ==> nameOf(requests[i]) != nameOf(requests[j])
  }

  /** Within one run no destination file is fetched twice: the requested
      links have pairwise different file names. */
  lemma {:induction false} RunFetchesEachNameOnce(b: Batch, links: seq<string>,
      nameOf: string -> string, fetch: string -> Fetch)
    requires NamesDistinct(b.requests, nameOf)
    requires !b.aborted ==> forall l :: l in b.requests ==> nameOf(l) in b.files
    ensures NamesDistinct(Run(b, links, nameOf, fetch).requests, nameOf)
    decreases |links|
  {
    if links != [] {
      var b' := Step(b, links[0], nameOf, fetch);
      var name := nameOf(links[0]);
      if !b.aborted && name !in b.files {
        assert b'.requests == b.requests + [links[0]];
        forall i, j | 0 <= i < j < |b'.requests|
          ensures nameOf(b'.requests[i]) != nameOf(b'.requests[j])
        {
          if j == |b.requests| {
            assert b.requests[i] in b.requests;
          }
        }
      }
      RunFetchesEachNameOnce(b', links[1..], nameOf, fetch);
    }
  }

  /** Whatever the status, a requested link whose response streamed leaves
      its file holding the streamed body at the end of the run: no later link
      of the run writes that file again. */
  lemma {:induction false} RunSavesBodies(b: Batch, links: seq<string>,
      nameOf: string -> string, fetch: string -> Fetch)
    requires NamesDistinct(b.requests, nameOf)
    requires !b.aborted ==> forall l :: l in b.requests ==> nameOf(l) in b.files
    ensures var r := Run(b, links, nameOf, fetch);
            forall k :: |b.requests| <= k < |r.requests| && fetch(r.requests[k]).Streamed? ==>
              nameOf(r.requests[k]) in r.files && r.files[nameOf(r.requests[k])] == fetch(r.requests[k]).body
    decreases |links|
  {
    if links != [] {
      var b' := Step(b, links[0], nameOf, fetch);
      assert Run(b, [links[0]], nameOf, fetch) == Run(b', [], nameOf, fetch) == b';
      RunFetchesEachNameOnce(b, [links[0]], nameOf, fetch);
      assert !b'.aborted ==> forall l :: l in b'.requests ==> nameOf(l) in b'.files;
      RunSavesBodies(b', links[1..], nameOf, fetch);
      RunKeepsExisting(b', links[1..], nameOf, fetch);
      var r := Run(b, links, nameOf, fetch);
      assert r == Run(b', links[1..], nameOf, fetch);
      forall k | |b.requests| <= k < |b'.requests| && fetch(r.requests[k]).Streamed?
        ensures nameOf(r.requests[k]) in r.files && r.files[nameOf(r.requests[k])] == fetch(r.requests[k]).body
      {
        assert b'.requests == b.requests + [links[0]] && r.requests[k] == b'.requests[k] == links[0];
      }
    }
  }

  /** For a whole run of download_pdfs: every link whose response streamed
      has its file holding exactly that body when the run ends, whether or
      not the status was an error. */
  lemma RunFromStartSavesBodies(files: map<string, Bytes>, links: seq<string>,
      nameOf: string -> string, fetch: string -> Fetch)
    ensures var r := Run(Start(files), links, nameOf, fetch);
            forall l :: l in r.requests && fetch(l).Streamed? ==>
              nameOf(l) in r.files && r.files[nameOf(l)] == fetch(l).body
  {
    RunSavesBodies(Start(files), links, nameOf, fetch);
  }

  /** A file that appears during the loop is the derived file of a link the
      loop requested. */
  lemma {:induction false} RunNewFilesWereRequested(b: Batch, links: seq<string>,
      nameOf: string -> string, fetch: string -> Fetch)
    ensures var r := Run(b, links, nameOf, fetch);
            forall n :: n in r.files && n !in b.files ==>
              exists k :: |b.requests| <= k < |r.requests| && nameOf(r.requests[k]) == n
    decreases |links|
  {
    if links != [] {
      var b' := Step(b, links[0], nameOf, fetch);
      RunNewFilesWereRequested(b', links[1..], nameOf, fetch);
      RunKeepsExisting(b', links[1..], nameOf, fetch);
      var r := Run(b, links, nameOf, fetch);
      assert r == Run(b', links[1..], nameOf, fetch);
      forall n | n in r.files && n !in b.files
        ensures exists k :: |b.requests| <= k < |r.requests| && nameOf(r.requests[k]) == n
      {
        if n in b'.files {
          assert b'.requests == b.requests + [links[0]] && n == nameOf(links[0]);
          var k := |b.requests|;
          assert r.requests[k] == b'.requests[k];
        } else {
          var k :| |b'.requests| <= k < |r.requests| && nameOf(r.requests[k]) == n;
          assert |b.requests| <= |b'.requests|;
        }
      }
    }
  }

  /** When the loop finishes without an exception, every link's derived
      file exists in the directory. */
  lemma {:induction false} RunCompleteHasAll(b: Batch, links: seq<string>,
      nameOf: string -> string, fetch: string -> Fetch)
    ensures !Run(b, links, nameOf, fetch).aborted ==>
              forall l :: l in links ==> nameOf(l) in Run(b, links, nameOf, fetch).files
    decreases |links|
  {
    if links != [] {
      var b' := Step(b, links[0], nameOf, fetch);
      RunCompleteHasAll(b', links[1..], nameOf, fetch);
      RunKeepsExisting(b', links[1..], nameOf, fetch);
    }
  }

  /** With every derived file already present the loop requests nothing and
      changes nothing. */
  lemma {:induction false} RunAllPresentIsNoop(b: Batch, links: seq<string>,
      nameOf: string -> string, fetch: string -> Fetch)
    requires forall l :: l in links ==> nameOf(l) in b.files
    ensures Run(b, links, nameOf, fetch) == b
    decreases |links|
  {
    if links != [] {
      RunAllPresentIsNoop(b, links[1..], nameOf, fetch);
    }
  }

  /** Re-running after a run that completed makes no request and leaves the
      directory as the first run left it. */
  lemma RerunIsIdempotent(files: map<string, Bytes>, links: seq<string>,
      nameOf: string -> string, fetch: string -> Fetch)
    requires !Run(Start(files), links, nameOf, fetch).aborted
    ensures var after := Run(Start(files), links, nameOf, fetch).files;
            Run(Start(after), links, nameOf, fetch) == Start(after)
  {
    RunCompleteHasAll(Start(files), links, nameOf, fetch);
    RunAllPresentIsNoop(Start(Run(Start(files), links, nameOf, fetch).files), links, nameOf, fetch);
  }

  /** The status is never checked: an error response's body is saved like a
      PDF. A stream that breaks part-way leaves a truncated file and ends the
      batch, and a later run skips that file, so it is never repaired. */
  lemma ResponseBodyIsSavedWhatever(files: map<string, Bytes>, link: string,
      nameOf: string -> string, fetch: string -> Fetch)
    requires nameOf(link) !in files && fetch(link).Streamed?
    ensures var r := Run(Start(files), [link], nameOf, fetch);
            r.requests == [link] &&
            r.files == files[nameOf(link) := fetch(link).body] &&
            r.aborted == fetch(link).broken &&
            Run(Start(r.files), [link], nameOf, fetch) == Start(r.files)
  {
    var r := Run(Start(files), [link], nameOf, fetch);
    assert r == Step(Start(files), link, nameOf, fetch);
    RunAllPresentIsNoop(Start(r.files), [link], nameOf, fetch);
  }

  /** The download loop of download_pdfs over the de-duplicated links. */
  method DownloadLinks(dir: Directory, links: seq<string>,
                       nameOf: string -> string, fetch: string -> Fetch)
    returns (requests: seq<string>, aborted: bool)
    modifies dir
    ensures Batch(dir.files, requests, aborted) == Run(Start(old(dir.files)), links, nameOf, fetch)
  {
    requests, aborted := [], false;
    var i := 0;
    assert links[i..] == links;
    while i < |links| && !aborted
      invariant 0 <= i <= |links|
      invariant Run(Batch(dir.files, requests, aborted), links[i..], nameOf, fetch)
             == Run(Start(old(dir.files)), links, nameOf, fetch)
    {
      var link := links[i];
      var name := nameOf(link);
      var present := dir.Exists(name);
      if !present {
        requests := requests + [link];
        match fetch(link)
        case Raised =>
          aborted := true;
        case Streamed(_, body, broken) =>
          dir.Write(name, body);
          aborted := broken;
      }
      assert links[i..][1..] == links[i + 1..];
      i := i + 1;
    }
    if aborted {
      RunAbortedIsFinal(Batch(dir.files, requests, aborted), links[i..], nameOf, fetch);
    } else {
      assert links[i..] == [];
    }
  }

  /** MainWindow.download_pdfs from reading the two input fields to the
      final message box. `kind` is what the file system says about the output
      path, `page` what fetching the page and scanning its markup yields
      (None when the request raises), `fetch` what requesting a content link
      yields. `requests` lists every URL requested, in order. */
  method DownloadPdfs(url: string, outputDir: string, kind: PathKind,
                      page: string -> Option<seq<string>>, fetch: string -> Fetch,
                      dir: Directory)
    returns (notice: Notice, requests: seq<string>)
    modifies dir
    ensures Precheck(url, outputDir, kind).Some? ==>
              notice == Precheck(url, outputDir, kind).value &&
              requests == [] && dir.files == old(dir.files)
    ensures Precheck(url, outputDir, kind).None? && page(url).None? ==>
              notice == DownloadFailed && requests == [url] && dir.files == old(dir.files)
    ensures Precheck(url, outputDir, kind).None? && page(url).Some? && kind == Dir ==>
              var r := Run(Start(old(dir.files)), RemoveDuplicates(page(url).value), PdfFileName, fetch);
              dir.files == r.files && requests == [url] + r.requests &&
              notice == (if r.aborted then DownloadFailed else Downloaded)
    ensures Precheck(url, outputDir, kind).None? && page(url).Some? && kind == RegularFile ==>
              var links := RemoveDuplicates(page(url).value);
              dir.files == old(dir.files) &&
              requests == [url] + links[..if links == [] then 0 else 1] &&
              notice == (if links == [] then Downloaded else DownloadFailed)
  {
    var check := Precheck(url, outputDir, kind);
    if check.Some? {
      return check.value, [];
    }
    requests := [url];
    var captures := page(url);
    if captures.None? {
      return DownloadFailed, requests;
    }
    var links := RemoveDuplicates(captures.value);
    if kind == RegularFile {
      // Inside a regular file no name exists, and open() of a path beneath
      // it raises, so the first link is requested and the batch ends.
      if links == [] {
        notice := Downloaded;
      } else {
        requests := requests + [links[0]];
        notice := DownloadFailed;
      }
      return;
    }
    var fetched, aborted := DownloadLinks(dir, links, PdfFileName, fetch);
    requests := requests + fetched;
    notice := if aborted then DownloadFailed else Downloaded;
  }
}
