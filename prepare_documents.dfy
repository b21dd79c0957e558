/**
 * The document-preparation script: annual reports are downloaded once
 * per company and year, cut down to their relevant pages, described by a
 * metadata list, turned into Markdown page by page and labelled with the
 * name taken from their URL.
 *
 * The network, the PDF library, the text-extraction service and the LLM
 * are parameters: `fetch` answers a URL, `analyse` gives the Markdown of
 * each page of a local PDF and `llm` answers a prompt with its reply text.
 * The file system is a map from paths to file contents.
 */
module PrepareDocuments {
  import opened Wrappers
  import opened Text

  // ---------------------------------------------------------------------
  // Paths

  /**
   * `os.path.join(a, b)` on POSIX: an absolute `b` replaces `a`; otherwise
   * `b` is appended, with a "/" between unless `a` is empty or already
   * ends with one.
   */
  function PathJoin(a: string, b: string): string {
    if b != [] && b[0] == '/' then b
    else if a == [] || a[|a| - 1] == '/' then a + b
    else a + "/" + b
  }

  function ReportFileName(year: string): string {
    "annual_report_" + year + ".pdf"
  }

  /** Where a company's report for a year lives under a base directory. */
  function ReportPath(base: string, company: string, year: string): string {
    PathJoin(PathJoin(base, company), ReportFileName(year))
  }

  /**
   * A company's reports for two years share a path exactly when the years
   * are equal, so no download or prepared file of one year stands in for
   * another's.
   */
  lemma ReportPathsDistinct(base: string, company: string, y1: string, y2: string)
    ensures ReportPath(base, company, y1) == ReportPath(base, company, y2) <==> y1 == y2
  {
    var d := PathJoin(base, company);
    var q := if d == [] || d[|d| - 1] == '/' then d else d + "/";
    var f1 := ReportFileName(y1);
    var f2 := ReportFileName(y2);
    assert f1[0] == 'a' && f2[0] == 'a';
    assert ReportPath(base, company, y1) == q + f1;
    assert ReportPath(base, company, y2) == q + f2;
    if q + f1 == q + f2 {
      assert f1 == (q + f1)[|q|..] == (q + f2)[|q|..] == f2;
      var n := |"annual_report_"|;
      assert y1 == f1[n..n + |y1|];
      assert y2 == f2[n..n + |y2|];
    }
  }

  /**
   * The prepared directory the script uses is "raw_documents/prepared/",
   * and the prepared 2022 Amazon report lands exactly where the
   * text-extraction entry point expects it.
   */
  lemma PreparedReportPath()
    ensures PathJoin("raw_documents", "prepared/") == "raw_documents/prepared/"
    ensures ReportPath(PathJoin("raw_documents", "prepared/"), "Amazon", "2022") ==
            "raw_documents/prepared/Amazon/annual_report_2022.pdf"
  {
    var raw := "raw_documents";
    assert raw[|raw| - 1] == 's';
    assert "raw_documents" + "/" + "prepared/" == "raw_documents/prepared/";
    var prepared := "raw_documents/prepared/";
    assert prepared[|prepared| - 1] == '/';
    assert prepared + "Amazon" == "raw_documents/prepared/Amazon";
    var company := "raw_documents/prepared/Amazon";
    assert company[|company| - 1] == 'n';
    assert ReportFileName("2022") == "annual_report_2022.pdf";
    assert company + "/" + "annual_report_2022.pdf" == "raw_documents/prepared/Amazon/annual_report_2022.pdf";
  }

  // ---------------------------------------------------------------------
  // The document mapping

  /** One document entry; `pages` is `None` when the key is missing. */
  datatype DocInfo = DocInfo(docUrl: string, year: string, pages: Option<seq<int>>)

  /** One item of the mapping from company name to its documents. */
  datatype Company = Company(name: string, docs: seq<DocInfo>)

  /** A document together with the company it is listed under. */
  datatype Entry = Entry(company: string, doc: DocInfo)

  function CompanyEntries(c: Company): (es: seq<Entry>)
    ensures |es| == |c.docs|
    ensures forall k :: 0 <= k < |es| ==> es[k] == Entry(c.name, c.docs[k])
  {
    seq(|c.docs|, k requires 0 <= k < |c.docs| => Entry(c.name, c.docs[k]))
  }

  /** The documents in the order the nested loops visit them. */
  function Entries(mapping: seq<Company>): seq<Entry> {
    if mapping == [] then []
    else Entries(mapping[..|mapping| - 1]) + CompanyEntries(mapping[|mapping| - 1])
  }

  lemma ExtendedPrefix<T>(done: seq<T>, xs: seq<T>, j: nat)
    requires j < |xs|
    ensures done + xs[..j + 1] == (done + xs[..j]) + [xs[j]]
  {
    assert xs[..j + 1] == xs[..j] + [xs[j]];
  }

  lemma EntriesStep(mapping: seq<Company>, i: nat)
    requires i < |mapping|
    ensures Entries(mapping[..i + 1]) == Entries(mapping[..i]) + CompanyEntries(mapping[i])
  {
    assert mapping[..i + 1][..i] == mapping[..i];
  }

  // ---------------------------------------------------------------------
  // Downloads

  datatype HttpResponse = HttpResponse(statusCode: int, content: seq<bv8>)

  type Files = map<string, seq<bv8>>

  /**
   * One document of `download_pdf_files`: an empty URL is skipped, an
   * existing file is left alone, and otherwise the file is written only
   * when the server answers 200.
   */
  function DownloadStep(files: Files, base: string, e: Entry, fetch: string -> HttpResponse): Files {
    if e.doc.docUrl == "" then files
    else
      var path := ReportPath(base, e.company, e.doc.year);
      if path in files then files
      else if fetch(e.doc.docUrl).statusCode == 200 then files[path := fetch(e.doc.docUrl).content]
      else files
  }

  /** The files after downloading the documents `es` in order. */
  function Downloaded(files: Files, base: string, es: seq<Entry>, fetch: string -> HttpResponse): Files
    decreases |es|
  {
    if es == [] then files
    else DownloadStep(Downloaded(files, base, es[..|es| - 1], fetch), base, es[|es| - 1], fetch)
  }

  lemma DownloadedStep(files: Files, base: string, es: seq<Entry>, e: Entry, fetch: string -> HttpResponse)
    ensures Downloaded(files, base, es + [e], fetch) ==
            DownloadStep(Downloaded(files, base, es, fetch), base, e, fetch)
  {
    assert (es + [e])[..|es|] == es;
  }

  /** A file that exists before the downloads keeps its contents. */
  lemma {:induction false} DownloadsNeverOverwrite(files: Files, base: string, es: seq<Entry>,
                                                   fetch: string -> HttpResponse)
    ensures forall p :: p in files ==>
      p in Downloaded(files, base, es, fetch) && Downloaded(files, base, es, fetch)[p] == files[p]
    decreases |es|
  {
    if es != [] {
      DownloadsNeverOverwrite(files, base, es[..|es| - 1], fetch);
    }
  }

  /**
   * Every new file is the report path of a document with a non-empty URL
   * whose server answered 200 with exactly the file's contents.
   */
  lemma {:induction false} DownloadsOnlyOn200(files: Files, base: string, es: seq<Entry>,
                                              fetch: string -> HttpResponse)
    ensures forall p :: p in Downloaded(files, base, es, fetch) && p !in files ==>
      exists e :: (e in es && e.doc.docUrl != "" && ReportPath(base, e.company, e.doc.year) == p &&
        fetch(e.doc.docUrl) == HttpResponse(200, Downloaded(files, base, es, fetch)[p]))
    decreases |es|
  {
    if es != [] {
      var init := es[..|es| - 1];
      var last := es[|es| - 1];
      var before := Downloaded(files, base, init, fetch);
      var after := Downloaded(files, base, es, fetch);
      DownloadsOnlyOn200(files, base, init, fetch);
      DownloadsNeverOverwrite(before, base, [last], fetch);
      assert Downloaded(before, base, [last], fetch) == after by {
        assert [last][..0] == [];
        assert es == init + [last];
        DownloadedStep(files, base, init, last, fetch);
      }
      forall p | p in after && p !in files
        ensures exists e :: (e in es && e.doc.docUrl != "" && ReportPath(base, e.company, e.doc.year) == p &&
          fetch(e.doc.docUrl) == HttpResponse(200, after[p]))
      {
        if p in before {
          var e :| e in init && e.doc.docUrl != "" && ReportPath(base, e.company, e.doc.year) == p &&
            fetch(e.doc.docUrl) == HttpResponse(200, before[p]);
          assert e in es;
        } else {
          assert last in es;
        }
      }
    }
  }

  /** Every document with a non-empty URL that the server serves with 200 ends up on disk. */
  lemma {:induction false} DownloadsComplete(files: Files, base: string, es: seq<Entry>,
                                             fetch: string -> HttpResponse)
    ensures forall e :: e in es && e.doc.docUrl != "" && fetch(e.doc.docUrl).statusCode == 200 ==>
      ReportPath(base, e.company, e.doc.year) in Downloaded(files, base, es, fetch)
    decreases |es|
  {
    if es != [] {
      var init := es[..|es| - 1];
      var last := es[|es| - 1];
      var before := Downloaded(files, base, init, fetch);
      DownloadsComplete(files, base, init, fetch);
      DownloadsNeverOverwrite(before, base, [last], fetch);
      assert Downloaded(before, base, [last], fetch) == Downloaded(files, base, es, fetch) by {
        assert [last][..0] == [];
        assert es == init + [last];
        DownloadedStep(files, base, init, last, fetch);
      }
      forall e | e in es && e.doc.docUrl != "" && fetch(e.doc.docUrl).statusCode == 200
        ensures ReportPath(base, e.company, e.doc.year) in Downloaded(files, base, es, fetch)
      {
        if e != last {
          assert e in init by {
            var k :| 0 <= k < |es| && es[k] == e;
            assert k < |es| - 1;
            assert init[k] == e;
          }
        }
      }
    }
  }

  /** The local file system: paths and their contents (directories are not modelled). */
  class FileSystem {
    var files: Files

    constructor (initial: Files)
      ensures files == initial
    {
      files := initial;
    }

    function Exists(path: string): (b: bool)
      reads this
      ensures b <==> path in files
    {
      path in files
    }

    method WriteFile(path: string, content: seq<bv8>)
      modifies this
      ensures files == old(files)[path := content]
    {
      files := files[path := content];
    }
  }

  /** The body of `download_pdf_files`'s inner loop, for one document. */
  method DownloadDocument(fs: FileSystem, base: string, company: string, companyDirectory: string,
                          doc: DocInfo, fetch: string -> HttpResponse)
    requires companyDirectory == PathJoin(base, company)
    modifies fs
    ensures fs.files == DownloadStep(old(fs.files), base, Entry(company, doc), fetch)
  {
    if doc.docUrl == "" {
      return;
    }
    var filePath := PathJoin(companyDirectory, ReportFileName(doc.year));
    if !fs.Exists(filePath) {
      var response := fetch(doc.docUrl);
      if response.statusCode == 200 {
        fs.WriteFile(filePath, response.content);
      }
    }
  }

  /** `download_pdf_files`: every document in mapping order, as `DownloadStep` says. */
  method DownloadPdfFiles(fs: FileSystem, base: string, mapping: seq<Company>, fetch: string -> HttpResponse)
    modifies fs
    ensures fs.files == Downloaded(old(fs.files), base, Entries(mapping), fetch)
  {
    var i := 0;
    while i < |mapping|
      invariant 0 <= i <= |mapping|
      invariant fs.files == Downloaded(old(fs.files), base, Entries(mapping[..i]), fetch)
    {
      var company := mapping[i];
      var companyDirectory := PathJoin(base, company.name);
      ghost var done := Entries(mapping[..i]);
      var j := 0;
      assert done + CompanyEntries(company)[..j] == done;
      while j < |company.docs|
        invariant 0 <= j <= |company.docs|
        invariant fs.files == Downloaded(old(fs.files), base, done + CompanyEntries(company)[..j], fetch)
      {
        var doc := company.docs[j];
        DownloadDocument(fs, base, company.name, companyDirectory, doc, fetch);
        ExtendedPrefix(done, CompanyEntries(company), j);
        DownloadedStep(old(fs.files), base, done + CompanyEntries(company)[..j], Entry(company.name, doc), fetch);
        j := j + 1;
      }
      assert CompanyEntries(company)[..j] == CompanyEntries(company);
      EntriesStep(mapping, i);
      i := i + 1;
    }
    assert mapping[..i] == mapping;
  }

  // ---------------------------------------------------------------------
  // Page selection

  datatype IndexError = IndexError(index: int)

  /** Python sequence indexing, as the PDF reader's page list does it: negative indexes count from the end. */
  function PyIndex<T>(xs: seq<T>, i: int): (r: Result<T, IndexError>)
    ensures r.Success? <==> -|xs| <= i < |xs|
    ensures r.Success? && 0 <= i ==> r.value == xs[i]
    ensures r.Success? && i < 0 ==> r.value == xs[|xs| + i]
  {
    if 0 <= i < |xs| then Success(xs[i])
    else if -|xs| <= i < 0 then Success(xs[|xs| + i])
    else Failure(IndexError(i))
  }

  /**
   * The pages `keep_relevant_pages_in_pdf` writes, as written: page number
   * `p` is read at index `p - 1`, so it succeeds for every `p` from
   * `1 - n` to `n`, numbers below 1 counting back from the last page.
   */
  function SelectPages<P>(doc: seq<P>, pages: seq<int>): (r: Result<seq<P>, IndexError>)
    ensures r.Success? <==> forall k :: 0 <= k < |pages| ==> 1 - |doc| <= pages[k] <= |doc|
    ensures r.Success? ==> |r.value| == |pages| && forall k :: 0 <= k < |pages| ==>
      r.value[k] == if 1 <= pages[k] then doc[pages[k] - 1] else doc[|doc| + pages[k] - 1]
    decreases |pages|
  {
    if pages == [] then Success([])
    else
      var tail := SelectPages(doc, pages[1..]);
      assert forall k :: 1 <= k < |pages| ==> pages[1..][k - 1] == pages[k];
      match PyIndex(doc, pages[0] - 1)
      case Failure(e) => Failure(e)
      case Success(page) =>
        match tail
        case Failure(e) => Failure(e)
        case Success(rest) => Success([page] + rest)
  }

  /**
   * The evidently intended selection: page numbers count from 1, output
   * page `k` is input page `pages[k]`, and a number outside 1..n is an
   * error.
   */
  function SelectPagesOneBased<P>(doc: seq<P>, pages: seq<int>): (r: Result<seq<P>, IndexError>)
    ensures r.Success? <==> forall k :: 0 <= k < |pages| ==> 1 <= pages[k] <= |doc|
    ensures r.Success? ==> (|r.value| == |pages| &&
      forall k :: 0 <= k < |pages| ==> r.value[k] == doc[pages[k] - 1])
    ensures r.Failure? ==> r.error.index + 1 in pages && !(1 <= r.error.index + 1 <= |doc|)
    decreases |pages|
  {
    if pages == [] then Success([])
    else if !(1 <= pages[0] <= |doc|) then Failure(IndexError(pages[0] - 1))
    else
      var tail := SelectPagesOneBased(doc, pages[1..]);
      InRangeOnTail(pages, |doc|);
      match tail
      case Failure(e) =>
        assert e.index + 1 in pages by {
          var k :| 0 <= k < |pages[1..]| && pages[1..][k] == e.index + 1;
          assert pages[k + 1] == e.index + 1;
        }
        Failure(e)
      case Success(rest) =>
        assert forall k :: 1 <= k < |pages| ==> pages[1..][k - 1] == pages[k];
        Success([doc[pages[0] - 1]] + rest)
  }

  /** Every page number is in 1..n exactly when the first one and all the rest are. */
  lemma InRangeOnTail(pages: seq<int>, n: int)
    requires pages != []
    ensures (forall k :: 0 <= k < |pages| ==> 1 <= pages[k] <= n) <==>
      (1 <= pages[0] <= n && forall k :: 0 <= k < |pages[1..]| ==> 1 <= pages[1..][k] <= n)
  {
    assert forall k :: 1 <= k < |pages| ==> pages[1..][k - 1] == pages[k];
  }

  /** On page numbers within 1..n the code as written selects exactly the intended pages. */
  lemma SelectPagesAgree<P>(doc: seq<P>, pages: seq<int>)
    requires forall k :: 0 <= k < |pages| ==> 1 <= pages[k] <= |doc|
    ensures SelectPages(doc, pages) == SelectPagesOneBased(doc, pages)
  {
    var a := SelectPages(doc, pages).value;
    var b := SelectPagesOneBased(doc, pages).value;
    assert a == b by {
      forall k | 0 <= k < |pages|
        ensures a[k] == b[k]
      {
      }
    }
  }

  /** Page number 0 is not rejected: it silently selects the last page. */
  lemma PageZeroSelectsLastPage<P>(doc: seq<P>)
    requires doc != []
    ensures SelectPages(doc, [0]) == Success([doc[|doc| - 1]])
    ensures SelectPagesOneBased(doc, [0]) == Failure(IndexError(-1))
  {
    var r := SelectPages(doc, [0]);
    assert r.value[0] == doc[|doc| - 1];
    assert r.value == [doc[|doc| - 1]];
  }

  function Prefixed<P>(xs: seq<P>, r: Result<seq<P>, IndexError>): Result<seq<P>, IndexError> {
    match r
    case Success(v) => Success(xs + v)
    case Failure(e) => Failure(e)
  }

  /**
   * `keep_relevant_pages_in_pdf`: the pages added to the writer, one per
   * page number in order, or the `IndexError` that stops it; on page
   * numbers within 1..n it is the intended selection.
   */
  method KeepRelevantPagesInPdf<P>(doc: seq<P>, pages: seq<int>) returns (r: Result<seq<P>, IndexError>)
    ensures r == SelectPages(doc, pages)
    ensures (forall k :: 0 <= k < |pages| ==> 1 <= pages[k] <= |doc|) ==> r == SelectPagesOneBased(doc, pages)
  {
    var output: seq<P> := [];
    var k := 0;
    SelectionFrom(doc, pages, 0);
    while k < |pages|
      invariant 0 <= k <= |pages|
      invariant SelectPages(doc, pages) == Prefixed(output, SelectPages(doc, pages[k..]))
    {
      SelectionStep(doc, pages, k);
      var page := PyIndex(doc, pages[k] - 1);
      if page.Failure? {
        assert SelectPages(doc, pages[k..]) == Failure(page.error);
        r := Failure(page.error);
        return;
      }
      PrefixedTwice(output, [page.value], SelectPages(doc, pages[k + 1..]));
      output := output + [page.value];
      k := k + 1;
    }
    SelectionFrom(doc, pages, k);
    assert output + [] == output;
    r := Success(output);
    if forall k :: 0 <= k < |pages| ==> 1 <= pages[k] <= |doc| {
      SelectPagesAgree(doc, pages);
    }
  }

  /** The selection from page `k` on is the whole selection at 0, and nothing at the end. */
  lemma SelectionFrom<P>(doc: seq<P>, pages: seq<int>, k: nat)
    requires k == 0 || k == |pages|
    ensures k == 0 ==> SelectPages(doc, pages) == Prefixed([], SelectPages(doc, pages[k..]))
    ensures k == |pages| ==> SelectPages(doc, pages[k..]) == Success([])
  {
    if k == 0 {
      assert pages[k..] == pages;
      match SelectPages(doc, pages) {
        case Success(v) => assert [] + v == v;
        case Failure(_) =>
      }
    } else {
      assert pages[k..] == [];
    }
  }

  /** One step of the selection: page `k`, then the rest. */
  lemma SelectionStep<P>(doc: seq<P>, pages: seq<int>, k: nat)
    requires k < |pages|
    ensures SelectPages(doc, pages[k..]) ==
      match PyIndex(doc, pages[k] - 1)
      case Failure(e) => Failure(e)
      case Success(page) => Prefixed([page], SelectPages(doc, pages[k + 1..]))
  {
    assert pages[k..][0] == pages[k] && pages[k..][1..] == pages[k + 1..];
  }

  lemma PrefixedTwice<P>(xs: seq<P>, ys: seq<P>, r: Result<seq<P>, IndexError>)
    ensures Prefixed(xs, Prefixed(ys, r)) == Prefixed(xs + ys, r)
  {
    match r {
      case Success(v) => assert xs + (ys + v) == (xs + ys) + v;
      case Failure(_) =>
    }
  }

  // ---------------------------------------------------------------------
  // Metadata

  datatype Metadata = Metadata(company: string, year: string, docUrl: string, localPdfPath: string,
                               pagesKept: Option<seq<int>>)

  /** What happens to the raw PDF: copied whole, or cut down to the listed pages. */
  datatype PdfJob = CopyWhole(src: string, dst: string) | KeepPages(src: string, dst: string, pages: seq<int>)

  /** `doc_info.get("pages", [])` */
  function PagesOf(doc: DocInfo): seq<int> {
    doc.pages.GetOr([])
  }

  /**
   * The record of one document: its company, year and URL, the prepared
   * path, and `pages_kept` exactly when a non-empty page list is given.
   */
  function DocMetadata(prepared: string, e: Entry): (m: Metadata)
    ensures m.company == e.company && m.year == e.doc.year && m.docUrl == e.doc.docUrl
    ensures m.localPdfPath == ReportPath(prepared, e.company, e.doc.year)
    ensures m.pagesKept.Some? <==> PagesOf(e.doc) != []
    ensures m.pagesKept.Some? ==> e.doc.pages == m.pagesKept
  {
    var path := ReportPath(prepared, e.company, e.doc.year);
    if PagesOf(e.doc) == [] then Metadata(e.company, e.doc.year, e.doc.docUrl, path, None)
    else Metadata(e.company, e.doc.year, e.doc.docUrl, path, e.doc.pages)
  }

  /** The job for one document: from the raw path to the prepared path. */
  function DocJob(raw: string, prepared: string, e: Entry): (j: PdfJob)
    ensures j.src == ReportPath(raw, e.company, e.doc.year)
    ensures j.dst == ReportPath(prepared, e.company, e.doc.year)
    ensures j.KeepPages? <==> PagesOf(e.doc) != []
    ensures j.KeepPages? ==> e.doc.pages == Some(j.pages)
  {
    var src := ReportPath(raw, e.company, e.doc.year);
    var dst := ReportPath(prepared, e.company, e.doc.year);
    if PagesOf(e.doc) == [] then CopyWhole(src, dst) else KeepPages(src, dst, e.doc.pages.value)
  }

  /**
   * The metadata list: one record per document with a non-empty URL;
   * every such document has its record, and every record belongs to one.
   */
  function MetadataOf(prepared: string, es: seq<Entry>): (ms: seq<Metadata>)
    ensures |ms| <= |es|
    ensures forall m :: m in ms ==> m.docUrl != ""
    decreases |es|
  {
    if es == [] then []
    else
      var before := MetadataOf(prepared, es[..|es| - 1]);
      var last := es[|es| - 1];
      if last.doc.docUrl == "" then before else before + [DocMetadata(prepared, last)]
  }

  function JobsOf(raw: string, prepared: string, es: seq<Entry>): seq<PdfJob>
    decreases |es|
  {
    if es == [] then []
    else
      var before := JobsOf(raw, prepared, es[..|es| - 1]);
      var last := es[|es| - 1];
      if last.doc.docUrl == "" then before else before + [DocJob(raw, prepared, last)]
  }

  lemma MetadataOfStep(raw: string, prepared: string, es: seq<Entry>, e: Entry)
    ensures MetadataOf(prepared, es + [e]) ==
      MetadataOf(prepared, es) + if e.doc.docUrl == "" then [] else [DocMetadata(prepared, e)]
    ensures JobsOf(raw, prepared, es + [e]) ==
      JobsOf(raw, prepared, es) + if e.doc.docUrl == "" then [] else [DocJob(raw, prepared, e)]
  {
    assert (es + [e])[..|es|] == es;
  }

  /** The metadata of a concatenation is the concatenation of the metadata: mapping order is kept. */
  lemma {:induction false} MetadataOfAppend(prepared: string, a: seq<Entry>, b: seq<Entry>)
    ensures MetadataOf(prepared, a + b) == MetadataOf(prepared, a) + MetadataOf(prepared, b)
    decreases |b|
  {
    if b == [] {
      assert a + b == a;
    } else {
      var init := b[..|b| - 1];
      assert (a + b)[..|a + b| - 1] == a + init;
      MetadataOfAppend(prepared, a, init);
    }
  }

  /** Every document with a non-empty URL has its record, and every record is of one of them. */
  lemma {:induction false} MetadataCoversDocuments(prepared: string, es: seq<Entry>)
    ensures forall e :: e in es && e.doc.docUrl != "" ==> DocMetadata(prepared, e) in MetadataOf(prepared, es)
    ensures forall m :: m in MetadataOf(prepared, es) ==>
      exists e :: (e in es && e.doc.docUrl != "" && m == DocMetadata(prepared, e))
    decreases |es|
  {
    if es != [] {
      var init := es[..|es| - 1];
      var last := es[|es| - 1];
      assert es == init + [last];
      MetadataCoversDocuments(prepared, init);
      var before := MetadataOf(prepared, init);
      var ms := MetadataOf(prepared, es);
      assert forall m :: m in before ==> m in ms;
      forall e | e in es && e.doc.docUrl != ""
        ensures DocMetadata(prepared, e) in ms
      {
        if e != last {
          assert e in init by {
            var k :| 0 <= k < |es| && es[k] == e;
            assert init[k] == e;
          }
        }
      }
      forall m | m in ms
        ensures exists e :: (e in es && e.doc.docUrl != "" && m == DocMetadata(prepared, e))
      {
        if m in before {
          var e :| e in init && e.doc.docUrl != "" && m == DocMetadata(prepared, e);
          assert e in es;
        } else {
          assert last in es;
        }
      }
    }
  }

  /** Documents with an empty URL contribute nothing. */
  lemma {:induction false} EmptyUrlsContributeNothing(prepared: string, es: seq<Entry>)
    requires forall e :: e in es ==> e.doc.docUrl == ""
    ensures MetadataOf(prepared, es) == []
    decreases |es|
  {
    if es != [] {
      EmptyUrlsContributeNothing(prepared, es[..|es| - 1]);
    }
  }

  /** The jobs line up with the records: same length, same target, pages cut exactly when kept. */
  lemma {:induction false} JobsMatchMetadata(raw: string, prepared: string, es: seq<Entry>)
    ensures var ms := MetadataOf(prepared, es); var js := JobsOf(raw, prepared, es);
      |js| == |ms| &&
      forall k :: 0 <= k < |js| ==>
        js[k].dst == ms[k].localPdfPath &&
        js[k].src == ReportPath(raw, ms[k].company, ms[k].year) &&
        (js[k].KeepPages? <==> ms[k].pagesKept.Some?) &&
        (js[k].KeepPages? ==> ms[k].pagesKept == Some(js[k].pages))
    decreases |es|
  {
    if es != [] {
      var init := es[..|es| - 1];
      var last := es[|es| - 1];
      JobsMatchMetadata(raw, prepared, init);
      var ms0 := MetadataOf(prepared, init);
      var js0 := JobsOf(raw, prepared, init);
      if last.doc.docUrl != "" {
        var ms := ms0 + [DocMetadata(prepared, last)];
        var js := js0 + [DocJob(raw, prepared, last)];
        assert forall k :: 0 <= k < |js0| ==> js[k] == js0[k] && ms[k] == ms0[k];
      }
    }
  }

  /** The entries of a concatenated mapping are the entries of its parts, in order. */
  lemma {:induction false} EntriesAppend(a: seq<Company>, b: seq<Company>)
    ensures Entries(a + b) == Entries(a) + Entries(b)
    decreases |b|
  {
    if b == [] {
      assert a + b == a;
    } else {
      var init, c := b[..|b| - 1], b[|b| - 1];
      assert b == init + [c];
      calc {
        Entries(a + b);
      == { assert a + b == (a + init) + [c]; EntriesSnoc(a + init, c); }
        Entries(a + init) + CompanyEntries(c);
      == { EntriesAppend(a, init); }
        Entries(a) + Entries(init) + CompanyEntries(c);
      == { EntriesSnoc(init, c); }
        Entries(a) + Entries(b);
      }
    }
  }

  /** Adding a company adds its entries at the end. */
  lemma EntriesSnoc(m: seq<Company>, c: Company)
    ensures Entries(m + [c]) == Entries(m) + CompanyEntries(c)
  {
    assert (m + [c])[..|m|] == m;
  }

  /** The jobs of a concatenation are the jobs of its parts, in order. */
  lemma {:induction false} JobsOfAppend(raw: string, prepared: string, a: seq<Entry>, b: seq<Entry>)
    ensures JobsOf(raw, prepared, a + b) == JobsOf(raw, prepared, a) + JobsOf(raw, prepared, b)
    decreases |b|
  {
    if b == [] {
      assert a + b == a;
    } else {
      var init := b[..|b| - 1];
      assert (a + b)[..|a + b| - 1] == a + init;
      JobsOfAppend(raw, prepared, a, init);
    }
  }

  /** The jobs of the whole mapping begin with those of the documents up to company `i`'s document `j`. */
  lemma JobsSplitAt(raw: string, prepared: string, mapping: seq<Company>, i: nat, j: nat)
    requires i < |mapping| && j < |mapping[i].docs|
    ensures var ce := CompanyEntries(mapping[i]);
      JobsOf(raw, prepared, Entries(mapping)) ==
        JobsOf(raw, prepared, Entries(mapping[..i]) + ce[..j + 1]) +
        JobsOf(raw, prepared, ce[j + 1..] + Entries(mapping[i + 1..]))
  {
    var ce := CompanyEntries(mapping[i]);
    assert mapping == mapping[..i + 1] + mapping[i + 1..];
    EntriesAppend(mapping[..i + 1], mapping[i + 1..]);
    EntriesStep(mapping, i);
    assert ce == ce[..j + 1] + ce[j + 1..];
    assert Entries(mapping) ==
      (Entries(mapping[..i]) + ce[..j + 1]) + (ce[j + 1..] + Entries(mapping[i + 1..]));
    JobsOfAppend(raw, prepared, Entries(mapping[..i]) + ce[..j + 1], ce[j + 1..] + Entries(mapping[i + 1..]));
  }

  /**
   * What a job writes, given the pages of each raw report: the whole
   * report, or its selected pages, or the `IndexError` that stops the script.
   */
  function PdfOutput<P>(job: PdfJob, read: string -> seq<P>): Result<seq<P>, IndexError> {
    match job
    case CopyWhole(src, _) => Success(read(src))
    case KeepPages(src, _, pages) => SelectPages(read(src), pages)
  }

  /** The position of the first job, in order, whose output fails; `None` when every job succeeds. */
  function FirstFailure<P>(jobs: seq<PdfJob>, read: string -> seq<P>): (r: Option<nat>)
    ensures r.None? <==> forall k :: 0 <= k < |jobs| ==> PdfOutput(jobs[k], read).Success?
    ensures r.Some? ==> (r.value < |jobs| && PdfOutput(jobs[r.value], read).Failure? &&
      forall k :: 0 <= k < r.value ==> PdfOutput(jobs[k], read).Success?)
    decreases |jobs|
  {
    if jobs == [] then None
    else if PdfOutput(jobs[0], read).Failure? then Some(0)
    else
      assert forall k :: 1 <= k < |jobs| ==> jobs[1..][k - 1] == jobs[k];
      match FirstFailure(jobs[1..], read)
      case None => None
      case Some(k) => Some(k + 1)
  }

  /** Every page number of a document lies within `1 - n .. n` for its `n`-page raw report. */
  predicate PagesInRange<P>(raw: string, e: Entry, read: string -> seq<P>) {
    var n := |read(ReportPath(raw, e.company, e.doc.year))|;
    forall k :: 0 <= k < |PagesOf(e.doc)| ==> 1 - n <= PagesOf(e.doc)[k] <= n
  }

  /**
   * The script gets through every document, and so saves the metadata,
   * exactly when every listed document's page numbers are in range.
   */
  lemma {:induction false} MetadataSavedIffPagesInRange<P>(raw: string, prepared: string, es: seq<Entry>,
                                                            read: string -> seq<P>)
    ensures FirstFailure(JobsOf(raw, prepared, es), read).None? <==>
      forall e :: e in es && e.doc.docUrl != "" ==> PagesInRange(raw, e, read)
    decreases |es|
  {
    if es != [] {
      var init := es[..|es| - 1];
      var last := es[|es| - 1];
      assert es == init + [last];
      MetadataSavedIffPagesInRange(raw, prepared, init, read);
      var js0 := JobsOf(raw, prepared, init);
      var js := JobsOf(raw, prepared, es);
      assert forall e :: e in es <==> e in init || e == last;
      if last.doc.docUrl != "" {
        var job := DocJob(raw, prepared, last);
        assert js == js0 + [job];
        assert forall k :: 0 <= k < |js0| ==> js[k] == js0[k];
        assert js[|js0|] == job;
        assert PdfOutput(job, read).Success? <==> PagesInRange(raw, last, read);
        assert (forall k :: 0 <= k < |js| ==> PdfOutput(js[k], read).Success?) <==>
          (forall k :: 0 <= k < |js0| ==> PdfOutput(js0[k], read).Success?) && PdfOutput(job, read).Success?;
      }
    }
  }

  /** `outputs` holds what each job in `written` wrote, in order. */
  ghost predicate Produced<P>(written: seq<PdfJob>, outputs: seq<seq<P>>, read: string -> seq<P>) {
    |outputs| == |written| &&
    forall k :: 0 <= k < |written| ==> PdfOutput(written[k], read) == Success(outputs[k])
  }

  lemma ProducedSucceeds<P>(written: seq<PdfJob>, outputs: seq<seq<P>>, read: string -> seq<P>)
    requires Produced(written, outputs, read)
    ensures FirstFailure(written, read).None?
  {
  }

  lemma ProducedAppend<P>(written: seq<PdfJob>, outputs: seq<seq<P>>, job: PdfJob, output: seq<P>,
                          read: string -> seq<P>)
    requires Produced(written, outputs, read) && PdfOutput(job, read) == Success(output)
    ensures Produced(written + [job], outputs + [output], read)
  {
  }

  /**
   * When the jobs up to company `i`'s document `j` all succeed and that
   * document's job fails, it is the first failure of the whole mapping.
   */
  lemma FailureStopsScript<P>(raw: string, prepared: string, mapping: seq<Company>, i: nat, j: nat,
                              written: seq<PdfJob>, outputs: seq<seq<P>>, read: string -> seq<P>)
    requires i < |mapping| && j < |mapping[i].docs|
    requires written == JobsOf(raw, prepared, Entries(mapping[..i]) + CompanyEntries(mapping[i])[..j])
    requires Produced(written, outputs, read)
    requires var e := Entry(mapping[i].name, mapping[i].docs[j]);
      e.doc.docUrl != "" && PdfOutput(DocJob(raw, prepared, e), read).Failure?
    ensures var jobs := JobsOf(raw, prepared, Entries(mapping));
      FirstFailure(jobs, read) == Some(|written|) && jobs[..|written|] == written &&
      jobs[|written|] == DocJob(raw, prepared, Entry(mapping[i].name, mapping[i].docs[j]))
  {
    JobsAt(raw, prepared, mapping, i, j);
    var jobs := JobsOf(raw, prepared, Entries(mapping));
    var n := |written|;
    forall k | 0 <= k < n
      ensures PdfOutput(jobs[k], read).Success?
    {
      assert jobs[k] == jobs[..n][k] == written[k];
    }
    FirstFailureAt(jobs, n, read);
  }

  /** The job of company `i`'s document `j` comes right after the jobs of the documents before it. */
  lemma JobsAt(raw: string, prepared: string, mapping: seq<Company>, i: nat, j: nat)
    requires i < |mapping| && j < |mapping[i].docs| && mapping[i].docs[j].docUrl != ""
    ensures var before := JobsOf(raw, prepared, Entries(mapping[..i]) + CompanyEntries(mapping[i])[..j]);
      var jobs := JobsOf(raw, prepared, Entries(mapping));
      |before| < |jobs| && jobs[..|before|] == before &&
      jobs[|before|] == DocJob(raw, prepared, Entry(mapping[i].name, mapping[i].docs[j]))
  {
    var e := Entry(mapping[i].name, mapping[i].docs[j]);
    var done := Entries(mapping[..i]);
    var ce := CompanyEntries(mapping[i]);
    ExtendedPrefix(done, ce, j);
    MetadataOfStep(raw, prepared, done + ce[..j], e);
    JobsSplitAt(raw, prepared, mapping, i, j);
    var before := JobsOf(raw, prepared, done + ce[..j]);
    var jobs := JobsOf(raw, prepared, Entries(mapping));
    assert jobs[..|before|] == before;
  }

  /** A failing job with only successes before it is the first failure. */
  lemma {:induction false} FirstFailureAt<P>(jobs: seq<PdfJob>, n: nat, read: string -> seq<P>)
    requires n < |jobs| && PdfOutput(jobs[n], read).Failure?
    requires forall k :: 0 <= k < n ==> PdfOutput(jobs[k], read).Success?
    ensures FirstFailure(jobs, read) == Some(n)
    decreases n
  {
    if n > 0 {
      assert PdfOutput(jobs[0], read).Success?;
      FirstFailureAt(jobs[1..], n - 1, read);
    }
  }

  /**
   * The body of the inner loop for a document with a non-empty URL: its
   * record, and its job run on the raw report, a copy when no pages are
   * listed and `keep_relevant_pages_in_pdf` otherwise.
   */
  method PrepareDocument<P>(raw: string, prepared: string, company: string, rawCompanyDirectory: string,
                            preparedCompanyDirectory: string, doc: DocInfo, read: string -> seq<P>)
    returns (current: Metadata, job: PdfJob, output: Result<seq<P>, IndexError>)
    requires rawCompanyDirectory == PathJoin(raw, company)
    requires preparedCompanyDirectory == PathJoin(prepared, company)
    ensures current == DocMetadata(prepared, Entry(company, doc))
    ensures job == DocJob(raw, prepared, Entry(company, doc))
    ensures output == PdfOutput(job, read)
  {
    var pages := doc.pages.GetOr([]);
    var filename := ReportFileName(doc.year);
    var inputPdfPath := PathJoin(rawCompanyDirectory, filename);
    var outputPdfPath := PathJoin(preparedCompanyDirectory, filename);
    current := Metadata(company, doc.year, doc.docUrl, outputPdfPath, None);
    if pages == [] {
      job := CopyWhole(inputPdfPath, outputPdfPath);
      output := Success(read(inputPdfPath));
    } else {
      var relevantPages := doc.pages.value;
      current := current.(pagesKept := Some(relevantPages));
      job := KeepPages(inputPdfPath, outputPdfPath, relevantPages);
      output := KeepRelevantPagesInPdf(read(inputPdfPath), relevantPages);
    }
  }

  /**
   * The inner loop of `keep_relevant_pages_in_pdfs` for company `i`: its
   * documents' records and jobs are added in order, or the first failing
   * job's `IndexError` is returned, which is then the first failure of the
   * whole mapping, with exactly the jobs before it done.
   */
  method PrepareCompanyDocuments<P>(raw: string, prepared: string, mapping: seq<Company>, i: nat,
                                    read: string -> seq<P>, metadata0: seq<Metadata>, written0: seq<PdfJob>,
                                    outputs0: seq<seq<P>>)
    returns (metadata: seq<Metadata>, written: seq<PdfJob>, outputs: seq<seq<P>>, failure: Option<IndexError>)
    requires i < |mapping|
    requires metadata0 == MetadataOf(prepared, Entries(mapping[..i]))
    requires written0 == JobsOf(raw, prepared, Entries(mapping[..i]))
    requires Produced(written0, outputs0, read)
    ensures Produced(written, outputs, read)
    ensures failure.None? ==>
      metadata == MetadataOf(prepared, Entries(mapping[..i + 1])) &&
      written == JobsOf(raw, prepared, Entries(mapping[..i + 1]))
    ensures failure.Some? ==>
      var jobs := JobsOf(raw, prepared, Entries(mapping));
      FirstFailure(jobs, read) == Some(|written|) && jobs[..|written|] == written &&
      failure.value == PdfOutput(jobs[|written|], read).error
  {
    metadata, written, outputs, failure := metadata0, written0, outputs0, None;
    var company := mapping[i];
    var rawCompanyDirectory := PathJoin(raw, company.name);
    var preparedCompanyDirectory := PathJoin(prepared, company.name);
    ghost var done := Entries(mapping[..i]);
    var j := 0;
    assert done + CompanyEntries(company)[..j] == done;
    while j < |company.docs|
      invariant 0 <= j <= |company.docs|
      invariant metadata == MetadataOf(prepared, done + CompanyEntries(company)[..j])
      invariant written == JobsOf(raw, prepared, done + CompanyEntries(company)[..j])
      invariant Produced(written, outputs, read)
    {
      var doc := company.docs[j];
      ExtendedPrefix(done, CompanyEntries(company), j);
      MetadataOfStep(raw, prepared, done + CompanyEntries(company)[..j], Entry(company.name, doc));
      if doc.docUrl != "" {
        var current, job, output :=
          PrepareDocument(raw, prepared, company.name, rawCompanyDirectory, preparedCompanyDirectory, doc, read);
        if output.Failure? {
          FailureStopsScript(raw, prepared, mapping, i, j, written, outputs, read);
          failure := Some(output.error);
          return;
        }
        ProducedAppend(written, outputs, job, output.value, read);
        outputs := outputs + [output.value];
        written := written + [job];
        metadata := metadata + [current];
      }
      j := j + 1;
    }
    assert CompanyEntries(company)[..j] == CompanyEntries(company);
    EntriesStep(mapping, i);
  }

  /**
   * `keep_relevant_pages_in_pdfs`, given the pages of each raw report:
   * the jobs are run in mapping order, a copy or `keep_relevant_pages_in_pdf`
   * each. The first page number out of range raises, which ends the script
   * with the jobs before it done and no metadata saved; otherwise every job
   * is done and the metadata list is saved.
   */
  method KeepRelevantPagesInPdfs<P>(raw: string, prepared: string, mapping: seq<Company>, read: string -> seq<P>)
    returns (saved: Result<seq<Metadata>, IndexError>, written: seq<PdfJob>, outputs: seq<seq<P>>)
    ensures var jobs := JobsOf(raw, prepared, Entries(mapping));
      var first := FirstFailure(jobs, read);
      (first.None? ==> saved == Success(MetadataOf(prepared, Entries(mapping))) && written == jobs) &&
      (first.Some? ==> saved == Failure(PdfOutput(jobs[first.value], read).error) && written == jobs[..first.value])
    ensures Produced(written, outputs, read)
  {
    var metadata := [];
    written := [];
    outputs := [];
    var i := 0;
    while i < |mapping|
      invariant 0 <= i <= |mapping|
      invariant metadata == MetadataOf(prepared, Entries(mapping[..i]))
      invariant written == JobsOf(raw, prepared, Entries(mapping[..i]))
      invariant Produced(written, outputs, read)
    {
      var failure;
      metadata, written, outputs, failure :=
        PrepareCompanyDocuments(raw, prepared, mapping, i, read, metadata, written, outputs);
      if failure.Some? {
        saved := Failure(failure.value);
        return;
      }
      i := i + 1;
    }
    assert mapping[..i] == mapping;
    ProducedSucceeds(written, outputs, read);
    saved := Success(metadata);
  }

  // ---------------------------------------------------------------------
  // Markdown pages

  const ResultsOpen := "<results>"
  const ResultsClose := "</results>"

  /** The prompt sent for one page: the stripped template with the page's Markdown in place. */
  const PromptHead :=
    "Improve the markdown while keeping all original information. " +
    "Put the improved markdown inside a <results> xml tags with no explanation:\n\n"

  function UserPrompt(markdownDoc: string): (prompt: string)
    ensures PromptHead <= prompt && prompt[|PromptHead|..] == markdownDoc
  {
    PromptHead + markdownDoc
  }

  /**
   * The text kept from a reply: after the last `<results>` (all of it when
   * there is none), before the first `</results>` after that, stripped.
   * It holds neither tag.
   */
  function ExtractResults(text: string): (r: string)
    ensures !Contains(r, ResultsOpen) && !Contains(r, ResultsClose)
    ensures |r| <= |text|
  {
    var afterOpen := Last(Split(text, ResultsOpen));
    LastPieceIsSuffix(text, ResultsOpen);
    var inside := Split(afterOpen, ResultsClose)[0];
    assert !Contains(inside, ResultsOpen) && |inside| <= |afterOpen| by {
      FirstPiece(afterOpen, ResultsClose);
      if Find(afterOpen, ResultsClose, 0) >= 0 {
        NoneInSlice(afterOpen, ResultsOpen, 0, Find(afterOpen, ResultsClose, 0));
      }
    }
    StripKeepsAbsence(inside, ResultsOpen);
    StripKeepsAbsence(inside, ResultsClose);
    Strip(inside)
  }

  /** A reply with neither tag is kept whole, only stripped. */
  lemma ExtractResultsWithoutTags(text: string)
    requires !Contains(text, ResultsOpen) && !Contains(text, ResultsClose)
    ensures ExtractResults(text) == Strip(text)
  {
    SplitWhole(text, ResultsOpen);
    SplitWhole(text, ResultsClose);
  }

  /**
   * For `pre + "<results>" + x + "</results>" + post`, with neither tag in
   * `x` and no `<results>` in `post`, the result is `x` stripped, whatever
   * `pre` holds (earlier `<results>` elements included).
   */
  lemma ExtractResultsWrapped(pre: string, x: string, post: string)
    requires !Contains(x, ResultsOpen) && !Contains(x, ResultsClose) && !Contains(post, ResultsOpen)
    ensures ExtractResults(pre + ResultsOpen + x + ResultsClose + post) == Strip(x)
  {
    var b := x + ResultsClose + post;
    assert pre + ResultsOpen + x + ResultsClose + post == pre + ResultsOpen + b;
    assert UniqueHead(ResultsOpen) && UniqueHead(ResultsClose);
    NoOpenAround(x, post);
    LastPieceAfter(pre, ResultsOpen, b);
    FirstOccurrenceAfter(x, ResultsClose, post);
    FirstPiece(b, ResultsClose);
    assert b[..|x|] == x;
  }

  /** `<results>` cannot start inside `x`, across a `</results>` after it, or inside `post`. */
  lemma NoOpenAround(x: string, post: string)
    requires !Contains(x, ResultsOpen) && !Contains(post, ResultsOpen)
    ensures !Contains(x + ResultsClose + post, ResultsOpen)
  {
    var b := x + ResultsClose + post;
    forall j | 0 <= j <= |b|
      ensures !OccursAt(b, ResultsOpen, j)
    {
      NoOpenAt(x, post, j);
    }
  }

  /** No `<results>` starts at position `j` of `x + "</results>" + post`. */
  lemma NoOpenAt(x: string, post: string, j: nat)
    requires !Contains(x, ResultsOpen) && !Contains(post, ResultsOpen)
    ensures !OccursAt(x + ResultsClose + post, ResultsOpen, j)
  {
    var b := x + ResultsClose + post;
    var n := |ResultsOpen|;
    var tail := |x| + |ResultsClose|;
    if j + n <= |b| {
      var w := b[j..j + n];
      if j + n <= |x| {
        assert w == x[j..j + n];
        assert !OccursAt(x, ResultsOpen, j);
      } else if j < |x| {
        var d := |x| - j;
        assert w[d] == b[|x|] == '<';
        assert ResultsOpen[d] != '<';
        assert w[d] != ResultsOpen[d];
      } else if j == |x| {
        assert w[1] == b[j + 1] == '/' != ResultsOpen[1];
      } else if j < tail {
        assert w[0] == b[j] == ResultsClose[j - |x|] != ResultsOpen[0];
      } else {
        assert w == post[j - tail..j - tail + n];
        assert !OccursAt(post, ResultsOpen, j - tail);
      }
      assert w != ResultsOpen;
    }
  }

  /** `improve_textract_markdown_output` on values: one extracted reply per page, in page order. */
  function ImprovedPages(pages: seq<string>, llm: string -> string): (improved: seq<string>)
    ensures |improved| == |pages|
    ensures forall i :: 0 <= i < |pages| ==>
      improved[i] == ExtractResults(llm(UserPrompt(pages[i]))) &&
      !Contains(improved[i], ResultsOpen) && !Contains(improved[i], ResultsClose)
  {
    seq(|pages|, i requires 0 <= i < |pages| => ExtractResults(llm(UserPrompt(pages[i]))))
  }

  /** `improve_textract_markdown_output`: asks the LLM about each page in turn. */
  method ImproveTextractMarkdownOutput(pages: seq<string>, llm: string -> string) returns (improved: seq<string>)
    ensures improved == ImprovedPages(pages, llm)
  {
    improved := [];
    var i := 0;
    while i < |pages|
      invariant 0 <= i <= |pages|
      invariant improved == ImprovedPages(pages, llm)[..i]
    {
      var userInput := UserPrompt(pages[i]);
      var result := llm(userInput);
      PrefixSnoc(ImprovedPages(pages, llm), i);
      improved := improved + [ExtractResults(result)];
      i := i + 1;
    }
    assert ImprovedPages(pages, llm)[..i] == ImprovedPages(pages, llm);
  }

  /** A prefix one longer is the prefix and the next element. */
  lemma PrefixSnoc<T>(s: seq<T>, i: nat)
    requires i < |s|
    ensures s[..i + 1] == s[..i] + [s[i]]
  {
  }

  datatype PageRecord = PageRecord(page: int, pageText: string)

  /** The page records: numbered from 0 in order, each holding its text. */
  function EnumeratePages(texts: seq<string>): (records: seq<PageRecord>)
    ensures |records| == |texts|
    ensures forall i :: 0 <= i < |texts| ==> records[i].page == i && records[i].pageText == texts[i]
  {
    seq(|texts|, i requires 0 <= i < |texts| => PageRecord(i, texts[i]))
  }

  /** `extract_pages_as_markdown`, with the extraction service as `analyse`. */
  method ExtractPagesAsMarkdown(inputDocument: string, analyse: string -> seq<string>, llm: string -> string)
    returns (pages: seq<PageRecord>)
    ensures pages == EnumeratePages(ImprovedPages(analyse(inputDocument), llm))
  {
    var document := analyse(inputDocument);
    var res := ImproveTextractMarkdownOutput(document, llm);
    pages := EnumeratePages(res);
  }

  /** The segment after the last "/" of a URL: the whole URL when it has none. */
  function UrlName(url: string): (name: string)
    ensures !Contains(name, "/")
    ensures |name| <= |url| && url[|url| - |name|..] == name
    ensures name == url || url[|url| - |name| - 1] == '/'
  {
    LastPieceIsSuffix(url, "/");
    var name := Last(Split(url, "/"));
    assert name != url ==> url[|url| - |name| - 1..|url| - |name|] == "/";
    name
  }

  /** A URL ending in "/" + `b`, with no "/" in `b`, is named `b`. */
  lemma UrlNameAfterLastSlash(a: string, b: string)
    requires !Contains(b, "/")
    ensures UrlName(a + "/" + b) == b
  {
    LastPieceAfter(a, "/", b);
  }

  datatype DocResult = DocResult(metadata: Metadata, name: string, sourceLocation: string, pages: seq<PageRecord>)

  /** The entry `extract_docs_into_markdown` builds for one metadata record. */
  function DocResultOf(meta: Metadata, analyse: string -> seq<string>, llm: string -> string): (d: DocResult)
    ensures d.metadata == meta && d.sourceLocation == meta.docUrl && d.name == UrlName(meta.docUrl)
    ensures d.pages == EnumeratePages(ImprovedPages(analyse(meta.localPdfPath), llm))
  {
    DocResult(meta, UrlName(meta.docUrl), meta.docUrl, EnumeratePages(ImprovedPages(analyse(meta.localPdfPath), llm)))
  }

  /** `extract_docs_into_markdown`: one entry per metadata record, in order. */
  method ExtractDocsIntoMarkdown(docsMetadata: seq<Metadata>, analyse: string -> seq<string>, llm: string -> string)
    returns (results: seq<DocResult>)
    ensures |results| == |docsMetadata|
    ensures forall i :: 0 <= i < |results| ==> results[i] == DocResultOf(docsMetadata[i], analyse, llm)
  {
    results := [];
    var i := 0;
    while i < |docsMetadata|
      invariant 0 <= i <= |docsMetadata|
      invariant |results| == i
      invariant forall k :: 0 <= k < i ==> results[k] == DocResultOf(docsMetadata[k], analyse, llm)
    {
      var docMeta := docsMetadata[i];
      var name := UrlName(docMeta.docUrl);
      var pages := ExtractPagesAsMarkdown(docMeta.localPdfPath, analyse, llm);
      results := results + [DocResult(docMeta, name, docMeta.docUrl, pages)];
      i := i + 1;
    }
  }
}
