/**
 * The PDF downloader's bookkeeping: the per-block skip / store / fail decision of
 * `download_pdfs`, a pass over the blocks of one year page, and the crawl in `main`
 * over the years 2024 down to 2014. The output directory is the set of file names it
 * holds; the browser is reduced to what it reports about each block.
 */
module Downloader {
  import opened Wrappers
  import opened Sanitizer
  import opened PdfName

  /** The only content type that gets a block written to disk. */
  const PdfContentType: string := "application/pdf"

  /** The first and the last year the crawl visits. */
  const NewestYear: int := 2024
  const OldestYear: int := 2014

  /**
   * One document block of a year page, as the browser reports it: the label text, the
   * link already resolved against the page URL, and the content type the browser shows
   * once it has navigated to that link.
   */
  datatype Block = Block(text: string, url: string, contentType: string)

  /** A block once its file-name stem has been derived from the label. */
  datatype Document = Document(name: string, url: string, contentType: string)

  /** What happened to one document; the name is the stem, without ".pdf". */
  datatype Outcome =
    | Skipped(name: string)
    | Downloaded(name: string, url: string)
    | Failed(name: string, url: string)

  /** The head of each loop iteration: the stem is derived from the label, the link is kept. */
  function Reference(b: Block): (d: Document)
    ensures d.name == DeriveName(b.text)
    ensures ' ' !in d.name && NoForbidden(d.name)
    ensures d.url == b.url && d.contentType == b.contentType
  {
    Document(DeriveName(b.text), b.url, b.contentType)
  }

  /** The documents of a page, one per block, in page order. */
  function References(blocks: seq<Block>): (docs: seq<Document>)
    ensures |docs| == |blocks|
    ensures forall i :: 0 <= i < |blocks| ==> docs[i] == Reference(blocks[i])
  {
    seq(|blocks|, i requires 0 <= i < |blocks| => Reference(blocks[i]))
  }

  /** The file a document is stored under, which is also its deduplication key. */
  function FileName(d: Document): string {
    d.name + ".pdf"
  }

  /** The files a sequence of outcomes wrote. */
  function DownloadedFiles(outcomes: seq<Outcome>): set<string>
  {
    if |outcomes| == 0 then {}
    else if outcomes[0].Downloaded? then {outcomes[0].name + ".pdf"} + DownloadedFiles(outcomes[1..])
    else DownloadedFiles(outcomes[1..])
  }

  /** A file is in `DownloadedFiles` exactly when some outcome downloaded it. */
  lemma {:induction false} DownloadedFilesSpec(outcomes: seq<Outcome>, f: string)
    ensures f in DownloadedFiles(outcomes) <==>
      exists i :: 0 <= i < |outcomes| && outcomes[i].Downloaded? && outcomes[i].name + ".pdf" == f
    decreases |outcomes|
  {
    if |outcomes| > 0 {
      DownloadedFilesSpec(outcomes[1..], f);
      if f in DownloadedFiles(outcomes[1..]) {
        var i :| 0 <= i < |outcomes[1..]| && outcomes[1..][i].Downloaded? && outcomes[1..][i].name + ".pdf" == f;
        assert outcomes[i + 1] == outcomes[1..][i];
      }
      if exists i :: 0 <= i < |outcomes| && outcomes[i].Downloaded? && outcomes[i].name + ".pdf" == f {
        var i :| 0 <= i < |outcomes| && outcomes[i].Downloaded? && outcomes[i].name + ".pdf" == f;
        if i > 0 {
          assert outcomes[1..][i - 1] == outcomes[i];
        }
      }
    }
  }

  /** Every block already has its file, or is one the site will not serve as a PDF. */
  predicate Settled(store: set<string>, blocks: seq<Document>) {
    forall i :: 0 <= i < |blocks| ==> FileName(blocks[i]) in store || blocks[i].contentType != PdfContentType
  }

  datatype Step = Step(store: set<string>, outcome: Outcome)

  /**
   * One iteration of the loop in `download_pdfs`. An existing file short-circuits the
   * block before any navigation; otherwise the link is fetched and the file is written
   * only when the reported content type is exactly the PDF one.
   */
  function ProcessBlock(store: set<string>, b: Document): (r: Step)
    ensures r.outcome.name == b.name
    ensures r.outcome.Skipped? <==> FileName(b) in store
    ensures r.outcome.Downloaded? <==> FileName(b) !in store && b.contentType == PdfContentType
    ensures r.outcome.Failed? <==> FileName(b) !in store && b.contentType != PdfContentType
    ensures !r.outcome.Skipped? ==> r.outcome.url == b.url
    ensures r.outcome.Downloaded? ==> r.store == store + {FileName(b)}
    ensures !r.outcome.Downloaded? ==> r.store == store
  {
    if FileName(b) in store then Step(store, Skipped(b.name))
    else if b.contentType == PdfContentType then Step(store + {FileName(b)}, Downloaded(b.name, b.url))
    else Step(store, Failed(b.name, b.url))
  }

  datatype Pass = Pass(store: set<string>, outcomes: seq<Outcome>)

  /** `download_pdfs` on one page: the blocks in page order, each against the store so far. */
  function DownloadPdfs(store: set<string>, blocks: seq<Document>): (r: Pass)
    ensures |r.outcomes| == |blocks|
    ensures store <= r.store
    decreases |blocks|
  {
    if |blocks| == 0 then Pass(store, [])
    else
      var step := ProcessBlock(store, blocks[0]);
      var rest := DownloadPdfs(step.store, blocks[1..]);
      Pass(rest.store, [step.outcome] + rest.outcomes)
  }

  /** Index `i` of a pass over `blocks` is index `i - 1` of the pass over its tail. */
  lemma PassTail(store: set<string>, blocks: seq<Document>, i: int)
    requires 0 < i < |blocks|
    ensures var rest := DownloadPdfs(ProcessBlock(store, blocks[0]).store, blocks[1..]);
      DownloadPdfs(store, blocks).outcomes[i] == rest.outcomes[i - 1] && blocks[i] == blocks[1..][i - 1]
  {
  }

  /** The store after a pass is the store before it plus exactly the files the pass downloaded. */
  lemma {:induction false} PassStoresExactlyItsDownloads(store: set<string>, blocks: seq<Document>)
    ensures var r := DownloadPdfs(store, blocks);
      r.store == store + DownloadedFiles(r.outcomes)
    decreases |blocks|
  {
    if |blocks| > 0 {
      var step := ProcessBlock(store, blocks[0]);
      PassStoresExactlyItsDownloads(step.store, blocks[1..]);
      assert DownloadPdfs(store, blocks).outcomes[1..] == DownloadPdfs(step.store, blocks[1..]).outcomes;
    }
  }

  /**
   * Block `i` is decided against the store as the first `i` blocks left it, so every
   * outcome is the three-way decision of `ProcessBlock` in its own context.
   */
  lemma {:induction false} PassDecidesInOrder(store: set<string>, blocks: seq<Document>, i: int)
    requires 0 <= i < |blocks|
    ensures DownloadPdfs(store, blocks).outcomes[i]
         == ProcessBlock(DownloadPdfs(store, blocks[..i]).store, blocks[i]).outcome
    decreases |blocks|
  {
    var step := ProcessBlock(store, blocks[0]);
    if i > 0 {
      PassTail(store, blocks, i);
      PassDecidesInOrder(step.store, blocks[1..], i - 1);
      assert blocks[..i][0] == blocks[0] && blocks[..i][1..] == blocks[1..][..i - 1];
    } else {
      assert blocks[..0] == [];
    }
  }

  /** A block whose file existed before the pass is skipped: it is never fetched. */
  lemma PassSkipsExisting(store: set<string>, blocks: seq<Document>, i: int)
    requires 0 <= i < |blocks| && FileName(blocks[i]) in store
    ensures DownloadPdfs(store, blocks).outcomes[i] == Skipped(blocks[i].name)
  {
    PassDecidesInOrder(store, blocks, i);
  }

  /** A download happens only for a file new to the store whose link served a PDF. */
  lemma PassDownloadsOnlyNewPdfs(store: set<string>, blocks: seq<Document>, i: int)
    requires 0 <= i < |blocks| && DownloadPdfs(store, blocks).outcomes[i].Downloaded?
    ensures FileName(blocks[i]) !in store && blocks[i].contentType == PdfContentType
  {
    PassDecidesInOrder(store, blocks, i);
  }

  /** After a pass every block has its file, unless its link does not serve a PDF. */
  lemma {:induction false} PassSettles(store: set<string>, blocks: seq<Document>)
    ensures Settled(DownloadPdfs(store, blocks).store, blocks)
    decreases |blocks|
  {
    if |blocks| > 0 {
      var step := ProcessBlock(store, blocks[0]);
      PassSettles(step.store, blocks[1..]);
      var r := DownloadPdfs(store, blocks);
      forall i | 0 <= i < |blocks|
        ensures FileName(blocks[i]) in r.store || blocks[i].contentType != PdfContentType
      {
        if i > 0 {
          assert blocks[i] == blocks[1..][i - 1];
        }
      }
    }
  }

  /** A file is written at most once in a pass: two downloads never share a name. */
  lemma {:induction false} PassNeverOverwrites(store: set<string>, blocks: seq<Document>, i: int, j: int)
    requires 0 <= i < j < |blocks|
    requires DownloadPdfs(store, blocks).outcomes[i].Downloaded?
    requires DownloadPdfs(store, blocks).outcomes[j].Downloaded?
    ensures DownloadPdfs(store, blocks).outcomes[i].name != DownloadPdfs(store, blocks).outcomes[j].name
    decreases |blocks|
  {
    var step := ProcessBlock(store, blocks[0]);
    PassTail(store, blocks, j);
    if i == 0 {
      PassDecidesInOrder(step.store, blocks[1..], j - 1);
      PassDownloadsOnlyNewPdfs(step.store, blocks[1..], j - 1);
      assert FileName(blocks[0]) in step.store;
    } else {
      PassTail(store, blocks, i);
      PassNeverOverwrites(step.store, blocks[1..], i - 1, j - 1);
    }
  }

  /**
   * Blocks whose labels give the same name share one file: once one of them is
   * downloaded, every later one is skipped, so the first fetched copy is the one kept.
   */
  lemma {:induction false} SameNameKeepsFirst(store: set<string>, blocks: seq<Document>, i: int, j: int)
    requires 0 <= i < j < |blocks| && blocks[i].name == blocks[j].name
    requires DownloadPdfs(store, blocks).outcomes[i].Downloaded?
    ensures DownloadPdfs(store, blocks).outcomes[j] == Skipped(blocks[j].name)
    decreases |blocks|
  {
    var step := ProcessBlock(store, blocks[0]);
    PassTail(store, blocks, j);
    if i == 0 {
      assert FileName(blocks[1..][j - 1]) in step.store;
      PassSkipsExisting(step.store, blocks[1..], j - 1);
    } else {
      PassTail(store, blocks, i);
      SameNameKeepsFirst(step.store, blocks[1..], i - 1, j - 1);
    }
  }

  /** A larger store leaves settled blocks settled. */
  lemma SettledGrows(store: set<string>, bigger: set<string>, blocks: seq<Document>)
    requires store <= bigger && Settled(store, blocks)
    ensures Settled(bigger, blocks)
  {
  }

  /** On settled blocks a pass writes nothing: every block is skipped or fails again. */
  lemma {:induction false} SettledPassIsQuiet(store: set<string>, blocks: seq<Document>)
    requires Settled(store, blocks)
    ensures DownloadPdfs(store, blocks).store == store
    ensures forall i :: 0 <= i < |blocks| ==> !DownloadPdfs(store, blocks).outcomes[i].Downloaded?
    decreases |blocks|
  {
    if |blocks| > 0 {
      assert Settled(store, blocks[1..]) by {
        assert forall i :: 0 <= i < |blocks| - 1 ==> blocks[1..][i] == blocks[i + 1];
      }
      SettledPassIsQuiet(store, blocks[1..]);
      forall i | 0 < i < |blocks|
        ensures !DownloadPdfs(store, blocks).outcomes[i].Downloaded?
      {
        PassTail(store, blocks, i);
      }
    }
  }

  /** Running a pass a second time over the same blocks, on the store the first left, writes nothing. */
  lemma SecondPassDownloadsNothing(store: set<string>, blocks: seq<Document>)
    ensures var first := DownloadPdfs(store, blocks);
      var second := DownloadPdfs(first.store, blocks);
      second.store == first.store && forall i :: 0 <= i < |blocks| ==> !second.outcomes[i].Downloaded?
  {
    PassSettles(store, blocks);
    SettledPassIsQuiet(DownloadPdfs(store, blocks).store, blocks);
  }

  /** The years `main` visits: from `newest` down to `oldest`, one step at a time. */
  function Years(newest: int, oldest: int): (ys: seq<int>)
    ensures |ys| == if newest >= oldest then newest - oldest + 1 else 0
    ensures forall i :: 0 <= i < |ys| ==> ys[i] == newest - i
    ensures forall y :: y in ys <==> oldest <= y <= newest
    decreases newest - oldest
  {
    if newest < oldest then [] else [newest] + Years(newest - 1, oldest)
  }

  /** The crawl visits 2024, 2023, ..., 2014: eleven years, strictly descending, each once. */
  lemma CrawlYearsAreElevenDescending()
    ensures var ys := Years(NewestYear, OldestYear);
      && |ys| == 11 && ys[0] == 2024 && ys[10] == 2014
      && (forall i, j :: 0 <= i < j < |ys| ==> ys[i] > ys[j])
      && (forall y :: y in ys <==> 2014 <= y <= 2024)
  {
  }

  datatype YearReport = YearReport(year: int, outcomes: seq<Outcome>)
  datatype Report = Report(store: set<string>, years: seq<YearReport>)

  /** The missing-credentials error raised before the browser is started. */
  datatype CrawlError = MissingCredentials

  /** The documents the lister finds on the page of `year`. */
  function DocumentsOf(page: int -> seq<Block>, year: int): seq<Document> {
    References(page(year))
  }

  /** One `download_pdfs` pass per year, in the given order, threading the store through. */
  function CrawlYears(store: set<string>, years: seq<int>, page: int -> seq<Block>): (r: Report)
    ensures |r.years| == |years|
    ensures forall i :: 0 <= i < |years| ==> r.years[i].year == years[i]
    ensures forall i :: 0 <= i < |years| ==> |r.years[i].outcomes| == |DocumentsOf(page, years[i])|
    ensures store <= r.store
    decreases |years|
  {
    if |years| == 0 then Report(store, [])
    else
      var pass := DownloadPdfs(store, DocumentsOf(page, years[0]));
      var rest := CrawlYears(pass.store, years[1..], page);
      var r := Report(rest.store, [YearReport(years[0], pass.outcomes)] + rest.years);
      assert forall i :: 1 <= i < |years| ==> years[i] == years[1..][i - 1];
      assert forall i :: 1 <= i < |years| ==> r.years[i] == rest.years[i - 1];
      r
  }

  /** Index `i` of a crawl is index `i - 1` of the crawl over the remaining years. */
  lemma CrawlTail(store: set<string>, years: seq<int>, page: int -> seq<Block>, i: int)
    requires 0 < i < |years|
    ensures var rest := CrawlYears(DownloadPdfs(store, DocumentsOf(page, years[0])).store, years[1..], page);
      CrawlYears(store, years, page).years[i] == rest.years[i - 1] && years[i] == years[1..][i - 1]
  {
  }

  /** After a crawl, every page it visited is settled against the final store. */
  lemma {:induction false} CrawlSettles(store: set<string>, years: seq<int>, page: int -> seq<Block>)
    ensures forall i :: 0 <= i < |years| ==> Settled(CrawlYears(store, years, page).store, DocumentsOf(page, years[i]))
    decreases |years|
  {
    if |years| > 0 {
      var pass := DownloadPdfs(store, DocumentsOf(page, years[0]));
      CrawlSettles(pass.store, years[1..], page);
      PassSettles(store, DocumentsOf(page, years[0]));
      var r := CrawlYears(store, years, page);
      SettledGrows(pass.store, r.store, DocumentsOf(page, years[0]));
      forall i | 1 <= i < |years|
        ensures Settled(r.store, DocumentsOf(page, years[i]))
      {
        assert years[i] == years[1..][i - 1];
      }
    }
  }

  /** A block whose file existed before the crawl is skipped in whichever year lists it. */
  lemma CrawlSkipsExisting(store: set<string>, years: seq<int>, page: int -> seq<Block>, i: int, j: int)
    requires 0 <= i < |years| && 0 <= j < |page(years[i])| && DeriveName(page(years[i])[j].text) + ".pdf" in store
    ensures CrawlYears(store, years, page).years[i].outcomes[j].Skipped?
  {
    assert FileName(DocumentsOf(page, years[i])[j]) == DeriveName(page(years[i])[j].text) + ".pdf";
    CrawlSkipsStored(store, years, page, i, j);
  }

  lemma {:induction false} CrawlSkipsStored(store: set<string>, years: seq<int>, page: int -> seq<Block>, i: int, j: int)
    requires 0 <= i < |years| && 0 <= j < |DocumentsOf(page, years[i])|
    requires FileName(DocumentsOf(page, years[i])[j]) in store
    ensures CrawlYears(store, years, page).years[i].outcomes[j].Skipped?
    decreases |years|
  {
    var pass := DownloadPdfs(store, DocumentsOf(page, years[0]));
    if i == 0 {
      PassSkipsExisting(store, DocumentsOf(page, years[0]), j);
    } else {
      CrawlTail(store, years, page, i);
      CrawlSkipsStored(pass.store, years[1..], page, i - 1, j);
    }
  }

  /** Python truthiness of an environment value: absent and empty are both false. */
  predicate Present(value: Option<string>) {
    value.Some? && |value.value| > 0
  }

  /**
   * `main` after the browser has logged in: missing credentials abort before any year
   * is visited; otherwise every year from 2024 down to 2014 gets one pass.
   */
  function Crawl(username: Option<string>, password: Option<string>, store: set<string>, page: int -> seq<Block>):
    (r: Result<Report, CrawlError>)
    ensures r.Failure? <==> !Present(username) || !Present(password)
    ensures r.Success? ==> |r.value.years| == 11
    ensures r.Success? ==> forall i :: 0 <= i < 11 ==> r.value.years[i].year == NewestYear - i
    ensures r.Success? ==> store <= r.value.store
  {
    if !Present(username) || !Present(password) then Failure(MissingCredentials)
    else Success(CrawlYears(store, Years(NewestYear, OldestYear), page))
  }

  /** On pages all settled against the store, a crawl writes nothing. */
  lemma {:induction false} SettledCrawlIsQuiet(store: set<string>, years: seq<int>, page: int -> seq<Block>)
    requires forall i :: 0 <= i < |years| ==> Settled(store, DocumentsOf(page, years[i]))
    ensures CrawlYears(store, years, page).store == store
    ensures forall i, j :: 0 <= i < |years| && 0 <= j < |DocumentsOf(page, years[i])| ==>
      !CrawlYears(store, years, page).years[i].outcomes[j].Downloaded?
    decreases |years|
  {
    if |years| > 0 {
      SettledPassIsQuiet(store, DocumentsOf(page, years[0]));
      assert forall i :: 0 <= i < |years| - 1 ==> years[1..][i] == years[i + 1];
      SettledCrawlIsQuiet(store, years[1..], page);
      var r := CrawlYears(store, years, page);
      var rest := CrawlYears(store, years[1..], page);
      assert forall i :: 1 <= i < |years| ==> r.years[i] == rest.years[i - 1];
    }
  }

  /**
   * Running the whole crawl again against an unchanged archive, on the directory the
   * first run left, downloads nothing.
   */
  lemma SecondCrawlDownloadsNothing(username: Option<string>, password: Option<string>, store: set<string>,
                                    page: int -> seq<Block>)
    requires Crawl(username, password, store, page).Success?
    ensures var first := Crawl(username, password, store, page).value;
      var second := Crawl(username, password, first.store, page);
      && second.Success?
      && second.value.store == first.store
      && forall i, j :: 0 <= i < 11 && 0 <= j < |second.value.years[i].outcomes| ==>
           !second.value.years[i].outcomes[j].Downloaded?
  {
    var first := Crawl(username, password, store, page).value;
    CrawlSettles(store, Years(NewestYear, OldestYear), page);
    SettledCrawlIsQuiet(first.store, Years(NewestYear, OldestYear), page);
  }

  /** Crawling from `year` down is one pass on `year`, then the crawl from `year - 1` down. */
  lemma CrawlOneYear(store: set<string>, year: int, page: int -> seq<Block>)
    requires year >= OldestYear
    ensures var pass := DownloadPdfs(store, DocumentsOf(page, year));
      var rest := CrawlYears(pass.store, Years(year - 1, OldestYear), page);
      CrawlYears(store, Years(year, OldestYear), page)
        == Report(rest.store, [YearReport(year, pass.outcomes)] + rest.years)
  {
    var ys := Years(year, OldestYear);
    assert ys[0] == year && ys[1..] == Years(year - 1, OldestYear);
  }

  /** After the years above `year`, with `files` stored and `reports` made, the crawl is on track. */
  predicate Resumes(store: set<string>, files: set<string>, reports: seq<YearReport>, year: int, page: int -> seq<Block>) {
    var rest := CrawlYears(files, Years(year, OldestYear), page);
    Report(rest.store, reports + rest.years) == CrawlYears(store, Years(NewestYear, OldestYear), page)
  }

  lemma ResumesAtStart(store: set<string>, page: int -> seq<Block>)
    ensures Resumes(store, store, [], NewestYear, page)
  {
    var all := CrawlYears(store, Years(NewestYear, OldestYear), page);
    assert [] + all.years == all.years;
  }

  lemma ResumesAtEnd(store: set<string>, files: set<string>, reports: seq<YearReport>, page: int -> seq<Block>)
    requires Resumes(store, files, reports, OldestYear - 1, page)
    ensures Report(files, reports) == CrawlYears(store, Years(NewestYear, OldestYear), page)
  {
    assert Years(OldestYear - 1, OldestYear) == [];
    assert reports + [] == reports;
  }

  lemma ResumesNextYear(store: set<string>, files: set<string>, reports: seq<YearReport>, year: int, page: int -> seq<Block>)
    requires year >= OldestYear && Resumes(store, files, reports, year, page)
    ensures var pass := DownloadPdfs(files, DocumentsOf(page, year));
      Resumes(store, pass.store, reports + [YearReport(year, pass.outcomes)], year - 1, page)
  {
    var pass := DownloadPdfs(files, DocumentsOf(page, year));
    CrawlOneYear(files, year, page);
    var rest := CrawlYears(pass.store, Years(year - 1, OldestYear), page);
    assert (reports + [YearReport(year, pass.outcomes)]) + rest.years
        == reports + ([YearReport(year, pass.outcomes)] + rest.years);
  }

  /**
   * The crawl loop of `main` as written: a year counter that starts at 2024 and is
   * decremented while it is at least 2014.
   */
  method RunCrawl(username: Option<string>, password: Option<string>, store: set<string>, page: int -> seq<Block>)
    returns (r: Result<Report, CrawlError>)
    ensures r == Crawl(username, password, store, page)
  {
    if !Present(username) || !Present(password) {
      return Failure(MissingCredentials);
    }
    var files := store;
    var reports: seq<YearReport> := [];
    var year := NewestYear;
    ResumesAtStart(store, page);
    while year >= OldestYear
      invariant OldestYear - 1 <= year <= NewestYear
      invariant Resumes(store, files, reports, year, page)
      decreases year
    {
      var pass := DownloadPdfs(files, DocumentsOf(page, year));
      ResumesNextYear(store, files, reports, year, page);
      files := pass.store;
      reports := reports + [YearReport(year, pass.outcomes)];
      year := year - 1;
    }
    ResumesAtEnd(store, files, reports, page);
    return Success(Report(files, reports));
  }
}
