/** `search_phrase_in_pdfs` over an explicit corpus: the directory walk is the
    order of the corpus sequence, and opening a PDF and extracting the text of
    its pages are given outcomes instead of library calls. */
module PhraseSearch {
  import opened Text

  /** What extracting the text of one page produced. */
  datatype Page = Extracted(text: string) | ReadFailed

  /** What opening a file as a PDF produced: a failure, or its pages in order. */
  datatype Document = OpenFailed | Opened(pages: seq<Page>)

  /** A file visited by the walk: its base name and what opening it gives. */
  datatype CorpusFile = CorpusFile(name: string, doc: Document)

  /** The "Page Number" column: a 1-based page number, or the placeholder `-`. */
  datatype PageNumber = Number(n: nat) | Dash

  /** One row of the result table: "File Name" and "Page Number". */
  datatype Record = Record(fileName: string, pageNumber: PageNumber)

  const PdfSuffix: string := ".pdf"

  /** The single row reported when nothing matched. */
  const NoMatch: Record := Record("No match found", Dash)

  /** Only names ending in `.pdf`, case-sensitively, are opened. */
  predicate IsPdf(name: string)
  {
    EndsWith(name, PdfSuffix)
  }

  /** `phrase.lower() in text.lower()`. */
  predicate PageMatches(text: string, phrase: string)
  {
    Contains(Lower(text), Lower(phrase))
  }

  // ---------------------------------------------------------------------------
  // The specification: what the scan produces, file by file.

  /** Records of the pages of one opened file from index `i` on: a matching page
      gives one record, and a page whose text cannot be extracted ends the file. */
  function PageRecords(name: string, pages: seq<Page>, i: nat, phrase: string): seq<Record>
    requires i <= |pages|
    decreases |pages| - i
  {
    if i == |pages| then []
    else match pages[i]
      case ReadFailed => []
      case Extracted(text) =>
        (if PageMatches(text, phrase) then [Record(name, Number(i + 1))] else [])
          + PageRecords(name, pages, i + 1, phrase)
  }

  /** Records one file contributes: none unless it is a PDF that opens. */
  function FileRecords(f: CorpusFile, phrase: string): seq<Record>
  {
    if !IsPdf(f.name) then []
    else match f.doc
      case OpenFailed => []
      case Opened(pages) => PageRecords(f.name, pages, 0, phrase)
  }

  /** The records of all files, in corpus order. */
  function Matches(corpus: seq<CorpusFile>, phrase: string): seq<Record>
  {
    if corpus == [] then []
    else Matches(corpus[..|corpus| - 1], phrase) + FileRecords(corpus[|corpus| - 1], phrase)
  }

  /** The table `search_phrase_in_pdfs` returns. */
  function Search(corpus: seq<CorpusFile>, phrase: string): seq<Record>
  {
    var found := Matches(corpus, phrase);
    if found == [] then [NoMatch] else found
  }

  // ---------------------------------------------------------------------------
  // The scan itself.

  /** `search_phrase_in_pdfs`: the loop over the files of the walk, each PDF
      scanned by `ScanFile`, and the placeholder row when nothing was found. */
  method SearchPhraseInPdfs(corpus: seq<CorpusFile>, phrase: string) returns (results: seq<Record>)
    ensures results == Search(corpus, phrase)
  {
    results := [];
    var fileIndex := 0;
    while fileIndex < |corpus|
      invariant fileIndex <= |corpus|
      invariant results == Matches(corpus[..fileIndex], phrase)
    {
      var file := corpus[fileIndex];
      if EndsWith(file.name, PdfSuffix) {
        results := ScanFile(results, file, phrase);
      }
      MatchesSnoc(corpus, fileIndex, phrase);
      fileIndex := fileIndex + 1;
    }
    assert corpus[..|corpus|] == corpus;
    if results == [] {
      results := [NoMatch];
    }
  }

  /** The body of the `try` for one PDF: the loop over its pages appending to
      `results`.  A failure to open the file or to extract a page's text leaves
      the loop, keeping what was appended before it. */
  method ScanFile(results: seq<Record>, file: CorpusFile, phrase: string) returns (updated: seq<Record>)
    requires IsPdf(file.name)
    ensures updated == results + FileRecords(file, phrase)
  {
    updated := results;
    match file.doc
    case OpenFailed =>
    case Opened(pages) =>
      var pageNum := 0;
      while pageNum < |pages|
        invariant pageNum <= |pages|
        invariant updated + PageRecords(file.name, pages, pageNum, phrase)
                  == results + PageRecords(file.name, pages, 0, phrase)
      {
        match pages[pageNum]
        case ReadFailed =>
          break;
        case Extracted(text) =>
          if Contains(Lower(text), Lower(phrase)) {
            updated := updated + [Record(file.name, Number(pageNum + 1))];
          }
          pageNum := pageNum + 1;
      }
  }

  /** Extending the visited prefix of the corpus by one file appends that file's records. */
  lemma MatchesSnoc(corpus: seq<CorpusFile>, i: nat, phrase: string)
    requires i < |corpus|
    ensures Matches(corpus[..i + 1], phrase) == Matches(corpus[..i], phrase) + FileRecords(corpus[i], phrase)
  {
    assert corpus[..i + 1][..i] == corpus[..i];
  }

  // ---------------------------------------------------------------------------
  // What a record means.

  /** Page `n` (1-based) of `pages` is reached when every page before it and the
      page itself were extracted starting from index `i`, and it contains the phrase. */
  ghost predicate HitFrom(pages: seq<Page>, i: nat, n: nat, phrase: string)
  {
    i < n <= |pages|
      && (forall j :: i <= j < n ==> pages[j].Extracted?)
      && PageMatches(pages[n - 1].text, phrase)
  }

  /** Page `n` of file `f` is a hit: `f` is a PDF that opens, the scan reaches
      page `n` without a read failure, and its text contains the phrase. */
  ghost predicate PageHit(f: CorpusFile, phrase: string, n: nat)
  {
    IsPdf(f.name) && f.doc.Opened? && HitFrom(f.doc.pages, 0, n, phrase)
  }

  /** Every record carries a page number, and these strictly increase. */
  ghost predicate IncreasingPages(rs: seq<Record>)
  {
    (forall k :: 0 <= k < |rs| ==> rs[k].pageNumber.Number?)
      && forall k, l :: 0 <= k < l < |rs| ==> rs[k].pageNumber.n < rs[l].pageNumber.n
  }

  /** Each record of one file's pages from `i` on names the file and a hit from `i` on. */
  lemma {:induction false} PageRecordsSound(name: string, pages: seq<Page>, i: nat, phrase: string)
    requires i <= |pages|
    ensures forall r :: r in PageRecords(name, pages, i, phrase) ==>
      r.fileName == name && r.pageNumber.Number? && HitFrom(pages, i, r.pageNumber.n, phrase)
    decreases |pages| - i
  {
    if i < |pages| && pages[i].Extracted? {
      PageRecordsSound(name, pages, i + 1, phrase);
      var rest := PageRecords(name, pages, i + 1, phrase);
      var head := if PageMatches(pages[i].text, phrase) then [Record(name, Number(i + 1))] else [];
      var rs := PageRecords(name, pages, i, phrase);
      assert rs == head + rest;
      forall r | r in rs
        ensures r.fileName == name && r.pageNumber.Number? && HitFrom(pages, i, r.pageNumber.n, phrase)
      {
        if r in head {
          assert HitFrom(pages, i, i + 1, phrase);
        } else {
          assert HitFrom(pages, i + 1, r.pageNumber.n, phrase);
        }
      }
    }
  }

  /** The records of one file's pages from index `i` on are for pages after `i`. */
  lemma PageRecordsAfter(name: string, pages: seq<Page>, i: nat, phrase: string)
    requires i <= |pages|
    ensures forall r :: r in PageRecords(name, pages, i, phrase) ==> r.pageNumber.Number? && i < r.pageNumber.n
  {
    PageRecordsSound(name, pages, i, phrase);
  }

  /** The records of one file's pages carry strictly increasing page numbers, so
      no page is reported twice. */
  lemma {:induction false} PageRecordsIncreasing(name: string, pages: seq<Page>, i: nat, phrase: string)
    requires i <= |pages|
    ensures IncreasingPages(PageRecords(name, pages, i, phrase))
    decreases |pages| - i
  {
    if i < |pages| && pages[i].Extracted? {
      PageRecordsIncreasing(name, pages, i + 1, phrase);
      PageRecordsAfter(name, pages, i + 1, phrase);
      var rest := PageRecords(name, pages, i + 1, phrase);
      var head := if PageMatches(pages[i].text, phrase) then [Record(name, Number(i + 1))] else [];
      if PageMatches(pages[i].text, phrase) {
        var rs := PageRecords(name, pages, i, phrase);
        assert rs == [Record(name, Number(i + 1))] + rest;
        forall k | 0 <= k < |rest|
          ensures rest[k].pageNumber.Number? && i + 1 < rest[k].pageNumber.n
        {
          assert rest[k] in rest;
        }
        forall k | 0 <= k < |rs| ensures rs[k].pageNumber.Number? {
          if k > 0 { assert rs[k] == rest[k - 1]; }
        }
        forall k, l | 0 <= k < l < |rs|
          ensures rs[k].pageNumber.n < rs[l].pageNumber.n
        {
          assert rs[l] == rest[l - 1];
          if k > 0 { assert rs[k] == rest[k - 1]; }
        }
      }
    }
  }

  /** Every hit of one file's pages from `i` on has its record. */
  lemma {:induction false} PageRecordsComplete(name: string, pages: seq<Page>, i: nat, phrase: string)
    requires i <= |pages|
    ensures forall n :: HitFrom(pages, i, n, phrase) ==> Record(name, Number(n)) in PageRecords(name, pages, i, phrase)
    decreases |pages| - i
  {
    if i < |pages| && pages[i].Extracted? {
      PageRecordsComplete(name, pages, i + 1, phrase);
      var rest := PageRecords(name, pages, i + 1, phrase);
      var head := if PageMatches(pages[i].text, phrase) then [Record(name, Number(i + 1))] else [];
      assert PageRecords(name, pages, i, phrase) == head + rest;
      forall n: nat | HitFrom(pages, i, n, phrase)
        ensures Record(name, Number(n)) in head + rest
      {
        if n > i + 1 {
          assert HitFrom(pages, i + 1, n, phrase);
        }
      }
    }
  }

  /** One file's records are exactly its hits, each once, in page order. */
  lemma FileRecordsExact(f: CorpusFile, phrase: string)
    ensures var rs := FileRecords(f, phrase);
      && IncreasingPages(rs)
      && (forall k :: 0 <= k < |rs| ==>
            rs[k].fileName == f.name && PageHit(f, phrase, rs[k].pageNumber.n))
      && (forall n :: PageHit(f, phrase, n) ==> Record(f.name, Number(n)) in rs)
  {
    if IsPdf(f.name) && f.doc.Opened? {
      PageRecordsSound(f.name, f.doc.pages, 0, phrase);
      PageRecordsIncreasing(f.name, f.doc.pages, 0, phrase);
      PageRecordsComplete(f.name, f.doc.pages, 0, phrase);
    }
  }

  /** A page appears at most once among one file's records, however often the
      phrase occurs on it. */
  lemma FileRecordsUnique(f: CorpusFile, phrase: string, k: nat, l: nat)
    requires k < l < |FileRecords(f, phrase)|
    ensures FileRecords(f, phrase)[k] != FileRecords(f, phrase)[l]
  {
    FileRecordsExact(f, phrase);
  }

  // ---------------------------------------------------------------------------
  // Corpus order.

  lemma {:induction false} MatchesAppend(c1: seq<CorpusFile>, c2: seq<CorpusFile>, phrase: string)
    ensures Matches(c1 + c2, phrase) == Matches(c1, phrase) + Matches(c2, phrase)
    decreases |c2|
  {
    if c2 != [] {
      var last := c2[|c2| - 1];
      var init := c2[..|c2| - 1];
      assert (c1 + c2)[..|c1 + c2| - 1] == c1 + init;
      MatchesAppend(c1, init, phrase);
    } else {
      assert c1 + c2 == c1;
    }
  }

  /** The records appear file by file in corpus order: those of file `k` come
      after those of every earlier file and before those of every later one. */
  lemma MatchesSplitAt(corpus: seq<CorpusFile>, k: nat, phrase: string)
    requires k < |corpus|
    ensures Matches(corpus, phrase)
      == Matches(corpus[..k], phrase) + FileRecords(corpus[k], phrase) + Matches(corpus[k + 1..], phrase)
  {
    assert corpus == corpus[..k] + [corpus[k]] + corpus[k + 1..];
    MatchesAppend(corpus[..k] + [corpus[k]], corpus[k + 1..], phrase);
    MatchesAppend(corpus[..k], [corpus[k]], phrase);
    assert [corpus[k]][..0] == [];
  }

  /** Every record of the corpus scan is a hit of some file of the corpus. */
  lemma {:induction false} MatchesSound(corpus: seq<CorpusFile>, phrase: string)
    ensures forall r :: r in Matches(corpus, phrase) ==>
      exists k :: (0 <= k < |corpus| && r.fileName == corpus[k].name
        && r.pageNumber.Number? && PageHit(corpus[k], phrase, r.pageNumber.n))
  {
    if corpus != [] {
      var init := corpus[..|corpus| - 1];
      var last := corpus[|corpus| - 1];
      MatchesSound(init, phrase);
      FileRecordsExact(last, phrase);
      forall r | r in Matches(corpus, phrase)
        ensures exists k :: (0 <= k < |corpus| && r.fileName == corpus[k].name
          && r.pageNumber.Number? && PageHit(corpus[k], phrase, r.pageNumber.n))
      {
        if r in Matches(init, phrase) {
          var k :| 0 <= k < |init| && r.fileName == init[k].name
            && r.pageNumber.Number? && PageHit(init[k], phrase, r.pageNumber.n);
          assert corpus[k] == init[k];
        } else {
          var rs := FileRecords(last, phrase);
          var i :| 0 <= i < |rs| && rs[i] == r;
          assert corpus[|corpus| - 1] == last;
        }
      }
    }
  }

  /** Every hit of every file of the corpus is among the records. */
  lemma MatchesComplete(corpus: seq<CorpusFile>, phrase: string, k: nat, n: nat)
    requires k < |corpus| && PageHit(corpus[k], phrase, n)
    ensures Record(corpus[k].name, Number(n)) in Matches(corpus, phrase)
  {
    MatchesSplitAt(corpus, k, phrase);
    FileRecordsExact(corpus[k], phrase);
  }

  /** Some page of some file of the corpus is a hit. */
  ghost predicate HasHit(corpus: seq<CorpusFile>, phrase: string)
  {
    exists k, n :: 0 <= k < |corpus| && PageHit(corpus[k], phrase, n)
  }

  lemma MatchesEmptyIffNoHit(corpus: seq<CorpusFile>, phrase: string)
    ensures Matches(corpus, phrase) == [] <==> !HasHit(corpus, phrase)
    ensures NoMatch !in Matches(corpus, phrase)
  {
    MatchesSound(corpus, phrase);
    if HasHit(corpus, phrase) {
      var k, n :| 0 <= k < |corpus| && PageHit(corpus[k], phrase, n);
      MatchesComplete(corpus, phrase, k, n);
    }
    if Matches(corpus, phrase) != [] {
      var r := Matches(corpus, phrase)[0];
      var k :| 0 <= k < |corpus| && r.fileName == corpus[k].name
        && r.pageNumber.Number? && PageHit(corpus[k], phrase, r.pageNumber.n);
      assert HasHit(corpus, phrase);
    }
  }

  // ---------------------------------------------------------------------------
  // What the source promises of the result table.

  /** Soundness: a row other than the placeholder names a PDF of the corpus and a
      page, within its page count and reached without a read failure, whose
      lower-cased text contains the lower-cased phrase. */
  lemma SearchSound(corpus: seq<CorpusFile>, phrase: string, r: Record)
    requires r in Search(corpus, phrase) && r != NoMatch
    ensures exists k :: (0 <= k < |corpus| && r.fileName == corpus[k].name
      && r.pageNumber.Number? && PageHit(corpus[k], phrase, r.pageNumber.n))
  {
    MatchesSound(corpus, phrase);
  }

  /** Completeness: every hit of every file is reported. */
  lemma SearchComplete(corpus: seq<CorpusFile>, phrase: string, k: nat, n: nat)
    requires k < |corpus| && PageHit(corpus[k], phrase, n)
    ensures Record(corpus[k].name, Number(n)) in Search(corpus, phrase)
  {
    MatchesComplete(corpus, phrase, k, n);
  }

  /** The placeholder is the whole table when nothing matched, and absent otherwise. */
  lemma SearchSentinel(corpus: seq<CorpusFile>, phrase: string)
    ensures Search(corpus, phrase) == [NoMatch] <==> !HasHit(corpus, phrase)
    ensures NoMatch in Search(corpus, phrase) <==> !HasHit(corpus, phrase)
  {
    MatchesEmptyIffNoHit(corpus, phrase);
  }

  /** A corpus without any `.pdf` name yields the placeholder alone. */
  lemma NoPdfNoMatch(corpus: seq<CorpusFile>, phrase: string)
    requires forall k :: 0 <= k < |corpus| ==> !IsPdf(corpus[k].name)
    ensures Search(corpus, phrase) == [NoMatch]
  {
    SearchSentinel(corpus, phrase);
  }

  /** Case-insensitivity: searching for a case variant of the phrase gives the same table. */
  lemma SearchCaseVariant(corpus: seq<CorpusFile>, p: string, q: string)
    requires CaseVariants(p, q)
    ensures Search(corpus, p) == Search(corpus, q)
  {
    CaseVariantsLowerEqual(p, q);
    MatchesLowerPhrase(corpus, p, q);
  }

  lemma {:induction false} MatchesLowerPhrase(corpus: seq<CorpusFile>, p: string, q: string)
    requires Lower(p) == Lower(q)
    ensures Matches(corpus, p) == Matches(corpus, q)
  {
    if corpus != [] {
      MatchesLowerPhrase(corpus[..|corpus| - 1], p, q);
      var f := corpus[|corpus| - 1];
      if IsPdf(f.name) && f.doc.Opened? {
        PageRecordsLowerPhrase(f.name, f.doc.pages, 0, p, q);
      }
    }
  }

  lemma {:induction false} PageRecordsLowerPhrase(name: string, pages: seq<Page>, i: nat, p: string, q: string)
    requires i <= |pages| && Lower(p) == Lower(q)
    ensures PageRecords(name, pages, i, p) == PageRecords(name, pages, i, q)
    decreases |pages| - i
  {
    if i < |pages| {
      PageRecordsLowerPhrase(name, pages, i + 1, p, q);
    }
  }

  // ---------------------------------------------------------------------------
  // Failure isolation.

  /** Replacing one file changes only that file's block of records. */
  lemma ReplaceFile(corpus: seq<CorpusFile>, k: nat, g: CorpusFile, phrase: string)
    requires k < |corpus|
    ensures Matches(corpus[k := g], phrase)
      == Matches(corpus[..k], phrase) + FileRecords(g, phrase) + Matches(corpus[k + 1..], phrase)
  {
    var c := corpus[k := g];
    MatchesSplitAt(c, k, phrase);
    assert c[..k] == corpus[..k];
    assert c[k + 1..] == corpus[k + 1..];
  }

  /** A file that fails to open contributes nothing: the table is the one the
      corpus without that file gives. */
  lemma OpenFailureIsolated(corpus: seq<CorpusFile>, k: nat, phrase: string)
    requires k < |corpus|
    ensures Matches(corpus[k := CorpusFile(corpus[k].name, OpenFailed)], phrase)
      == Matches(corpus[..k] + corpus[k + 1..], phrase)
  {
    ReplaceFile(corpus, k, CorpusFile(corpus[k].name, OpenFailed), phrase);
    MatchesAppend(corpus[..k], corpus[k + 1..], phrase);
  }

  /** The records among `rs` whose page number is at most `m`. */
  function UpToPage(rs: seq<Record>, m: nat): seq<Record>
  {
    if rs == [] then []
    else
      var keep := rs[0].pageNumber.Number? && rs[0].pageNumber.n <= m;
      (if keep then [rs[0]] else []) + UpToPage(rs[1..], m)
  }

  lemma {:induction false} UpToPageAppend(a: seq<Record>, b: seq<Record>, m: nat)
    ensures UpToPage(a + b, m) == UpToPage(a, m) + UpToPage(b, m)
    decreases |a|
  {
    if a == [] {
      assert a + b == b;
    } else {
      assert (a + b)[1..] == a[1..] + b;
      UpToPageAppend(a[1..], b, m);
    }
  }

  /** A read failure on page index `i` drops that page and the later ones of the
      same file, and nothing else: from `j <= i` on, the records are those of
      the failure-free file with page number at most `i`. */
  lemma {:induction false} PageFailureTruncates(name: string, pages: seq<Page>, i: nat, j: nat, phrase: string)
    requires j <= i < |pages|
    ensures PageRecords(name, pages[i := ReadFailed], j, phrase)
      == UpToPage(PageRecords(name, pages, j, phrase), i)
    decreases i - j
  {
    if j == i {
      PageRecordsAfter(name, pages, i, phrase);
      UpToPageNone(PageRecords(name, pages, i, phrase), i);
    } else if pages[j].Extracted? {
      PageFailureTruncates(name, pages, i, j + 1, phrase);
      PageFailureStep(name, pages, i, j, phrase);
    } else {
      assert pages[i := ReadFailed][j] == pages[j];
    }
  }

  /** One step of `PageFailureTruncates`: an extracted page before the failed one
      contributes the same record, if any, on both sides. */
  lemma PageFailureStep(name: string, pages: seq<Page>, i: nat, j: nat, phrase: string)
    requires j < i < |pages| && pages[j].Extracted?
    requires PageRecords(name, pages[i := ReadFailed], j + 1, phrase)
      == UpToPage(PageRecords(name, pages, j + 1, phrase), i)
    ensures PageRecords(name, pages[i := ReadFailed], j, phrase)
      == UpToPage(PageRecords(name, pages, j, phrase), i)
  {
    var failed := pages[i := ReadFailed];
    assert failed[j] == pages[j];
    var rest := PageRecords(name, pages, j + 1, phrase);
    var kept := PageRecords(name, failed, j + 1, phrase);
    if PageMatches(pages[j].text, phrase) {
      var head := [Record(name, Number(j + 1))];
      assert PageRecords(name, pages, j, phrase) == head + rest;
      assert PageRecords(name, failed, j, phrase) == head + kept;
      UpToPageAppend(head, rest, i);
      assert head[1..] == [];
      assert UpToPage(head, i) == head + UpToPage([], i);
    } else {
      assert PageRecords(name, pages, j, phrase) == rest;
      assert PageRecords(name, failed, j, phrase) == kept;
    }
  }

  /** `UpToPage` keeps exactly the records for pages `1..m`, in their order. */
  lemma {:induction false} UpToPageMembers(rs: seq<Record>, m: nat)
    ensures forall x :: x in UpToPage(rs, m) <==> x in rs && x.pageNumber.Number? && x.pageNumber.n <= m
  {
    if rs != [] {
      UpToPageMembers(rs[1..], m);
      assert rs == [rs[0]] + rs[1..];
    }
  }

  lemma {:induction false} UpToPageNone(rs: seq<Record>, m: nat)
    requires forall x :: x in rs ==> x.pageNumber.Number? && x.pageNumber.n > m
    ensures UpToPage(rs, m) == []
  {
    if rs != [] {
      assert rs[0] in rs;
      assert forall x :: x in rs[1..] ==> x in rs;
      UpToPageNone(rs[1..], m);
    }
  }

  /** A page read failure inside file `k` keeps that file's records for earlier
      pages, drops the rest of that file, and leaves every other file's records
      as they were. */
  lemma PageFailureIsolated(corpus: seq<CorpusFile>, k: nat, i: nat, phrase: string)
    requires k < |corpus| && corpus[k].doc.Opened? && i < |corpus[k].doc.pages|
    ensures var f := corpus[k];
      var g := CorpusFile(f.name, Opened(f.doc.pages[i := ReadFailed]));
      Matches(corpus[k := g], phrase)
        == Matches(corpus[..k], phrase) + UpToPage(FileRecords(f, phrase), i) + Matches(corpus[k + 1..], phrase)
  {
    var f := corpus[k];
    var g := CorpusFile(f.name, Opened(f.doc.pages[i := ReadFailed]));
    ReplaceFile(corpus, k, g, phrase);
    if IsPdf(f.name) {
      PageFailureTruncates(f.name, f.doc.pages, i, 0, phrase);
    }
  }

  // ---------------------------------------------------------------------------
  // Examples.

  /** Case-insensitivity on one page: `"TEST"` is found in `"a tEsT"`. */
  lemma TestFindsMixedCase()
    ensures PageMatches("a tEsT", "TEST")
  {
  }

  /** The name filter is case-sensitive: `report.PDF` is not opened. */
  lemma UpperCaseExtensionSkipped(doc: Document, phrase: string)
    ensures Search([CorpusFile("report.PDF", doc)], phrase) == [NoMatch]
  {
    assert "report.PDF"[6..] != PdfSuffix;
    NoPdfNoMatch([CorpusFile("report.PDF", doc)], phrase);
  }

  /** One PDF whose pages 2 and 5 contain the phrase, page 5 possibly many
      times: exactly two rows, for pages 2 and 5. */
  lemma PagesTwoAndFive(name: string, t1: string, t2: string, t3: string, t4: string, t5: string, phrase: string)
    requires IsPdf(name)
    requires PageMatches(t2, phrase) && PageMatches(t5, phrase)
    requires !PageMatches(t1, phrase) && !PageMatches(t3, phrase) && !PageMatches(t4, phrase)
    ensures var pages := [Extracted(t1), Extracted(t2), Extracted(t3), Extracted(t4), Extracted(t5)];
      Search([CorpusFile(name, Opened(pages))], phrase) == [Record(name, Number(2)), Record(name, Number(5))]
  {
    var pages := [Extracted(t1), Extracted(t2), Extracted(t3), Extracted(t4), Extracted(t5)];
    var corpus := [CorpusFile(name, Opened(pages))];
    FivePages(name, pages, phrase);
    assert corpus[..0] == [];
    assert Matches(corpus, phrase) == Matches([], phrase) + FileRecords(corpus[0], phrase);
  }

  lemma FivePages(name: string, pages: seq<Page>, phrase: string)
    requires |pages| == 5 && forall j :: 0 <= j < 5 ==> pages[j].Extracted?
    requires PageMatches(pages[1].text, phrase) && PageMatches(pages[4].text, phrase)
    requires !PageMatches(pages[0].text, phrase) && !PageMatches(pages[2].text, phrase)
    requires !PageMatches(pages[3].text, phrase)
    ensures PageRecords(name, pages, 0, phrase) == [Record(name, Number(2)), Record(name, Number(5))]
  {
    var five := [Record(name, Number(5))];
    assert PageRecords(name, pages, 5, phrase) == [];
    assert PageRecords(name, pages, 4, phrase) == five;
    assert PageRecords(name, pages, 3, phrase) == five;
    assert PageRecords(name, pages, 2, phrase) == five;
    assert PageRecords(name, pages, 1, phrase) == [Record(name, Number(2))] + five;
  }
}
