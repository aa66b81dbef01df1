# gdrivepdf: folder-link parsing and phrase search, modelled in Dafny

The application searches a set of PDF documents for a phrase. The documents
come from a Google Drive folder or from an uploaded ZIP archive. It reports
every (file name, page number) where the phrase occurs, ignoring case. This
project models the two pieces of logic in `app.py` and proves properties of
them:

- `extract_folder_id` (module `FolderLink`, `folder_link.dfy`). It pulls the
  folder id out of a Drive link with `re.search(r'/folders/([a-zA-Z0-9_-]+)', link)`.
  The model writes out the regex semantics. `re.search` tries start positions
  from left to right and takes the first one where `/folders/` is followed by
  at least one id character. The greedy `+` then takes the longest run of id
  characters. When nothing matches, the model returns the error value
  `ValueError("Invalid Google Drive folder link.")` instead of raising.
- `search_phrase_in_pdfs` (module `PhraseSearch`, `phrase_search.dfy`). The
  corpus is a sequence of files in walk order. Each file has a base name and
  an open outcome: either a failure, or a list of pages. Each page is either
  extracted text or a read failure. The method `SearchPhraseInPdfs` keeps the
  loop over the files. Its helper method `ScanFile` holds the loop over one
  file's pages, with a `break` where the `try` abandons the file, and appends
  to the results. The method is proved equal to the specification function
  `Search`.
  Lemmas about `Search` state soundness, completeness, uniqueness, order,
  failure isolation, the placeholder row and case-insensitivity.
- Module `Text` (`text.dfy`) gives ASCII `str.lower`, substring containment
  (`in`) and `str.endswith`.

The per-file failure policy is usually described as "the file is skipped".
The code does less than that. When a later page of a file fails to read, the
records already found in that file stay, because `results.append` runs inside
the `try`. The model follows the code: a page failure drops only that page and
the pages after it in the same file.

## Model

| member | source | states |
|---|---|---|
| `Text.LowerChar` | app.py:113 | lower-casing maps `A`-`Z` to `a`-`z` (code point + 32), leaves every other character alone, and never returns an upper-case letter |
| `Text.Lower` | app.py:113 | `s.lower()` keeps the length and lower-cases each character in place |
| `Text.LowerIdempotent` | app.py:113 | lower-casing already lower-cased text changes nothing |
| `Text.CaseVariantsLowerEqual` | app.py:113 | two strings that differ only in the case of letters lower-case to the same string |
| `Text.ContainsIffOccurs` | app.py:113 | `needle in hay` holds exactly when some position of `hay` starts a copy of `needle` |
| `FolderLink.IdRunLength` | app.py:81 | the greedy `[a-zA-Z0-9_-]+`: the run stays in bounds, every character in it is an id character, and the next character is not one (or the string ends) |
| `FolderLink.FirstMatch` | app.py:81 | `re.search` tries positions left to right: the result matches the pattern and no earlier position does; `None` means no position at all matches |
| `FolderLink.ExtractFolderId` | app.py:80-85 | succeeds exactly when some position holds `/folders/` followed by an id character; otherwise returns the invalid-link `ValueError`; on success the id is non-empty and made only of id characters |
| `FolderLink.ExtractFolderIdIsCapture` | app.py:81-83 | the result is `Ok(id)` exactly when `id` is the maximal run of id characters right after the leftmost match of `/folders/` plus an id character; so the capture group is the only such id |
| `FolderLink.RoundTrip` | app.py:81-83 | `prefix + "/folders/" + id + suffix` yields `id` when the marker occurs in `prefix + "/folders/"` only at its end, `id` is a non-empty id, and `suffix` is empty or starts with a non-id character |
| `FolderLink.RoundTripPlainPrefix` | app.py:81-83 | the same round trip holds for any prefix that contains no `/folders/` and does not end with `/folders` |
| `FolderLink.StraddlingPrefix` | app.py:81-83 | the `/folders` condition is needed: `"/folders" + "/folders/abc"` yields `folders`, not `abc` |
| `FolderLink.SkipsEmptyOccurrence` | app.py:81-83 | in `/folders//folders/abc` the first `/folders/` has no id after it, so the search goes on and yields `abc` |
| `FolderLink.MarkerWithoutId` | app.py:81-85 | a link whose only `/folders/` ends the string is rejected with the invalid-link error |
| `PhraseSearch.SearchPhraseInPdfs` | app.py:102-123 | the loop over the files, with the name filter and the final placeholder, produces exactly `Search(corpus, phrase)` |
| `PhraseSearch.ScanFile` | app.py:107-120 | the page loop inside the `try` appends exactly the file's records to the results so far; a failure to open, or to read a page, ends the loop and keeps what was appended |
| `PhraseSearch.MatchesSnoc` | app.py:104-105 | visiting one more file appends that file's records to those of the files visited before |
| `PhraseSearch.PageRecordsSound` | app.py:110-117 | each record for a file's pages from index `i` on names the file and gives a page reached from `i` without a read failure whose lower-cased text contains the lower-cased phrase |
| `PhraseSearch.PageRecordsAfter` | app.py:110-116 | the records for a file's pages from index `i` on are all for page numbers greater than `i` |
| `PhraseSearch.PageRecordsIncreasing` | app.py:110-117 | page numbers in one file's records strictly increase |
| `PhraseSearch.PageRecordsComplete` | app.py:110-117 | every page reached without a read failure that contains the phrase has its record |
| `PhraseSearch.FileRecordsExact` | app.py:106-117 | a file's records are exactly its hits: it is named `.pdf`, it opens, the page is within the page count and reached, and the text matches; one record per hit, in increasing page order |
| `PhraseSearch.FileRecordsUnique` | app.py:110-117 | no page of a file is reported twice, however often the phrase occurs on it |
| `PhraseSearch.MatchesAppend` | app.py:104-105 | the scan of two corpora in a row is the scan of the first followed by the scan of the second |
| `PhraseSearch.MatchesSplitAt` | app.py:104-117 | the records of file `k` come after those of all earlier files and before those of all later files |
| `PhraseSearch.MatchesSound` | app.py:106-117 | every record found in the corpus scan is a hit of some file of the corpus |
| `PhraseSearch.MatchesComplete` | app.py:106-117 | every hit of every file of the corpus is among the records |
| `PhraseSearch.MatchesEmptyIffNoHit` | app.py:104-121 | no records are found exactly when no page of any file is a hit, and the placeholder row is never one of the found records |
| `PhraseSearch.SearchSound` | app.py:106-117 | every row other than the placeholder names a `.pdf` file of the corpus and a page `n` with `1 <= n <=` page count, reached without a failure, whose lower-cased text contains the lower-cased phrase |
| `PhraseSearch.SearchComplete` | app.py:110-117 | every hit of every file appears in the table |
| `PhraseSearch.SearchSentinel` | app.py:121-122 | the table is exactly `[("No match found", "-")]` when no page is a hit; otherwise the placeholder row does not appear |
| `PhraseSearch.NoPdfNoMatch` | app.py:106 | a corpus with no name ending in `.pdf` gives the placeholder row alone |
| `PhraseSearch.SearchCaseVariant` | app.py:113 | replacing the phrase by a case variant of it gives the same table |
| `PhraseSearch.MatchesLowerPhrase` | app.py:113 | two phrases that lower-case to the same string find the same records |
| `PhraseSearch.PageRecordsLowerPhrase` | app.py:113 | for one file's pages, two phrases that lower-case to the same string find the same records |
| `PhraseSearch.ReplaceFile` | app.py:104-120 | changing one file of the corpus changes only that file's block of records |
| `PhraseSearch.OpenFailureIsolated` | app.py:108-120 | a file that fails to open contributes no records: the table is the same as for the corpus without that file |
| `PhraseSearch.PageFailureTruncates` | app.py:108-120 | a read failure on page index `i` keeps exactly the records the failure-free file has for pages `1..i` |
| `PhraseSearch.PageFailureIsolated` | app.py:108-120 | a page read failure in file `k` keeps that file's records for earlier pages, drops the rest of that file, and leaves every other file's records unchanged |
| `PhraseSearch.TestFindsMixedCase` | app.py:113 | the phrase `TEST` is found in the text `a tEsT` |
| `PhraseSearch.UpperCaseExtensionSkipped` | app.py:106 | a file named `report.PDF` is not opened, so it yields only the placeholder row |
| `PhraseSearch.FivePages` | app.py:110-117 | five readable pages of which only the second and fifth contain the phrase give exactly the records for pages 2 and 5 |
| `PhraseSearch.PagesTwoAndFive` | app.py:110-122 | a PDF whose pages 2 and 5 contain the phrase gives exactly the rows for pages 2 and 5 |

## Left out

- `download_folder` (app.py:87-94): a wrapper around the network download of `gdown.download_folder` and `os.path.dirname`.
- `extract_zip` (app.py:96-100): creates a temporary directory and extracts the ZIP archive into it. This is file I/O only.
- The Streamlit interface (app.py:125-168): the source choice, the input checks, `st.stop`, the warnings and the table rendering. The final `shutil.rmtree` cleanup is left out too.
- The commented-out first version (app.py:1-65): it repeats the live code.
- The directory walk: `os.walk` order becomes the order of the corpus sequence. `os.path.join` and `os.path.basename` become the file's base name, which is stored directly.
- PDF handling: `fitz.open`, `load_page` and `get_text` become the given open and page outcomes. `doc.close()` and the warning printed for a failed file have no counterpart.
- The DataFrame: the result is a plain sequence of records. Its "Page Number" column, which mixes integers with the string `-`, becomes the `PageNumber` datatype (`Number(n)` or `Dash`).
- `Text.Lower`: models ASCII lower-casing only. Python's `str.lower` also folds non-ASCII letters, and can change the length of a string. Case-insensitivity is proved for this ASCII function.
- Two files with the same base name in different directories yield rows that cannot be told apart. For that reason "each hit appears exactly once" is stated per file (`FileRecordsUnique`), together with the file-by-file order (`MatchesSplitAt`).
- The empty phrase is not excluded: the caller rejects it (app.py:142), but the model accepts it, and then every page the scan reaches matches.
