# Withholding-tax certificate splitter, in Dafny

This project models the core of a service that splits a PDF of Thai
withholding-tax certificates (form 50 Twi) into one single-page PDF per
taxpayer. Each page is filed under the 13-digit citizen/tax identifier
printed on it, in a directory shared by all jobs of the same year. Three
parts of `app/services/pdf_service.py` are modelled:

- **`extract_thai_id`**: the pattern `\b\d(?:\s*[-]?\s*\d){12}\b`, scanned
  left to right the way `re.finditer` does it. Each match is normalised by
  deleting whitespace and dashes. Then the payee identifier is chosen: the
  first match after the keyword "ผู้ถูกหักภาษี", else the second match, else
  the first.
  - `Finditer` states the scan for any anchored matcher.
  - `RegexClasses` holds `\d`, `\s` and the word characters behind `\b`.
  - `ThaiId` holds the pattern, the normalisation and the choice. The choice
    appears both as the function `ThaiIdOf` and as the method
    `ExtractThaiId`, which keeps the source's two loops.
- **`extract_year_from_job_id`** (`Year`): the leftmost four consecutive
  digits of the job identifier, or `"unknown_year"`.
- **`process_pdf_job`** (`Job`): works on an `OutputRoot` object holding a
  map from year directory to files.
  - A file holds `PageOf(job, i)` (the single-page PDF of page `i`) or
    `Truncated` (opened with `"wb"`, then the write raised).
  - Inputs stand in for what the PDF libraries and the disk would say:
    whether the input exists, the text of each page, the page count, and
    where an exception is raised, if anywhere.
  - `ProcessPdfJob` is proved equal to the function `Process`. The lemmas
    then state what `Process` promises: the missing-input case, the
    success listing, last writer wins, untouched files, partial lists on
    failure, and that a clean re-run always repairs a failed one.

## Model

| member | source | states |
|---|---|---|
| Finditer.ScanFrom | app/services/pdf_service.py:29 | `re.finditer`: try the pattern at each position from the left and resume at the end of each match; every match starts at or after the scan's start. Its meaning is stated by the next two rows |
| Finditer.ScanFromIsLeftmostScan | app/services/pdf_service.py:29 | the scan yields matches that are each the match anchored at its start, do not overlap, and leave no matching position untried before, between or after them |
| Finditer.LeftmostScanIsScanFrom | app/services/pdf_service.py:29 | any sequence meeting that leftmost, non-overlapping description is the scan's output (the two definitions agree) |
| Finditer.ScanFromOrdered | app/services/pdf_service.py:29 | the scan's matches are non-empty, non-overlapping and ordered by strictly increasing start |
| ThaiId.Strip | app/services/pdf_service.py:34 | `re.sub(r"[\s-]", "", raw)`: deletes every whitespace character and dash and never lengthens the string; see the next two rows |
| ThaiId.StripIdempotent | app/services/pdf_service.py:34 | deleting whitespace and dashes a second time changes nothing |
| ThaiId.StripConcat | app/services/pdf_service.py:34 | the normalisation works character by character: normalising a concatenation concatenates the normalised parts |
| ThaiId.GapEnd | app/services/pdf_service.py:17 | the gap `\s*[-]?\s*` matched greedily from a position: its end never passes a digit (ThaiId.GapStopsAtDigit) and it holds only separators |
| ThaiId.DigitsFrom | app/services/pdf_service.py:17 | `(?:\s*[-]?\s*\d){k}` at a position: where it ends, if it matches, at least k characters on |
| ThaiId.MatchEnd | app/services/pdf_service.py:17 | the whole pattern anchored at p: a digit with no word character before it, 12 more gap-separated digits, and no word character after; a match spans at least 13 characters |
| ThaiId.MatchAt | app/services/pdf_service.py:17 | the match object at p exists exactly when the pattern matches there, starts at p, and its text is the matched slice |
| ThaiId.MatchAtShape | app/services/pdf_service.py:17 | a match at p starts with a digit not preceded by a word character, is followed by 12 more digits with legal gaps, and ends at end of text or before a non-word character |
| ThaiId.MatchNormalises | app/services/pdf_service.py:17-35 | every match normalises to exactly 13 digits |
| ThaiId.GapStopsAtDigit | app/services/pdf_service.py:17 | a gap starting at or before a digit ends at or before it: gaps never contain digits |
| ThaiId.DigitsFromEntersRun | app/services/pdf_service.py:17 | the k gap-separated digits read from a position at or before a digit, followed by k - 1 more digits, end at most k characters past that digit |
| ThaiId.MatchBeforeLongRunEndsBefore | app/services/pdf_service.py:17 | a match anchored before a run of 14 or more digits ends before the run starts: it cannot reach into the run |
| ThaiId.NoMatchInLongRun | app/services/pdf_service.py:17-29 | a run of 14 or more adjacent digits yields no match: every match ends before the run or starts after it, because the trailing `\b` fails wherever the 13th digit lands inside the run |
| ThaiId.FindAll | app/services/pdf_service.py:29 | `list(re.finditer(THAI_ID_REGEX, text))`: the scan of the identifier pattern over the whole text; its meaning is stated by ThaiId.FindAllIsLeftmostScan |
| ThaiId.FindAllIsLeftmostScan | app/services/pdf_service.py:29 | the matches of a page text are its leftmost non-overlapping matches, in strictly increasing order of start |
| ThaiId.KeepThirteen | app/services/pdf_service.py:32-36 | every kept candidate has a 13-character id |
| ThaiId.ValidIds | app/services/pdf_service.py:30-36 | `valid_ids`: the matches, normalised and filtered by length; ThaiId.ValidIdsAreAllMatches states it keeps them all |
| ThaiId.ValidIdsAreAllMatches | app/services/pdf_service.py:29-36 | the length filter rejects nothing: `valid_ids` is every match, with its start and its normalised digits, which are all digits |
| ThaiId.IndexOf | app/services/pdf_service.py:44 | `str.find` returns the first occurrence of the keyword at or after the start position, or none when it does not occur |
| ThaiId.FirstAfter | app/services/pdf_service.py:47-49 | returns the first candidate starting strictly after the keyword index, or none when every candidate starts at or before it |
| ThaiId.ThaiIdOf | app/services/pdf_service.py:19-57 | a chosen identifier has 13 characters |
| ThaiId.ExtractThaiId | app/services/pdf_service.py:19-57 | the two loops (filter, then early return after the keyword) compute exactly `ThaiIdOf` |
| ThaiId.ThaiIdIsAMatch | app/services/pdf_service.py:33-57 | a result is 13 digits and is the normalised text of one of the page's matches |
| ThaiId.NoIdIffNoMatch | app/services/pdf_service.py:25-39 | there is no result exactly when the text is absent or has no match |
| ThaiId.PayeeAfterKeyword | app/services/pdf_service.py:43-49 | when the keyword occurs, the first match starting strictly after its first occurrence is the result |
| ThaiId.FallbackWithoutPayee | app/services/pdf_service.py:51-57 | when no match starts after any occurrence of the keyword: two or more matches give the second, one gives that one, none gives no result |
| Year.SearchFrom | app/services/pdf_service.py:66 | `re.search` for four digits returns the leftmost window at or after the start, or none when there is no window |
| Year.YearOf | app/services/pdf_service.py:59-69 | the year is the leftmost four-digit window; it is "unknown_year" exactly when the job id has no such window; otherwise it is four digits |
| Year.YearExamples | app/services/pdf_service.py:61 | "tax-2568-1" gives "2568", "12345" gives "1234", a job id without digits gives "unknown_year" |
| Job.PageLabel | app/services/pdf_service.py:98-99 | `cid if cid else "unknown"`: the identifier found on a page's text, or "unknown" |
| Job.PageIds | app/services/pdf_service.py:95-99 | `page_ids` after the text pass: one label per page text, as many as texts |
| Job.PageIdsAt | app/services/pdf_service.py:96-99 | the text pass labels page i with the identifier found on its text, or "unknown" |
| Job.FileNameAt | app/services/pdf_service.py:113-116 | the file name of page i: its label plus ".pdf", or "unknown.pdf" beyond the text pass |
| Job.FileNames | app/services/pdf_service.py:113-132 | `created_files` after n pages: n names, page i's name at index i (Job.FileNamesAt) |
| Job.FileNamesAt | app/services/pdf_service.py:113-116 | page i of the page pass is written to its label plus ".pdf", and pages beyond the text pass get "unknown.pdf" |
| Job.OutputRoot.MakeYearDir | app/services/pdf_service.py:84 | `mkdir(exist_ok=True)` creates an empty year directory if it is missing and leaves an existing one untouched |
| Job.OutputRoot.OpenForWrite | app/services/pdf_service.py:129 | opening with "wb" creates or empties exactly that one file |
| Job.OutputRoot.WriteFile | app/services/pdf_service.py:130 | writing sets exactly that one file |
| Job.ClassifyPages | app/services/pdf_service.py:95-99 | the text-pass loop builds the page labels, one per page in order |
| Job.WritePage | app/services/pdf_service.py:108-130 | one page: when the run raises on this page it stops before the open (file untouched) or after it (file emptied); otherwise exactly that file now holds the page, and nothing else changes |
| Job.SplitPages | app/services/pdf_service.py:108-132 | the page-pass loop writes page i into its file in page order, leaves every other year directory alone, and stops at the fault point with the files written so far |
| Job.WritePages | app/services/pdf_service.py:122-132 | the year directory after page i was written to its name, for each page in order, overwriting; stated by Job.WritePagesLastWins, Job.WritePagesOutside, Job.WritePagesListed |
| Job.PagePass | app/services/pdf_service.py:103-148 | the page pass and the `except` around it: success with all names, or, at a fault at page k, failed with the first k names and page k's file emptied if opened (Job.PagePassFaultAt) |
| Job.Process | app/services/pdf_service.py:71-148 | the whole job: existence check before `mkdir`, then the text pass and the page pass inside the `try`; what it promises is stated by the Job lemma rows below |
| Job.ProcessPdfJob | app/services/pdf_service.py:71-148 | the job returns exactly the result of `Process` and leaves the output root exactly as `Process` says |
| Job.PagePassFaultAt | app/services/pdf_service.py:141-148 | a fault at page k returns failed with the first k file names, after writing pages before k and, if the file was opened, emptying page k's file |
| Job.WritePagesLastWins | app/services/pdf_service.py:122-132 | when several pages share a file name, the file holds the last of those pages |
| Job.WritePagesOutside | app/services/pdf_service.py:86-87 | a file no page writes keeps its content and exists only if it existed before |
| Job.WritePagesListed | app/services/pdf_service.py:129-132 | every file name the pass writes to exists afterwards |
| Job.WritePagesAgree | app/services/pdf_service.py:122-132 | two directories that agree on every file the pass does not write agree after the pass |
| Job.MissingInputTouchesNothing | app/services/pdf_service.py:72-81 | a missing input returns failed with "File not found: <inbox>/<job>.pdf", no page count and no file list, and creates nothing, not even the year directory |
| Job.TextFaultLeavesEmptyList | app/services/pdf_service.py:89-99 | a fault in the text pass returns failed with an empty file list, yet the year directory exists and every existing directory is unchanged |
| Job.SuccessListsEveryPage | app/services/pdf_service.py:99-139 | a clean run returns success with the page count (also for 0 pages) and no error, and lists exactly n files, page i's being its extracted identifier (or "unknown") plus ".pdf", in order and with repeats; every listed file exists in the year directory |
| Job.SuccessLastPageWins | app/services/pdf_service.py:122-132 | after a clean run, a file holds the last page filed under its name |
| Job.SuccessKeepsUnnamedFiles | app/services/pdf_service.py:84-87 | a clean run leaves every file no page is named after as it was, and every other year directory untouched |
| Job.PageFaultKeepsEarlierPages | app/services/pdf_service.py:129-148 | a fault at page k (k = 0 included) returns failed with the error, no page count and exactly the k earlier file names in order; each of those files exists; page k's file is left empty when it was opened, even when an earlier page listed the same name |
| Job.PageFaultKeepsEarlierContent | app/services/pdf_service.py:122-148 | nothing written before the fault is rolled back: a file holds the last page before k filed under its name, unless page k was opened under that name |
| Job.PagePassOnlyWritesItsNames | app/services/pdf_service.py:122-132 | whether or not it faults, the page pass changes no file outside its own page names |
| Job.PagePassRetry | app/services/pdf_service.py:122-132 | a clean page pass over whatever an earlier pass, failed or not, left in the year directory returns and leaves the same as a clean pass over the original directory |
| Job.RetryMatchesCleanRun | app/services/pdf_service.py:84-132 | running a job again without a fault, after a run that failed anywhere or succeeded, gives the same result and output as one clean run |

## Left out

- PDF reading and writing (pdfplumber, pypdf) are not modelled. Page texts are an input sequence. The page count of the second pass is a separate input, so the two passes may disagree, as they can in the program. A written file is the index of the source page it holds.
- Logging is left out; it has no effect on results.
- The filesystem helpers `cleanup_output_directory`, `list_inbox_files`, `delete_inbox_file`, `list_output_files` and `list_output_years` (app/services/pdf_service.py:150-204) are thin wrappers over library calls and are not part of this model.
- app/api/routes.py, app/core/config.py and app/main.py are not part of this model. The inbox directory is a parameter; the output root is the `OutputRoot` object.
- `mkdir` failing (app/services/pdf_service.py:84) is not modelled. It sits outside the `try`, so it would propagate rather than return a failed result.
- Job.ProcessPdfJob: exceptions are modelled only at three points: during the text pass, before a page's file is opened, and after it was opened. An exception inside the text pass discards `page_ids`, so where in that pass it happens cannot be observed. `Truncated` stands for any incomplete content a failed write leaves.
- Job.ProcessPdfJob: a fault whose page index is at or beyond the page count never fires, and the run succeeds.
- The error text of a caught exception (`str(e)`) is an input carried by the fault.
- Concurrent jobs writing into the same year directory are not modelled.
- RegexClasses: `\d` is ASCII and Thai digits. The word characters are ASCII letters, digits, `_` and Thai letters. Alphanumeric characters outside ASCII and the Thai block, which Python also accepts (accented Latin letters such as é or ß, other decimal digits, numerics such as ² or ½ for `\w`), are not modelled; so `"é1234567890123"` matches in the model but not in Python. `\s` is the full set for which Python's `str.isspace` holds.
- Path construction from the job id and its path-traversal implications are not modelled. The input path is `<inbox>/<job>.pdf` as a string.
