/**
 * The job splitter: `process_pdf_job`. It resolves the job's year, creates the
 * shared year directory, classifies every page by the identifier on it, then
 * writes one single-page file per page into the year directory, named after
 * the page's identifier and overwriting whatever file had that name.
 *
 * The PDF libraries are not modelled: the text pass is given as the sequence
 * of page texts, the page pass as its page count, and a written file as the
 * index of the source page it holds. Where an exception is raised is an input.
 */
module Job {
  import opened Wrappers
  import ThaiId
  import Year

  /** What a file in a year directory holds. */
  datatype Content =
    | PageOf(job: string, index: nat)  // a one-page PDF of page `index` of the job's source
    | Truncated                        // emptied by `open(..., "wb")`, then the write raised

  type Directory = map<string, Content>

  /** The output root: year directory name to its files. */
  type Tree = map<string, Directory>

  datatype Status = Success | Failed

  /** The dictionary `process_pdf_job` returns; a key it leaves out is `None`. */
  datatype JobResult = JobResult(
    jobId: string,
    status: Status,
    pageCount: Option<nat>,
    createdFiles: Option<seq<string>>,
    error: Option<string>)

  /** Where, if anywhere, the run raises an exception (caught by the `except` at the end). */
  datatype Fault =
    | NoFault
    | TextPassFault(message: string)                       // opening or reading text of the source
    | PageFault(page: nat, afterOpen: bool, message: string) // while producing page `page`'s file

  datatype Outcome = Outcome(result: JobResult, tree: Tree)

  const Unknown: string := "unknown"

  /** `INBOX_DIR / f"{job_id}.pdf"` */
  function InputPath(inboxDir: string, jobId: string): string {
    inboxDir + "/" + jobId + ".pdf"
  }

  /** `cid if cid else "unknown"` */
  function PageLabel(text: Option<string>): string {
    match ThaiId.ThaiIdOf(text)
    case Some(id) => id
    case None => Unknown
  }

  /** `page_ids` after the text pass. */
  function PageIds(texts: seq<Option<string>>): (ids: seq<string>)
    ensures |ids| == |texts|
  {
    if texts == [] then [] else PageIds(texts[..|texts| - 1]) + [PageLabel(texts[|texts| - 1])]
  }

  /** The file name page `i` of the page pass gets; pages beyond the text pass are "unknown". */
  function FileNameAt(ids: seq<string>, i: nat): string {
    (if i < |ids| then ids[i] else Unknown) + ".pdf"
  }

  /** `created_files` after `n` pages were written. */
  function FileNames(ids: seq<string>, n: nat): (names: seq<string>)
    ensures |names| == n
  {
    if n == 0 then [] else FileNames(ids, n - 1) + [FileNameAt(ids, n - 1)]
  }

  /** Page `i`'s label is the identifier found on its text, or "unknown". */
  lemma {:induction false} PageIdsAt(texts: seq<Option<string>>, i: nat)
    requires i < |texts|
    ensures PageIds(texts)[i] == PageLabel(texts[i])
    decreases |texts|
  {
    if i < |texts| - 1 {
      PageIdsAt(texts[..|texts| - 1], i);
    }
  }

  /** Page `i` of the page pass is written to the file named after the label of page `i`. */
  lemma {:induction false} FileNamesAt(ids: seq<string>, n: nat, i: nat)
    requires i < n
    ensures FileNames(ids, n)[i] == FileNameAt(ids, i)
    decreases n
  {
    if i < n - 1 {
      FileNamesAt(ids, n - 1, i);
    }
  }

  /** The directory after page `i` was written to `names[i]`, for each `i` in order. */
  function WritePages(d: Directory, job: string, names: seq<string>): Directory
  {
    if names == [] then d
    else WritePages(d, job, names[..|names| - 1])[names[|names| - 1] := PageOf(job, |names| - 1)]
  }

  /** Writing one more page is one more update of the directory. */
  lemma WritePagesSnoc(d: Directory, job: string, names: seq<string>, name: string)
    ensures WritePages(d, job, names + [name]) == WritePages(d, job, names)[name := PageOf(job, |names|)]
  {
    assert (names + [name])[..|names|] == names;
  }

  /** The first `k` of `n` file names are the file names of the first `k` pages. */
  lemma FileNamesPrefix(ids: seq<string>, k: nat, n: nat)
    requires k <= n
    ensures FileNames(ids, n)[..k] == FileNames(ids, k)
    decreases n - k
  {
    if k < n {
      FileNamesPrefix(ids, k, n - 1);
      assert FileNames(ids, n)[..n - 1] == FileNames(ids, n - 1);
    }
  }

  /** What the page pass returns and the year directory it leaves behind. */
  datatype PassOutcome = PassOutcome(result: JobResult, dir: Directory)

  /**
   * The page pass over `pageCount` pages, writing into the year directory `d0`:
   * page `i` goes to `FileNameAt(ids, i)` unless the run raises first.
   */
  function PagePass(d0: Directory, jobId: string, ids: seq<string>, pageCount: nat, fault: Fault): PassOutcome
  {
    var names := FileNames(ids, pageCount);
    if fault.PageFault? && fault.page < pageCount then
      var k := fault.page;
      var written := WritePages(d0, jobId, names[..k]);
      var d := if fault.afterOpen then written[names[k] := Truncated] else written;
      PassOutcome(JobResult(jobId, Failed, None, Some(names[..k]), Some(fault.message)), d)
    else
      PassOutcome(JobResult(jobId, Success, Some(pageCount), Some(names), None), WritePages(d0, jobId, names))
  }

  /** What `process_pdf_job` returns and what the output root then holds. */
  function Process(tree: Tree, jobId: string, inboxDir: string, inputExists: bool,
                   texts: seq<Option<string>>, pageCount: nat, fault: Fault): Outcome
  {
    var year := Year.YearOf(jobId);
    if !inputExists then
      Outcome(JobResult(jobId, Failed, None, None, Some("File not found: " + InputPath(inboxDir, jobId))), tree)
    else
      var d0 := if year in tree then tree[year] else map[];
      if fault.TextPassFault? then
        Outcome(JobResult(jobId, Failed, None, Some([]), Some(fault.message)), tree[year := d0])
      else
        var pass := PagePass(d0, jobId, PageIds(texts), pageCount, fault);
        Outcome(pass.result, tree[year := pass.dir])
  }

  /** The page pass when the run raises while producing page `k`. */
  lemma PagePassFaultAt(d0: Directory, jobId: string, ids: seq<string>, n: nat, fault: Fault, k: nat)
    requires fault.PageFault? && fault.page == k < n
    ensures PagePass(d0, jobId, ids, n, fault) ==
      var written := WritePages(d0, jobId, FileNames(ids, k));
      PassOutcome(JobResult(jobId, Failed, None, Some(FileNames(ids, k)), Some(fault.message)),
                  if fault.afterOpen then written[FileNameAt(ids, k) := Truncated] else written)
  {
    FileNamesPrefix(ids, k, n);
    FileNamesAt(ids, n, k);
  }

  /** Writing page `|names|` after the first pages is one more update of the year directory. */
  lemma WriteNext(t: Tree, year: string, d0: Directory, job: string, names: seq<string>, name: string)
    ensures t[year := WritePages(d0, job, names)][year := WritePages(d0, job, names)[name := PageOf(job, |names|)]]
         == t[year := WritePages(d0, job, names + [name])]
  {
    WritePagesSnoc(d0, job, names, name);
  }

  /** The shared output root (`config.OUTPUT_DIR`), updated one file at a time. */
  class OutputRoot {
    var years: Tree

    constructor (init: Tree)
      ensures years == init
    {
      years := init;
    }

    /** `mkdir(parents=True, exist_ok=True)`: an existing directory is left as it is. */
    method MakeYearDir(year: string)
      modifies this
      ensures years == if year in old(years) then old(years) else old(years)[year := map[]]
    {
      if year !in years {
        years := years[year := map[]];
      }
    }

    /** `open(path, "wb")`: the file now exists and is empty. */
    method OpenForWrite(year: string, name: string)
      requires year in years
      modifies this
      ensures years == old(years)[year := old(years)[year][name := Truncated]]
    {
      years := years[year := years[year][name := Truncated]];
    }

    /** `writer.write(out_f)`: the file holds the single-page document. */
    method WriteFile(year: string, name: string, c: Content)
      requires year in years
      modifies this
      ensures years == old(years)[year := old(years)[year][name := c]]
    {
      years := years[year := years[year][name := c]];
    }
  }

  /** The text pass: one label per page, in page order. */
  method ClassifyPages(texts: seq<Option<string>>) returns (pageIds: seq<string>)
    ensures pageIds == PageIds(texts)
  {
    pageIds := [];
    var i := 0;
    while i < |texts|
      invariant 0 <= i <= |texts|
      invariant pageIds == PageIds(texts[..i])
    {
      var cid := ThaiId.ExtractThaiId(texts[i]);
      pageIds := pageIds + [if cid.Some? then cid.value else Unknown];
      assert texts[..i + 1][..i] == texts[..i];
      i := i + 1;
    }
    assert texts[..i] == texts;
  }

  /**
   * One page of the page pass: build the one-page document, then open the
   * file for writing and write it. `raised` tells whether the run raised on
   * this page, before or after the file was opened.
   */
  method WritePage(root: OutputRoot, year: string, name: string, c: Content, fault: Fault, i: nat)
    returns (raised: bool)
    requires year in root.years
    modifies root
    ensures raised == (fault.PageFault? && fault.page == i)
    ensures root.years == old(root.years)[year :=
      if !raised then old(root.years)[year][name := c]
      else if fault.afterOpen then old(root.years)[year][name := Truncated]
      else old(root.years)[year]]
  {
    raised := fault.PageFault? && fault.page == i;
    if raised && !fault.afterOpen {
      assert old(root.years)[year := old(root.years)[year]] == old(root.years);
      return;
    }
    root.OpenForWrite(year, name);
    if raised {
      return;
    }
    root.WriteFile(year, name, c);
    assert old(root.years)[year][name := Truncated][name := c] == old(root.years)[year][name := c];
  }

  /** The page pass: each page is written to its own file in the year directory, in page order. */
  method SplitPages(root: OutputRoot, year: string, jobId: string, pageIds: seq<string>,
                    totalPages: nat, fault: Fault) returns (r: JobResult)
    requires year in root.years
    modifies root
    ensures year in root.years
    ensures root.years == old(root.years)[year := root.years[year]]
    ensures PassOutcome(r, root.years[year]) == PagePass(old(root.years)[year], jobId, pageIds, totalPages, fault)
  {
    var d0 := root.years[year];
    var createdFiles: seq<string> := [];
    var i := 0;
    while i < totalPages
      invariant 0 <= i <= totalPages
      invariant createdFiles == FileNames(pageIds, i)
      invariant !(fault.PageFault? && fault.page < i)
      invariant root.years == old(root.years)[year := WritePages(d0, jobId, createdFiles)]
    {
      var citizenId := if i < |pageIds| then pageIds[i] else Unknown;
      var filename := citizenId + ".pdf";
      var raised := WritePage(root, year, filename, PageOf(jobId, i), fault, i);
      if raised {
        OverwriteTwice(old(root.years), year, WritePages(d0, jobId, createdFiles), root.years[year]);
        PagePassFaultAt(d0, jobId, pageIds, totalPages, fault, i);
        return JobResult(jobId, Failed, None, Some(createdFiles), Some(fault.message));
      }
      WriteNext(old(root.years), year, d0, jobId, createdFiles, filename);
      createdFiles := createdFiles + [filename];
      i := i + 1;
    }
    return JobResult(jobId, Success, Some(totalPages), Some(createdFiles), None);
  }

  /** `process_pdf_job` */
  method ProcessPdfJob(root: OutputRoot, jobId: string, inboxDir: string, inputExists: bool,
                       texts: seq<Option<string>>, readerPageCount: nat, fault: Fault)
    returns (r: JobResult)
    modifies root
    ensures Outcome(r, root.years) ==
      Process(old(root.years), jobId, inboxDir, inputExists, texts, readerPageCount, fault)
  {
    var inputFile := InputPath(inboxDir, jobId);
    var year := Year.YearOf(jobId);
    if !inputExists {
      return JobResult(jobId, Failed, None, None, Some("File not found: " + inputFile));
    }
    root.MakeYearDir(year);
    assert root.years == old(root.years)[year := if year in old(root.years) then old(root.years)[year] else map[]];
    if fault.TextPassFault? {
      return JobResult(jobId, Failed, None, Some([]), Some(fault.message));
    }
    var pageIds := ClassifyPages(texts);
    r := SplitPages(root, year, jobId, pageIds, readerPageCount, fault);
  }

  // ---------------------------------------------------------------------------
  // What a run leaves behind
  // ---------------------------------------------------------------------------

  /** The label page `j` of the page pass is filed under: its identifier, or "unknown". */
  function LabelOf(texts: seq<Option<string>>, j: nat): string {
    if j < |texts| then PageLabel(texts[j]) else Unknown
  }

  lemma FileNameOfLabel(texts: seq<Option<string>>, n: nat, j: nat)
    requires j < n
    ensures FileNames(PageIds(texts), n)[j] == LabelOf(texts, j) + ".pdf"
  {
    FileNamesAt(PageIds(texts), n, j);
    if j < |texts| {
      PageIdsAt(texts, j);
    }
  }

  /** Two names with the same extension are equal only if their stems are. */
  lemma SameSuffixSameName(a: string, b: string, ext: string)
    ensures a + ext == b + ext ==> a == b
  {
    if a + ext == b + ext {
      assert (a + ext)[..|a|] == a;
      assert (b + ext)[..|b|] == b;
    }
  }

  /** Every name written to is in the directory. */
  lemma {:induction false} WritePagesListed(d: Directory, job: string, names: seq<string>, name: string)
    requires name in names
    ensures name in WritePages(d, job, names)
    decreases |names|
  {
    var init := names[..|names| - 1];
    if name != names[|names| - 1] {
      assert name in init by {
        var j :| 0 <= j < |names| && names[j] == name;
        assert init[j] == name;
      }
      WritePagesListed(d, job, init, name);
    }
  }

  /** A name nobody writes to keeps what it had, and exists only if it existed. */
  lemma {:induction false} WritePagesOutside(d: Directory, job: string, names: seq<string>, name: string)
    requires name !in names
    ensures name in WritePages(d, job, names) <==> name in d
    ensures name in d ==> WritePages(d, job, names)[name] == d[name]
    decreases |names|
  {
    if names != [] {
      var init := names[..|names| - 1];
      assert forall j :: 0 <= j < |init| ==> init[j] == names[j];
      WritePagesOutside(d, job, init, name);
    }
  }

  /** When several pages share a name, the file holds the last of them. */
  lemma {:induction false} WritePagesLastWins(d: Directory, job: string, names: seq<string>, i: nat)
    requires i < |names|
    requires forall j :: i < j < |names| ==> names[j] != names[i]
    ensures names[i] in WritePages(d, job, names)
    ensures WritePages(d, job, names)[names[i]] == PageOf(job, i)
    decreases |names|
  {
    if i < |names| - 1 {
      var init := names[..|names| - 1];
      assert init[i] == names[i];
      WritePagesLastWins(d, job, init, i);
    }
  }

  /** What a written name holds does not depend on the directory written into. */
  lemma {:induction false} WritePagesListedIndependent(d1: Directory, d2: Directory, job: string,
                                                         names: seq<string>, name: string)
    requires name in names
    ensures name in WritePages(d1, job, names) && name in WritePages(d2, job, names)
    ensures WritePages(d1, job, names)[name] == WritePages(d2, job, names)[name]
    decreases |names|
  {
    var init := names[..|names| - 1];
    if name != names[|names| - 1] {
      assert name in init by {
        var j :| 0 <= j < |names| && names[j] == name;
        assert init[j] == name;
      }
      WritePagesListedIndependent(d1, d2, job, init, name);
    }
  }

  /** Two directories that agree on every name not written to agree after the writes. */
  lemma WritePagesAgree(d1: Directory, d2: Directory, job: string, names: seq<string>)
    requires forall name :: name !in names ==> (name in d1 <==> name in d2)
    requires forall name :: name !in names && name in d1 ==> d1[name] == d2[name]
    ensures WritePages(d1, job, names) == WritePages(d2, job, names)
  {
    var w1 := WritePages(d1, job, names);
    var w2 := WritePages(d2, job, names);
    forall name ensures (name in w1 <==> name in w2) && (name in w1 ==> w1[name] == w2[name]) {
      if name in names {
        WritePagesListedIndependent(d1, d2, job, names, name);
      } else {
        WritePagesOutside(d1, job, names, name);
        WritePagesOutside(d2, job, names, name);
      }
    }
    assert w1 == w2;
  }

  /** A missing input is reported and nothing is created, not even the year directory. */
  lemma MissingInputTouchesNothing(tree: Tree, jobId: string, inboxDir: string,
                                   texts: seq<Option<string>>, n: nat, fault: Fault)
    ensures Process(tree, jobId, inboxDir, false, texts, n, fault).tree == tree
    ensures Process(tree, jobId, inboxDir, false, texts, n, fault).result ==
      JobResult(jobId, Failed, None, None, Some("File not found: " + InputPath(inboxDir, jobId)))
  {
  }

  /** A failure while reading the texts lists no file, yet the year directory exists and is unchanged. */
  lemma TextFaultLeavesEmptyList(tree: Tree, jobId: string, inboxDir: string,
                                 texts: seq<Option<string>>, n: nat, message: string)
    ensures Process(tree, jobId, inboxDir, true, texts, n, TextPassFault(message)).result ==
      JobResult(jobId, Failed, None, Some([]), Some(message))
    ensures Year.YearOf(jobId) in Process(tree, jobId, inboxDir, true, texts, n, TextPassFault(message)).tree
    ensures forall y :: y in tree ==>
      y in Process(tree, jobId, inboxDir, true, texts, n, TextPassFault(message)).tree &&
      Process(tree, jobId, inboxDir, true, texts, n, TextPassFault(message)).tree[y] == tree[y]
    ensures forall y :: y != Year.YearOf(jobId) ==>
      (y in Process(tree, jobId, inboxDir, true, texts, n, TextPassFault(message)).tree <==> y in tree)
  {
  }

  /**
   * A clean run reports success with the page count and lists page `i` as its
   * identifier (or "unknown") plus ".pdf", for every page, in order and with
   * repeats; every listed file exists in the year directory.
   */
  lemma SuccessListsEveryPage(tree: Tree, jobId: string, inboxDir: string,
                              texts: seq<Option<string>>, n: nat)
    ensures Process(tree, jobId, inboxDir, true, texts, n, NoFault).result.status == Success
    ensures Process(tree, jobId, inboxDir, true, texts, n, NoFault).result.pageCount == Some(n)
    ensures Process(tree, jobId, inboxDir, true, texts, n, NoFault).result.error.None?
    ensures Process(tree, jobId, inboxDir, true, texts, n, NoFault).result.createdFiles.Some?
    ensures |Process(tree, jobId, inboxDir, true, texts, n, NoFault).result.createdFiles.value| == n
    ensures forall i :: 0 <= i < n ==>
      Process(tree, jobId, inboxDir, true, texts, n, NoFault).result.createdFiles.value[i] ==
      (if i < |texts| && ThaiId.ThaiIdOf(texts[i]).Some? then ThaiId.ThaiIdOf(texts[i]).value else Unknown) + ".pdf"
    ensures Year.YearOf(jobId) in Process(tree, jobId, inboxDir, true, texts, n, NoFault).tree
    ensures forall i :: 0 <= i < n ==>
      Process(tree, jobId, inboxDir, true, texts, n, NoFault).result.createdFiles.value[i] in
      Process(tree, jobId, inboxDir, true, texts, n, NoFault).tree[Year.YearOf(jobId)]
  {
    var names := FileNames(PageIds(texts), n);
    var d0 := if Year.YearOf(jobId) in tree then tree[Year.YearOf(jobId)] else map[];
    forall i | 0 <= i < n
      ensures names[i] == (if i < |texts| && ThaiId.ThaiIdOf(texts[i]).Some? then ThaiId.ThaiIdOf(texts[i]).value else Unknown) + ".pdf"
      ensures names[i] in WritePages(d0, jobId, names)
    {
      FileNameOfLabel(texts, n, i);
      assert names[i] in names;
      WritePagesListed(d0, jobId, names, names[i]);
    }
  }

  /** After a clean run, a file holds the last page filed under its name. */
  lemma SuccessLastPageWins(tree: Tree, jobId: string, inboxDir: string,
                            texts: seq<Option<string>>, n: nat, i: nat)
    requires i < n
    requires forall j :: i < j < n ==> LabelOf(texts, j) != LabelOf(texts, i)
    ensures Year.YearOf(jobId) in Process(tree, jobId, inboxDir, true, texts, n, NoFault).tree
    ensures LabelOf(texts, i) + ".pdf" in Process(tree, jobId, inboxDir, true, texts, n, NoFault).tree[Year.YearOf(jobId)]
    ensures Process(tree, jobId, inboxDir, true, texts, n, NoFault).tree[Year.YearOf(jobId)][LabelOf(texts, i) + ".pdf"]
      == PageOf(jobId, i)
  {
    var names := FileNames(PageIds(texts), n);
    FileNameOfLabel(texts, n, i);
    forall j | i < j < n ensures names[j] != names[i] {
      FileNameOfLabel(texts, n, j);
      SameSuffixSameName(LabelOf(texts, j), LabelOf(texts, i), ".pdf");
    }
    var d0 := if Year.YearOf(jobId) in tree then tree[Year.YearOf(jobId)] else map[];
    WritePagesLastWins(d0, jobId, names, i);
  }

  /** A clean run leaves every file no page is named after as it was, and every other year untouched. */
  lemma SuccessKeepsUnnamedFiles(tree: Tree, jobId: string, inboxDir: string,
                                 texts: seq<Option<string>>, n: nat, name: string)
    requires forall j :: 0 <= j < n ==> LabelOf(texts, j) + ".pdf" != name
    ensures Year.YearOf(jobId) in Process(tree, jobId, inboxDir, true, texts, n, NoFault).tree
    ensures name in Process(tree, jobId, inboxDir, true, texts, n, NoFault).tree[Year.YearOf(jobId)] <==>
      Year.YearOf(jobId) in tree && name in tree[Year.YearOf(jobId)]
    ensures name in Process(tree, jobId, inboxDir, true, texts, n, NoFault).tree[Year.YearOf(jobId)] ==>
      Year.YearOf(jobId) in tree && name in tree[Year.YearOf(jobId)] &&
      Process(tree, jobId, inboxDir, true, texts, n, NoFault).tree[Year.YearOf(jobId)][name] ==
      tree[Year.YearOf(jobId)][name]
    ensures forall y :: y != Year.YearOf(jobId) ==>
      (y in Process(tree, jobId, inboxDir, true, texts, n, NoFault).tree <==> y in tree)
    ensures forall y :: y != Year.YearOf(jobId) && y in tree ==>
      Process(tree, jobId, inboxDir, true, texts, n, NoFault).tree[y] == tree[y]
  {
    var names := FileNames(PageIds(texts), n);
    assert name !in names by {
      if name in names {
        var j :| 0 <= j < |names| && names[j] == name;
        FileNameOfLabel(texts, n, j);
      }
    }
    var d0 := if Year.YearOf(jobId) in tree then tree[Year.YearOf(jobId)] else map[];
    WritePagesOutside(d0, jobId, names, name);
  }

  /**
   * A failure while producing page `k` returns failed with the error and
   * lists exactly the files of pages `0..k-1`, in order; each of them exists.
   * Page `k`'s file, if it was opened, is left empty and unlisted. With `k = 0`
   * the list is empty.
   */
  lemma PageFaultKeepsEarlierPages(tree: Tree, jobId: string, inboxDir: string,
                                   texts: seq<Option<string>>, n: nat, fault: Fault)
    requires fault.PageFault? && fault.page < n
    ensures Process(tree, jobId, inboxDir, true, texts, n, fault).result.status == Failed
    ensures Process(tree, jobId, inboxDir, true, texts, n, fault).result.pageCount.None?
    ensures Process(tree, jobId, inboxDir, true, texts, n, fault).result.error == Some(fault.message)
    ensures Process(tree, jobId, inboxDir, true, texts, n, fault).result.createdFiles.Some?
    ensures |Process(tree, jobId, inboxDir, true, texts, n, fault).result.createdFiles.value| == fault.page
    ensures forall i :: 0 <= i < fault.page ==>
      Process(tree, jobId, inboxDir, true, texts, n, fault).result.createdFiles.value[i] == LabelOf(texts, i) + ".pdf"
    ensures Year.YearOf(jobId) in Process(tree, jobId, inboxDir, true, texts, n, fault).tree
    ensures forall i :: 0 <= i < fault.page ==>
      LabelOf(texts, i) + ".pdf" in Process(tree, jobId, inboxDir, true, texts, n, fault).tree[Year.YearOf(jobId)]
    ensures fault.afterOpen ==>
      LabelOf(texts, fault.page) + ".pdf" in Process(tree, jobId, inboxDir, true, texts, n, fault).tree[Year.YearOf(jobId)] &&
      Process(tree, jobId, inboxDir, true, texts, n, fault).tree[Year.YearOf(jobId)][LabelOf(texts, fault.page) + ".pdf"]
      == Truncated
  {
    var k := fault.page;
    var ids := PageIds(texts);
    var names := FileNames(ids, k);
    var d0 := if Year.YearOf(jobId) in tree then tree[Year.YearOf(jobId)] else map[];
    PagePassFaultAt(d0, jobId, ids, n, fault, k);
    FileNamesPrefix(ids, k, n);
    FileNameOfLabel(texts, n, k);
    FileNamesAt(ids, n, k);
    forall i | 0 <= i < k
      ensures names[i] == LabelOf(texts, i) + ".pdf"
      ensures names[i] in WritePages(d0, jobId, names)
    {
      FileNameOfLabel(texts, n, i);
      assert names[i] == FileNames(ids, n)[i];
      assert names[i] in names;
      WritePagesListed(d0, jobId, names, names[i]);
    }
  }

  /**
   * Nothing written before a failure at page `k` is rolled back: a file holds
   * the last page before `k` filed under its name, unless page `k` was filed
   * under the same name and opened, which left it empty.
   */
  lemma PageFaultKeepsEarlierContent(tree: Tree, jobId: string, inboxDir: string,
                                     texts: seq<Option<string>>, n: nat, fault: Fault, i: nat)
    requires fault.PageFault? && fault.page < n && i < fault.page
    requires forall j :: i < j < fault.page ==> LabelOf(texts, j) != LabelOf(texts, i)
    requires fault.afterOpen ==> LabelOf(texts, fault.page) != LabelOf(texts, i)
    ensures Year.YearOf(jobId) in Process(tree, jobId, inboxDir, true, texts, n, fault).tree
    ensures LabelOf(texts, i) + ".pdf" in Process(tree, jobId, inboxDir, true, texts, n, fault).tree[Year.YearOf(jobId)]
    ensures Process(tree, jobId, inboxDir, true, texts, n, fault).tree[Year.YearOf(jobId)][LabelOf(texts, i) + ".pdf"]
      == PageOf(jobId, i)
  {
    var k := fault.page;
    var ids := PageIds(texts);
    var names := FileNames(ids, k);
    var d0 := if Year.YearOf(jobId) in tree then tree[Year.YearOf(jobId)] else map[];
    PagePassFaultAt(d0, jobId, ids, n, fault, k);
    FileNamesPrefix(ids, k, n);
    FileNameOfLabel(texts, n, i);
    FileNameOfLabel(texts, n, k);
    assert names[i] == FileNames(ids, n)[i];
    forall j | i < j < k ensures names[j] != names[i] {
      FileNameOfLabel(texts, n, j);
      assert names[j] == FileNames(ids, n)[j];
      SameSuffixSameName(LabelOf(texts, j), LabelOf(texts, i), ".pdf");
    }
    SameSuffixSameName(LabelOf(texts, k), LabelOf(texts, i), ".pdf");
    WritePagesLastWins(d0, jobId, names, i);
  }

  /** The page pass changes nothing but the files of its own page names. */
  lemma PagePassOnlyWritesItsNames(d0: Directory, jobId: string, ids: seq<string>, n: nat, fault: Fault, name: string)
    requires name !in FileNames(ids, n)
    ensures name in PagePass(d0, jobId, ids, n, fault).dir <==> name in d0
    ensures name in d0 ==> PagePass(d0, jobId, ids, n, fault).dir[name] == d0[name]
  {
    var names := FileNames(ids, n);
    if fault.PageFault? && fault.page < n {
      var k := fault.page;
      PagePassFaultAt(d0, jobId, ids, n, fault, k);
      FileNamesPrefix(ids, k, n);
      FileNamesAt(ids, n, k);
      assert forall j :: 0 <= j < k ==> FileNames(ids, k)[j] == names[j];
      WritePagesOutside(d0, jobId, FileNames(ids, k), name);
    } else {
      WritePagesOutside(d0, jobId, names, name);
    }
  }

  /** A clean page pass over what any earlier page pass left equals a clean page pass over its start. */
  lemma PagePassRetry(d0: Directory, jobId: string, ids: seq<string>, n: nat, fault: Fault)
    ensures PagePass(PagePass(d0, jobId, ids, n, fault).dir, jobId, ids, n, NoFault)
         == PagePass(d0, jobId, ids, n, NoFault)
  {
    var names := FileNames(ids, n);
    var d1 := PagePass(d0, jobId, ids, n, fault).dir;
    forall name | name !in names
      ensures (name in d1 <==> name in d0) && (name in d1 ==> d1[name] == d0[name])
    {
      PagePassOnlyWritesItsNames(d0, jobId, ids, n, fault, name);
    }
    WritePagesAgree(d1, d0, jobId, names);
  }

  /** Replacing a year directory twice leaves only the second. */
  lemma OverwriteTwice(t: Tree, y: string, a: Directory, b: Directory)
    ensures t[y := a][y := b] == t[y := b]
  {
  }

  /** A clean run with the input present is the clean page pass over the year directory. */
  lemma CleanProcess(tree: Tree, jobId: string, inboxDir: string, texts: seq<Option<string>>, n: nat)
    ensures var y := Year.YearOf(jobId);
            var d0 := if y in tree then tree[y] else map[];
            var pass := PagePass(d0, jobId, PageIds(texts), n, NoFault);
            Process(tree, jobId, inboxDir, true, texts, n, NoFault) == Outcome(pass.result, tree[y := pass.dir])
  {
  }

  /**
   * Running a job again without a fault, after a run that failed anywhere or
   * succeeded, leaves the same output and returns the same result as one
   * clean run: the files a failed run left are all overwritten.
   */
  lemma RetryMatchesCleanRun(tree: Tree, jobId: string, inboxDir: string, inputExists: bool,
                             texts: seq<Option<string>>, n: nat, fault: Fault)
    ensures Process(Process(tree, jobId, inboxDir, inputExists, texts, n, fault).tree,
                    jobId, inboxDir, inputExists, texts, n, NoFault)
         == Process(tree, jobId, inboxDir, inputExists, texts, n, NoFault)
  {
    if inputExists {
      var y := Year.YearOf(jobId);
      var d0 := if y in tree then tree[y] else map[];
      var ids := PageIds(texts);
      var first := Process(tree, jobId, inboxDir, true, texts, n, fault).tree;
      var d1 := if fault.TextPassFault? then d0 else PagePass(d0, jobId, ids, n, fault).dir;
      assert first == tree[y := d1];
      var clean := PagePass(d0, jobId, ids, n, NoFault);
      if !fault.TextPassFault? {
        PagePassRetry(d0, jobId, ids, n, fault);
      }
      assert PagePass(d1, jobId, ids, n, NoFault) == clean;
      CleanProcess(first, jobId, inboxDir, texts, n);
      CleanProcess(tree, jobId, inboxDir, texts, n);
      OverwriteTwice(tree, y, d1, clean.dir);
    }
  }
}
