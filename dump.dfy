/** create_dump.py: turning a Wikipedia dump into the `title,value` table. The dump
    parser, the decompressor and the markup removal of the two cleaners are not modelled;
    the page stream is an input and the markup removal stages are opaque functions.
    What is modelled is which pages are kept (namespace, resume, empty, redirect and size
    filters), how their text is cleaned and normalised, and how batches are flushed,
    counted and checkpointed. */
module Dump {
  import opened Base
  import opened Text

  const MinTextLength: nat := 100
  const MaxRawTextLength: nat := 1_000_000
  const BatchSize: nat := 1000
  const CheckpointInterval: nat := 10000

  /** One revision of a page; `text` is absent when the dump gives none. */
  datatype Revision = Revision(text: Option<string>)

  datatype Page = Page(namespace: int, title: string, revisions: seq<Revision>)

  /** `if rev.text:` — present and non-empty. */
  predicate HasText(r: Revision)
  {
    r.text.Some? && r.text.value != []
  }

  /** `extract_latest_text` */
  function ExtractLatestText(revs: seq<Revision>): Option<string>
  {
    if revs == [] then None
    else if HasText(revs[0]) then revs[0].text
    else ExtractLatestText(revs[1..])
  }

  /** The text returned is that of the first revision with non-empty text, and there is
      none exactly when no revision has text. */
  lemma {:induction false} ExtractLatestTextSpec(revs: seq<Revision>)
    ensures ExtractLatestText(revs).None? <==> forall k :: 0 <= k < |revs| ==> !HasText(revs[k])
    ensures ExtractLatestText(revs).Some? ==>
      exists k :: 0 <= k < |revs| && HasText(revs[k]) && revs[k].text == ExtractLatestText(revs) &&
        forall j :: 0 <= j < k ==> !HasText(revs[j])
  {
    if revs != [] {
      ExtractLatestTextSpec(revs[1..]);
      if !HasText(revs[0]) {
        if ExtractLatestText(revs).Some? {
          var k :| 0 <= k < |revs[1..]| && HasText(revs[1..][k]) && revs[1..][k].text == ExtractLatestText(revs[1..]) &&
            forall j :: 0 <= j < k ==> !HasText(revs[1..][j]);
          assert revs[k + 1] == revs[1..][k];
          forall j | 0 <= j < k + 1 ensures !HasText(revs[j]) {
            if j > 0 {
              assert revs[j] == revs[1..][j - 1];
            }
          }
        } else {
          forall k | 0 <= k < |revs| ensures !HasText(revs[k]) {
            if k > 0 {
              assert revs[k] == revs[1..][k - 1];
            }
          }
        }
      }
    }
  }

  /** The markup-removal stages of the two cleaners, which are not modelled: the regular
      expression substitutions of `clean_wikitext_fast` before its whitespace step, and
      the `mwparserfromhell` pass of the fallback (with its removal of `[[`/`]]`) before
      its whitespace step. `None` stands for an exception. */
  datatype Cleaners = Cleaners(fast: string -> Option<string>, slow: string -> Option<string>)

  /** `clean_wikitext_fast`: the markup removal, then `re.sub(r"\s+", " ", text).strip()`. */
  function CleanWikitextFast(c: Cleaners, text: string): Option<string>
  {
    match c.fast(text)
    case None => None
    case Some(t) => Some(Normalize(t))
  }

  /** The fallback half of `clean_wikitext`, with the same whitespace step. */
  function CleanWikitextSlow(c: Cleaners, text: string): Option<string>
  {
    match c.slow(text)
    case None => None
    case Some(t) => Some(Normalize(t))
  }

  /** The test `clean_wikitext` puts to the fast result. */
  predicate LooksReasonable(cleaned: string)
  {
    |cleaned| > 50 && !Contains(cleaned, "{{") && !Contains(cleaned, "[[")
  }

  /** `clean_wikitext`: the fast result when it did not raise and looks reasonable,
      otherwise the fallback. `None` stands for an exception of the fallback. */
  function CleanWikitext(c: Cleaners, text: string): Option<string>
  {
    var fast := CleanWikitextFast(c, text);
    if fast.Some? && LooksReasonable(fast.value) then fast else CleanWikitextSlow(c, text)
  }

  /** Text fit to be written: no whitespace at either end, no run of whitespace. */
  ghost predicate Normalized(t: string)
  {
    (t == [] || (!IsSpace(t[0]) && !IsSpace(t[|t| - 1]))) && SingleSpaced(t)
  }

  /** The choice of cleaner, and that whichever cleaner is chosen, the text comes out
      normalised and longer than 50 characters when the fast cleaner was taken. */
  lemma CleanWikitextChoice(c: Cleaners, text: string)
    ensures var fast, r := CleanWikitextFast(c, text), CleanWikitext(c, text);
      (fast.Some? && LooksReasonable(fast.value) ==> r == fast && |r.value| > 50) &&
      (!(fast.Some? && LooksReasonable(fast.value)) ==> r == CleanWikitextSlow(c, text)) &&
      (r.Some? ==> Normalized(r.value))
  {
    var fast := CleanWikitextFast(c, text);
    if fast.Some? && LooksReasonable(fast.value) {
      NormalizeShape(c.fast(text).value);
    } else if c.slow(text).Some? {
      NormalizeShape(c.slow(text).value);
    }
  }

  /** `process_page`: `None` for a page whose cleaning raises or whose cleaned text is
      shorter than `MIN_TEXT_LENGTH`, otherwise the title with the cleaned text. */
  function ProcessPage(c: Cleaners, item: Row): Option<Row>
  {
    match CleanWikitext(c, item.value)
    case None => None
    case Some(cleaned) => if |cleaned| < MinTextLength then None else Some(Row(item.title, cleaned))
  }

  lemma ProcessPageSpec(c: Cleaners, item: Row)
    ensures var r := ProcessPage(c, item);
      (r.None? <==> CleanWikitext(c, item.value).None? || |CleanWikitext(c, item.value).value| < MinTextLength) &&
      (r.Some? ==> r.value.title == item.title && r.value.value == CleanWikitext(c, item.value).value &&
                   |r.value.value| >= MinTextLength && Normalized(r.value.value))
  {
    CleanWikitextChoice(c, item.value);
  }

  /** A redirect page: its text, left-stripped and upper-cased, starts with `#REDIRECT`. */
  predicate IsRedirect(raw: string)
    ensures StartsWith(LStrip(raw), "#redirect") || StartsWith(LStrip(raw), "#REDIRECT") ==> IsRedirect(raw)
  {
    RedirectSpellings(LStrip(raw));
    StartsWith(Upper(LStrip(raw)), "#REDIRECT")
  }

  /** A dotless 'ı' upper-cases to 'I', so this page is a redirect although its text
      starts with neither "#redirect" nor "#REDIRECT". */
  lemma DotlessRedirect()
    ensures IsRedirect("#red\U{131}rect")
    ensures !StartsWith(LStrip("#red\U{131}rect"), "#redirect")
    ensures !StartsWith(LStrip("#red\U{131}rect"), "#REDIRECT")
  {
    var s := "#red\U{131}rect";
    assert s != [] && s[0] == '#' && !IsSpace(s[0]);
    assert LStrip(s) == s;
    UpperDotlessRedirect();
    assert s[..9] == s && s[4] == '\U{131}';
  }

  /** What one round of the loop of `main` does with a page: the new `skipping` flag, and
      the `(title, raw_text)` item it appends to the batch, if any. Pages outside
      namespace 0 are passed over; while skipping, namespace-0 pages are passed over and
      the one titled `resume` ends the skipping; then pages without text, redirects and
      pages over `MAX_RAW_TEXT_LENGTH` are passed over. */
  datatype Visit = Visit(skipping: bool, item: Option<Row>)

  function Admit(p: Page, skipping: bool, resume: string): (v: Visit)
    ensures v.item.Some? ==> p.namespace == 0 && !skipping && !v.skipping && v.item.value.title == p.title
  {
    if p.namespace != 0 then Visit(skipping, None)
    else if skipping then Visit(p.title != resume, None)
    else
      var raw := ExtractLatestText(p.revisions);
      if raw.None? || raw.value == [] then Visit(false, None)
      else if IsRedirect(raw.value) then Visit(false, None)
      else if |raw.value| > MaxRawTextLength then Visit(false, None)
      else Visit(false, Some(Row(p.title, raw.value)))
  }

  function Items(o: Option<Row>): seq<Row>
  {
    if o.Some? then [o.value] else []
  }

  /** The items the loop of `main` puts into batches, in dump order. */
  function Select(pages: seq<Page>, skipping: bool, resume: string): (items: seq<Row>)
    ensures |items| <= |pages|
    decreases |pages|
  {
    if pages == [] then []
    else
      var v := Admit(pages[0], skipping, resume);
      Items(v.item) + Select(pages[1..], v.skipping, resume)
  }

  /** `Select` from the `k`-th page on, by position. */
  function SelectFrom(pages: seq<Page>, k: nat, skipping: bool, resume: string): seq<Row>
    decreases |pages| - k
  {
    if k >= |pages| then []
    else
      var v := Admit(pages[k], skipping, resume);
      Items(v.item) + SelectFrom(pages, k + 1, v.skipping, resume)
  }

  lemma {:induction false} SelectFromSlice(pages: seq<Page>, k: nat, skipping: bool, resume: string)
    requires k <= |pages|
    ensures SelectFrom(pages, k, skipping, resume) == Select(pages[k..], skipping, resume)
    decreases |pages| - k
  {
    if k < |pages| {
      var v := Admit(pages[k], skipping, resume);
      SelectFromSlice(pages, k + 1, v.skipping, resume);
      assert pages[k..][0] == pages[k] && pages[k..][1..] == pages[k + 1..];
    }
  }

  /** A page that passes every filter once skipping is over. */
  ghost predicate Batchable(p: Page)
  {
    var raw := ExtractLatestText(p.revisions);
    p.namespace == 0 && raw.Some? && raw.value != [] && !IsRedirect(raw.value) &&
    |raw.value| <= MaxRawTextLength
  }

  /** Every batched item comes from a page of the dump that passes every filter, with that
      page's title and latest text. */
  lemma {:induction false} SelectedPassFilters(pages: seq<Page>, skipping: bool, resume: string, x: Row)
    requires x in Select(pages, skipping, resume)
    ensures exists p :: p in pages && Batchable(p) && x == Row(p.title, ExtractLatestText(p.revisions).value)
    decreases |pages|
  {
    var p, rest := pages[0], pages[1..];
    var next := Admit(p, skipping, resume).skipping;
    if !skipping && Batchable(p) && x == Row(p.title, ExtractLatestText(p.revisions).value) {
      assert p in pages;
    } else {
      assert x in Select(rest, next, resume);
      SelectedPassFilters(rest, next, resume, x);
      var q :| q in rest && Batchable(q) && x == Row(q.title, ExtractLatestText(q.revisions).value);
      assert q in pages;
    }
  }

  /** Resuming skips every namespace-0 page up to and including the first one titled
      `resume`, and from there on selects what an uninterrupted run selects. */
  lemma {:induction false} ResumeSkipsThrough(pages: seq<Page>, resume: string, k: nat)
    requires k < |pages| && pages[k].namespace == 0 && pages[k].title == resume
    requires forall j :: 0 <= j < k ==> pages[j].namespace != 0 || pages[j].title != resume
    ensures Select(pages, true, resume) == Select(pages[k + 1..], false, resume)
    decreases k
  {
    if k > 0 {
      ResumeSkipsThrough(pages[1..], resume, k - 1);
      assert pages[1..][k..] == pages[k + 1..];
    }
  }

  /** Resuming after a title the dump lacks writes nothing. */
  lemma {:induction false} ResumeNeverFound(pages: seq<Page>, resume: string)
    requires forall j :: 0 <= j < |pages| ==> pages[j].namespace != 0 || pages[j].title != resume
    ensures Select(pages, true, resume) == []
    decreases |pages|
  {
    if pages != [] {
      ResumeNeverFound(pages[1..], resume);
    }
  }

  /** Without skipping, what is selected from a dump is what is selected from its two
      halves: the selection of a page does not depend on the pages before it. */
  lemma {:induction false} SelectSplit(pages: seq<Page>, k: nat, resume: string)
    requires k <= |pages|
    ensures Select(pages, false, resume) == Select(pages[..k], false, resume) + Select(pages[k..], false, resume)
    decreases k
  {
    if k > 0 {
      SelectSplit(pages[1..], k - 1, resume);
      assert pages[1..][..k - 1] == pages[..k][1..];
      assert pages[1..][k - 1..] == pages[k..];
    }
  }

  /** `pool.map(process_page, batch)`, order preserved. */
  function ProcessAll(c: Cleaners, items: seq<Row>): (rs: seq<Option<Row>>)
    ensures |rs| == |items|
  {
    seq(|items|, i requires 0 <= i < |items| => ProcessPage(c, items[i]))
  }

  /** The rows written for a list of results: the non-`None` ones, in order. */
  function Kept(results: seq<Option<Row>>): seq<Row>
  {
    if results == [] then []
    else
      var last := results[|results| - 1];
      Kept(results[..|results| - 1]) + (if last.Some? then [last.value] else [])
  }

  lemma {:induction false} KeptAppend(a: seq<Option<Row>>, b: seq<Option<Row>>)
    ensures Kept(a + b) == Kept(a) + Kept(b)
    decreases |b|
  {
    if b == [] {
      assert a + b == a;
    } else {
      var b' := b[..|b| - 1];
      assert (a + b)[..|a + b| - 1] == a + b';
      KeptAppend(a, b');
    }
  }

  lemma ProcessAllAppend(c: Cleaners, a: seq<Row>, b: seq<Row>)
    ensures ProcessAll(c, a + b) == ProcessAll(c, a) + ProcessAll(c, b)
  {
    var l, r := ProcessAll(c, a + b), ProcessAll(c, a) + ProcessAll(c, b);
    forall i | 0 <= i < |l| ensures l[i] == r[i] {
      if i < |a| {
        assert (a + b)[i] == a[i];
      } else {
        assert (a + b)[i] == b[i - |a|];
      }
    }
  }

  /** The rows a run writes for the items it batches. */
  function Written(c: Cleaners, items: seq<Row>): seq<Row>
  {
    Kept(ProcessAll(c, items))
  }

  /** Every written row has the title of a batched item and its cleaned text, at least
      `MIN_TEXT_LENGTH` characters long and normalised. */
  lemma {:induction false} WrittenRows(c: Cleaners, items: seq<Row>, r: Row)
    requires r in Written(c, items)
    ensures exists x :: x in items && ProcessPage(c, x) == Some(r)
    ensures |r.value| >= MinTextLength && Normalized(r.value)
    decreases |items|
  {
    var rs := ProcessAll(c, items);
    var n := |items| - 1;
    assert items == items[..n] + [items[n]];
    ProcessAllAppend(c, items[..n], [items[n]]);
    if r in Written(c, items[..n]) {
      WrittenRows(c, items[..n], r);
      var x :| x in items[..n] && ProcessPage(c, x) == Some(r);
      assert x in items;
    } else {
      assert ProcessPage(c, items[n]) == Some(r);
      ProcessPageSpec(c, items[n]);
    }
    ProcessPageSpec(c, r);
    var x :| x in items && ProcessPage(c, x) == Some(r);
    ProcessPageSpec(c, x);
  }

  const HeaderRow: Row := Row("title", "value")

  /** The contents of `checkpoint.json`. */
  datatype Checkpoint = Checkpoint(lastTitle: string, count: int)

  /** One flushed batch: `pool.map`, then `writer.writerow` and `count += 1` for each
      result that is not `None`. */
  method WriteResults(file: seq<Row>, count: int, results: seq<Option<Row>>)
    returns (file': seq<Row>, count': int)
    ensures file' == file + Kept(results)
    ensures count' == count + |Kept(results)|
  {
    file', count' := file, count;
    for i := 0 to |results|
      invariant file' == file + Kept(results[..i])
      invariant count' == count + |Kept(results[..i])|
    {
      assert results[..i + 1][..i] == results[..i];
      if results[i].Some? {
        file' := file' + [results[i].value];
        count' := count' + 1;
      }
    }
    assert results[..|results|] == results;
  }

  /** The checkpoint a run may save once the items `done` are written: the title of the
      `n`-th item and the count of rows written for the first `n` items. */
  ghost predicate CheckpointAt(saved: Checkpoint, c: Cleaners, done: seq<Row>, n: nat, count0: int)
  {
    0 < n <= |done| &&
    saved == Checkpoint(done[n - 1].title, count0 + |Written(c, done[..n])|)
  }

  /** The scan state of the loop of `main` before page `k`: the items handed to the pool
      (`done`), the items waiting in `batch`, and what the rest of the dump will add make
      up the whole selection. */
  ghost predicate Scanning(selected: seq<Row>, done: seq<Row>, batch: seq<Row>,
                           pages: seq<Page>, k: nat, skipping: bool, resume: string)
  {
    k <= |pages| && selected == done + batch + SelectFrom(pages, k, skipping, resume)
  }

  /** The output state: the file holds the rows written for `done` after its start, and
      `count` counts them. */
  ghost predicate Output(c: Cleaners, start: seq<Row>, count0: int, file: seq<Row>, count: int, done: seq<Row>)
  {
    file == start + Written(c, done) && count == count0 + |Written(c, done)|
  }

  /** The batches handed to the pool: never empty, never over `BATCH_SIZE`, and together
      the items `done`. */
  ghost predicate Batches(batches: seq<seq<Row>>, done: seq<Row>)
  {
    Concat(batches) == done && forall b :: b in batches ==> 0 < |b| <= BatchSize
  }

  /** `last_title` is the title of the last item batched, if any. */
  ghost predicate LastTitle(lastTitle: Option<string>, items: seq<Row>)
  {
    (items == [] <==> lastTitle.None?) &&
    (items != [] ==> lastTitle == Some(items[|items| - 1].title))
  }

  /** The saved checkpoint, if any, covers a prefix of the items written. */
  ghost predicate Saved(saved: Option<Checkpoint>, savedAt: nat, c: Cleaners, done: seq<Row>, count0: int)
  {
    (saved.Some? ==> CheckpointAt(saved.value, c, done, savedAt, count0)) &&
    (done == [] ==> saved.None?)
  }

  /** The title the run resumes after (`resume_after_title`), and the `count` it starts from. */
  function ResumeTitle(checkpoint: Option<Checkpoint>): string
  {
    if checkpoint.Some? then checkpoint.value.lastTitle else []
  }

  function StartCount(checkpoint: Option<Checkpoint>): int
  {
    if checkpoint.Some? then checkpoint.value.count else 0
  }

  /** The rows of the output file once it is opened: the header alone when it is
      truncated, the previous rows when it is appended to. */
  function StartFile(checkpoint: Option<Checkpoint>, previous: seq<Row>): seq<Row>
  {
    if checkpoint.None? || checkpoint.value.lastTitle == [] then [HeaderRow] else previous
  }

  /** The items a run batches: skipping is on exactly when a checkpoint was loaded. */
  function Selection(pages: seq<Page>, checkpoint: Option<Checkpoint>): seq<Row>
  {
    Select(pages, checkpoint.Some?, ResumeTitle(checkpoint))
  }

  /** `main`. `checkpoint` is what `load_checkpoint` finds (`None` when there is no
      checkpoint file), `previous` the rows already in the output file, and `pages` the
      dump. Returns the rows of the output file after the run, the final `count`, the
      checkpoint last saved by this run (`None` if none was), and, as ghost values, the
      batches handed to the pool and how many selected items the saved checkpoint covers. */
  method DumpMain(pages: seq<Page>, checkpoint: Option<Checkpoint>, previous: seq<Row>, c: Cleaners)
    returns (file: seq<Row>, count: int, saved: Option<Checkpoint>,
             ghost batches: seq<seq<Row>>, ghost savedAt: nat)
    ensures Output(c, StartFile(checkpoint, previous), StartCount(checkpoint), file, count, Selection(pages, checkpoint))
    ensures Batches(batches, Selection(pages, checkpoint))
    ensures Saved(saved, savedAt, c, Selection(pages, checkpoint), StartCount(checkpoint))
    ensures var selected := Selection(pages, checkpoint);
      selected != [] && selected[|selected| - 1].title != [] ==> saved.Some? && savedAt == |selected|
  {
    // load_checkpoint
    var resumeAfterTitle: Option<string> := None;
    count := 0;
    if checkpoint.Some? {
      resumeAfterTitle, count := Some(checkpoint.value.lastTitle), checkpoint.value.count;
    }
    var skipping := resumeAfterTitle.Some?;
    var resume := if resumeAfterTitle.Some? then resumeAfterTitle.value else [];
    ghost var count0 := count;
    ghost var selected := Select(pages, skipping, resume);
    assert selected == Selection(pages, checkpoint) && count0 == StartCount(checkpoint);

    // The file is opened for appending when resuming after a (non-empty) title, and
    // truncated otherwise; the header is written in the second case only.
    var freshStart := resumeAfterTitle.None? || resumeAfterTitle.value == [];
    if freshStart {
      file := [HeaderRow];
    } else {
      file := previous;
    }
    ghost var start := file;
    assert start == StartFile(checkpoint, previous);

    var batch: seq<Row>, lastTitle: Option<string>;
    ghost var done: seq<Row>;
    file, count, batch, lastTitle, saved, batches, done, savedAt := ScanDump(pages, skipping, resume, c, file, count);
    file, count, saved, batches, savedAt := FinishDump(c, start, count0, file, count, batch, lastTitle, saved, selected, batches, done, savedAt);
  }

  /** The end of `main` after the loop: the partial batch left over is handed to the pool,
      and a final checkpoint is saved when `last_title` is set and non-empty. */
  method FinishDump(c: Cleaners, ghost start: seq<Row>, ghost count0: int, file: seq<Row>, count: int, batch: seq<Row>,
                    lastTitle: Option<string>, saved: Option<Checkpoint>,
                    ghost selected: seq<Row>, ghost batches: seq<seq<Row>>, ghost done: seq<Row>, ghost savedAt: nat)
    returns (file': seq<Row>, count': int, saved': Option<Checkpoint>,
             ghost batches': seq<seq<Row>>, ghost savedAt': nat)
    requires done + batch == selected && |batch| < BatchSize
    requires Output(c, start, count0, file, count, done) && Batches(batches, done)
    requires LastTitle(lastTitle, selected) && Saved(saved, savedAt, c, done, count0)
    ensures Output(c, start, count0, file', count', selected)
    ensures Batches(batches', selected)
    ensures Saved(saved', savedAt', c, selected, count0)
    ensures selected != [] && selected[|selected| - 1].title != [] ==> saved'.Some? && savedAt' == |selected|
  {
    file', count', saved', batches', savedAt' := file, count, saved, batches, savedAt;
    ghost var done' := done;
    if batch != [] {
      file', count' := FlushBatch(c, file, count, batch);
      FlushStep(c, start, count0, file, count, file', count', batches, done, batch, saved, savedAt);
      batches', done' := batches + [batch], done + batch;
    }
    assert done' == selected;
    if lastTitle.Some? && lastTitle.value != [] {
      FinalCheckpoint(c, start, count0, file', count', done', lastTitle.value);
      saved', savedAt' := Some(Checkpoint(lastTitle.value, count')), |done'|;
    }
  }

  /** The `for page in dump` loop of `main`, from the opened output file `start` and the
      loaded `count0`: pages are admitted one by one, the batch is handed to the pool
      whenever it reaches `BATCH_SIZE`, and a checkpoint is saved when the count has just
      crossed a multiple of `CHECKPOINT_INTERVAL`. Returns the file and count after the
      last full batch, the partial batch left over, `last_title`, the checkpoint last
      saved, and, as ghost values, the batches handed over, their items and how many of
      them the checkpoint covers. */
  method ScanDump(pages: seq<Page>, resuming: bool, resume: string, c: Cleaners, start: seq<Row>, count0: int)
    returns (file: seq<Row>, count: int, batch: seq<Row>, lastTitle: Option<string>, saved: Option<Checkpoint>,
             ghost batches: seq<seq<Row>>, ghost done: seq<Row>, ghost savedAt: nat)
    ensures done + batch == Select(pages, resuming, resume)
    ensures Output(c, start, count0, file, count, done)
    ensures Batches(batches, done)
    ensures |batch| < BatchSize
    ensures LastTitle(lastTitle, done + batch)
    ensures Saved(saved, savedAt, c, done, count0)
  {
    ghost var selected := Select(pages, resuming, resume);
    var skipping := resuming;
    file, count := start, count0;
    batch, lastTitle := [], None;
    batches, done, savedAt, saved := [], [], 0, None;
    var k := 0;
    SelectFromSlice(pages, 0, resuming, resume);
    assert pages[0..] == pages;
    while k < |pages|
      invariant Scanning(selected, done, batch, pages, k, skipping, resume)
      invariant Output(c, start, count0, file, count, done)
      invariant Batches(batches, done)
      invariant |batch| < BatchSize
      invariant LastTitle(lastTitle, done + batch)
      invariant Saved(saved, savedAt, c, done, count0)
    {
      file, count, batch, lastTitle, saved, skipping, batches, done, savedAt :=
        ScanPage(pages, k, resume, c, start, count0, file, count, batch, lastTitle, saved, skipping,
                 selected, batches, done, savedAt);
      k := k + 1;
    }
    ScanEnd(selected, done, batch, pages, k, skipping, resume);
  }

  /** One round of the loop of `main`: page `k` is admitted, its item joins the batch,
      and a batch that reaches `BATCH_SIZE` is handed over. */
  method ScanPage(pages: seq<Page>, k: nat, resume: string, c: Cleaners, start: seq<Row>, count0: int,
                  file: seq<Row>, count: int, batch: seq<Row>, lastTitle: Option<string>,
                  saved: Option<Checkpoint>, skipping: bool,
                  ghost selected: seq<Row>, ghost batches: seq<seq<Row>>, ghost done: seq<Row>, ghost savedAt: nat)
    returns (file': seq<Row>, count': int, batch': seq<Row>, lastTitle': Option<string>,
             saved': Option<Checkpoint>, skipping': bool,
             ghost batches': seq<seq<Row>>, ghost done': seq<Row>, ghost savedAt': nat)
    requires k < |pages|
    requires Scanning(selected, done, batch, pages, k, skipping, resume)
    requires Output(c, start, count0, file, count, done)
    requires Batches(batches, done)
    requires |batch| < BatchSize
    requires LastTitle(lastTitle, done + batch)
    requires Saved(saved, savedAt, c, done, count0)
    ensures Scanning(selected, done', batch', pages, k + 1, skipping', resume)
    ensures Output(c, start, count0, file', count', done')
    ensures Batches(batches', done')
    ensures |batch'| < BatchSize
    ensures LastTitle(lastTitle', done' + batch')
    ensures Saved(saved', savedAt', c, done', count0)
  {
    file', count', lastTitle', saved' := file, count, lastTitle, saved;
    batches', done', savedAt' := batches, done, savedAt;
    var visit := Admit(pages[k], skipping, resume);
    batch' := batch;
    if visit.item.Some? {
      batch' := batch + [visit.item.value];
      lastTitle' := Some(visit.item.value.title);
    }
    ScanStep(selected, done, batch, batch', pages, k, skipping, visit.skipping, resume);
    skipping' := visit.skipping;
    // The batch reaches BATCH_SIZE only right after an append.
    if |batch'| >= BatchSize {
      ScanFlush(selected, done, batch', pages, k + 1, skipping', resume);
      file', count', saved', savedAt' := FlushFullBatch(c, start, count0, file, count, batch', lastTitle'.value,
                                                        saved, batches, done, savedAt);
      batches', done' := batches + [batch'], done + batch';
      batch' := [];
    }
  }

  /** The handling of a full batch in the loop of `main`: the batch goes through the
      pool, its results are written, and a checkpoint with `last_title` and the new
      count is saved when the count has just crossed a multiple of
      `CHECKPOINT_INTERVAL` (its remainder is below `BATCH_SIZE`). */
  method FlushFullBatch(c: Cleaners, start: seq<Row>, count0: int, file: seq<Row>, count: int,
                        batch: seq<Row>, lastTitle: string, saved: Option<Checkpoint>,
                        ghost batches: seq<seq<Row>>, ghost done: seq<Row>, ghost savedAt: nat)
    returns (file': seq<Row>, count': int, saved': Option<Checkpoint>, ghost savedAt': nat)
    requires Output(c, start, count0, file, count, done)
    requires Batches(batches, done) && 0 < |batch| <= BatchSize
    requires Saved(saved, savedAt, c, done, count0)
    requires LastTitle(Some(lastTitle), done + batch)
    ensures Output(c, start, count0, file', count', done + batch)
    ensures Batches(batches + [batch], done + batch)
    ensures Saved(saved', savedAt', c, done + batch, count0)
    ensures saved' == if count' % CheckpointInterval < BatchSize then Some(Checkpoint(lastTitle, count')) else saved
  {
    file', count' := FlushBatch(c, file, count, batch);
    FlushStep(c, start, count0, file, count, file', count', batches, done, batch, saved, savedAt);
    saved', savedAt' := saved, savedAt;
    if count' % CheckpointInterval < BatchSize {
      FinalCheckpoint(c, start, count0, file', count', done + batch, lastTitle);
      saved', savedAt' := Some(Checkpoint(lastTitle, count')), |done + batch|;
    }
  }

  /** `results = pool.map(process_page, batch)` and the writing of the results. */
  method FlushBatch(c: Cleaners, file: seq<Row>, count: int, batch: seq<Row>)
    returns (file': seq<Row>, count': int)
    ensures file' == file + Kept(ProcessAll(c, batch))
    ensures count' == count + |Kept(ProcessAll(c, batch))|
  {
    var results := ProcessAll(c, batch);
    file', count' := WriteResults(file, count, results);
  }

  /** One page of the loop: its item, if any, joins the batch. */
  lemma ScanStep(selected: seq<Row>, done: seq<Row>, batch: seq<Row>, batch': seq<Row>, pages: seq<Page>,
                 k: nat, skipping: bool, skipping': bool, resume: string)
    requires k < |pages| && Scanning(selected, done, batch, pages, k, skipping, resume)
    requires batch' == batch + Items(Admit(pages[k], skipping, resume).item)
    requires skipping' == Admit(pages[k], skipping, resume).skipping
    ensures Scanning(selected, done, batch', pages, k + 1, skipping', resume)
  {
    var v := Admit(pages[k], skipping, resume);
    assert done + batch + (Items(v.item) + SelectFrom(pages, k + 1, v.skipping, resume)) ==
           done + (batch + Items(v.item)) + SelectFrom(pages, k + 1, v.skipping, resume);
  }

  /** Handing the batch to the pool moves its items from `batch` to `done`. */
  lemma ScanFlush(selected: seq<Row>, done: seq<Row>, batch: seq<Row>, pages: seq<Page>, k: nat,
                  skipping: bool, resume: string)
    requires Scanning(selected, done, batch, pages, k, skipping, resume)
    ensures Scanning(selected, done + batch, [], pages, k, skipping, resume)
  {
    assert done + batch + [] == done + batch;
  }

  /** At the end of the dump the items handed to the pool and the last batch make up the
      whole selection. */
  lemma ScanEnd(selected: seq<Row>, done: seq<Row>, batch: seq<Row>, pages: seq<Page>, k: nat,
                skipping: bool, resume: string)
    requires k >= |pages| && Scanning(selected, done, batch, pages, k, skipping, resume)
    ensures done + batch == selected
  {
    assert done + batch + [] == done + batch;
  }

  /** A checkpoint saved right after the items `done` were written covers all of them. */
  lemma FinalCheckpoint(c: Cleaners, start: seq<Row>, count0: int, file: seq<Row>, count: int,
                        done: seq<Row>, title: string)
    requires Output(c, start, count0, file, count, done)
    requires LastTitle(Some(title), done)
    ensures CheckpointAt(Checkpoint(title, count), c, done, |done|, count0)
  {
    assert done[..|done|] == done;
  }

  /** Flushing a batch moves it from `batch` to `done`, keeps the output state and keeps
      the saved checkpoint valid. */
  lemma FlushStep(c: Cleaners, start: seq<Row>, count0: int, file: seq<Row>, count: int,
                  file': seq<Row>, count': int,
                  batches: seq<seq<Row>>, done: seq<Row>, batch: seq<Row>,
                  saved: Option<Checkpoint>, savedAt: nat)
    requires Batches(batches, done) && 0 < |batch| <= BatchSize
    requires Saved(saved, savedAt, c, done, count0)
    requires Output(c, start, count0, file, count, done)
    requires file' == file + Kept(ProcessAll(c, batch)) && count' == count + |Kept(ProcessAll(c, batch))|
    ensures Output(c, start, count0, file', count', done + batch)
    ensures Batches(batches + [batch], done + batch)
    ensures Saved(saved, savedAt, c, done + batch, count0)
  {
    OutputStep(c, start, count0, file, count, file', count', done, batch);
    BatchesStep(batches, done, batch);
    SavedStep(saved, savedAt, c, done, batch, count0);
  }

  lemma OutputStep(c: Cleaners, start: seq<Row>, count0: int, file: seq<Row>, count: int,
                   file': seq<Row>, count': int, done: seq<Row>, batch: seq<Row>)
    requires Output(c, start, count0, file, count, done)
    requires file' == file + Kept(ProcessAll(c, batch)) && count' == count + |Kept(ProcessAll(c, batch))|
    ensures Output(c, start, count0, file', count', done + batch)
  {
    ProcessAllAppend(c, done, batch);
    KeptAppend(ProcessAll(c, done), ProcessAll(c, batch));
  }

  lemma BatchesStep(batches: seq<seq<Row>>, done: seq<Row>, batch: seq<Row>)
    requires Batches(batches, done) && 0 < |batch| <= BatchSize
    ensures Batches(batches + [batch], done + batch)
  {
    ConcatAppend(batches, batch);
  }

  lemma SavedStep(saved: Option<Checkpoint>, savedAt: nat, c: Cleaners, done: seq<Row>, batch: seq<Row>, count0: int)
    requires Saved(saved, savedAt, c, done, count0)
    ensures Saved(saved, savedAt, c, done + batch, count0)
  {
    if saved.Some? {
      assert (done + batch)[..savedAt] == done[..savedAt];
    }
  }
}
