/**
 * One batch (`build_zip_for_batch`): for every row, in order, and every
 * configured image column, in order, a valid cell gets its suffix, is fetched,
 * and either adds an archive entry and a success event, or a failure event.
 *
 * The specification is layered: `RowAttempts` is the suffix pass over one row
 * (which cells are attempted, under which names), `BatchAttempts` strings the
 * rows together, and `EventsOf` / `ArchiveOf` say what each attempt produces.
 * The method is proved to compute exactly these, and the lemmas below state
 * what the source promises about them.
 */
module BatchBuilder {
  import opened Wrappers
  import opened Text
  import opened Decimal
  import opened UrlValidator
  import opened Extension
  import opened Suffix
  import opened Fetch

  /** A row of the sheet: column name to cell. */
  type Row = map<string, Cell>

  /** The network as one run sees it: the response to a GET of each URL. */
  type Fetcher = string -> Response

  /** A file of the archive. */
  datatype Entry = Entry(name: string, content: seq<byte>)

  /** One diagnostic record: ASIN, Column, URL, Saved As, Status, Error. */
  datatype Event = Event(
    asin: string,
    column: string,
    url: string,
    savedAs: Option<string>,
    status: Option<int>,
    error: Option<string>)

  /** `{'files_written', 'asins', 'errors'}`. */
  datatype Counters = Counters(filesWritten: nat, asins: nat, errors: nat)

  /** A valid cell about to be fetched, with the suffix it was given. */
  datatype Attempt = Attempt(asin: string, column: string, url: string, suffix: string)

  /** `row.get(col, None)`. */
  function Get(row: Row, col: string): Cell {
    if col in row then row[col] else None
  }

  /** `str(row[asin_col]).strip()`: the file name stem of a row. */
  function RowAsin(row: Row, asinCol: string): string
    requires asinCol in row
  {
    Strip(CellText(row[asinCol]))
  }

  /** Every row has the ASIN column (`row[asin_col]` is read unguarded). */
  predicate HasAsin(rows: seq<Row>, asinCol: string) {
    forall k :: 0 <= k < |rows| ==> asinCol in rows[k]
  }

  /**
   * The suffix pass of one row over the columns `cols`: the attempted cells,
   * in column order, and the PT counter after them (it starts at 1).
   */
  function RowAttempts(asin: string, row: Row, cols: seq<string>): (r: (seq<Attempt>, nat))
    ensures r.1 == 1 + |PtSuffixes(r.0)|
    decreases |cols|
  {
    if cols == [] then ([], 1)
    else
      var (prev, counter) := RowAttempts(asin, row, cols[..|cols| - 1]);
      var col := cols[|cols| - 1];
      var cell := Get(row, col);
      if !IsValidUrl(cell) then (prev, counter)
      else
        var (suffix, next) := SuffixForColumn(col, counter);
        SuffixForColumnContract(col, counter);
        var a := Attempt(asin, col, Strip(CellText(cell)), suffix);
        assert (prev + [a])[..|prev|] == prev;
        (prev + [a], next)
  }

  /** The attempts of one row; a row without the ASIN column is never passed in. */
  function RowPass(row: Row, asinCol: string, cols: seq<string>): seq<Attempt> {
    if asinCol in row then RowAttempts(RowAsin(row, asinCol), row, cols).0 else []
  }

  function PassOf(asinCol: string, cols: seq<string>): Row -> seq<Attempt> {
    row => RowPass(row, asinCol, cols)
  }

  function Map<A, B>(f: A -> B, s: seq<A>): (r: seq<B>)
    ensures |r| == |s|
  {
    if s == [] then [] else Map(f, s[..|s| - 1]) + [f(s[|s| - 1])]
  }

  /** The attempts of each row, in row order. */
  function RowPasses(rows: seq<Row>, asinCol: string, cols: seq<string>): seq<seq<Attempt>> {
    Map(PassOf(asinCol, cols), rows)
  }

  function Flatten<T>(xss: seq<seq<T>>): seq<T> {
    if xss == [] then [] else Flatten(xss[..|xss| - 1]) + xss[|xss| - 1]
  }

  /** The attempts of a batch: row by row, each in column order. */
  function BatchAttempts(rows: seq<Row>, asinCol: string, cols: seq<string>): seq<Attempt> {
    Flatten(RowPasses(rows, asinCol, cols))
  }

  /** `download_bytes(url)` for an attempt. */
  function Outcome(a: Attempt, fetch: Fetcher): Fetched {
    Classify(fetch(a.url))
  }

  /** `if content:` — present and non-empty. */
  predicate Downloaded(f: Fetched) {
    f.content.Some? && |f.content.value| > 0
  }

  /** `f"{asin}.{suffix}{ext}"`. */
  function FileName(asin: string, suffix: string, ext: string): string {
    asin + "." + suffix + ext
  }

  /** The archive name of a downloaded attempt. */
  function SavedName(a: Attempt, fetch: Fetcher): string {
    FileName(a.asin, a.suffix, InferExt(a.url, Outcome(a, fetch).contentType))
  }

  /** `err or "download_failed"`. */
  function FailureText(err: Option<string>): (t: string)
    ensures t != []
    ensures err.Some? && err.value != "" ==> t == err.value
    ensures !(err.Some? && err.value != "") ==> t == "download_failed"
  {
    if err.Some? && err.value != "" then err.value else "download_failed"
  }

  /**
   * The event of one attempt. It is a success exactly when the download
   * succeeded; a success names its file and has no error, a failure has no
   * file and a non-empty error.
   */
  function EventFor(a: Attempt, fetch: Fetcher): (e: Event)
    ensures e.asin == a.asin && e.column == a.column && e.url == a.url
    ensures e.status == Outcome(a, fetch).status
    ensures e.savedAs.Some? <==> Downloaded(Outcome(a, fetch))
    ensures e.savedAs.Some? ==> e.savedAs.value == SavedName(a, fetch) && e.error.None?
    ensures e.savedAs.None? ==> e.error == Some(FailureText(Outcome(a, fetch).error)) && e.error.value != []
  {
    var f := Outcome(a, fetch);
    if Downloaded(f) then Event(a.asin, a.column, a.url, Some(SavedName(a, fetch)), f.status, None)
    else Event(a.asin, a.column, a.url, None, f.status, Some(FailureText(f.error)))
  }

  /** The events of a sequence of attempts, one each, in order. */
  function EventsOf(atts: seq<Attempt>, fetch: Fetcher): (es: seq<Event>)
    ensures |es| == |atts|
  {
    if atts == [] then []
    else EventsOf(atts[..|atts| - 1], fetch) + [EventFor(atts[|atts| - 1], fetch)]
  }

  /** The archive entries written for a sequence of attempts, in order. */
  function ArchiveOf(atts: seq<Attempt>, fetch: Fetcher): seq<Entry> {
    if atts == [] then []
    else
      var a := atts[|atts| - 1];
      var f := Outcome(a, fetch);
      ArchiveOf(atts[..|atts| - 1], fetch) +
        (if Downloaded(f) then [Entry(SavedName(a, fetch), f.content.value)] else [])
  }

  /** The number of failure events. */
  function FailureCount(events: seq<Event>): nat {
    if events == [] then 0
    else FailureCount(events[..|events| - 1]) + (if events[|events| - 1].savedAs.None? then 1 else 0)
  }

  /** The file names recorded by the success events, in order. */
  function SavedNames(events: seq<Event>): seq<string> {
    if events == [] then []
    else
      var e := events[|events| - 1];
      SavedNames(events[..|events| - 1]) + (if e.savedAs.Some? then [e.savedAs.value] else [])
  }

  function Names(entries: seq<Entry>): (r: seq<string>)
    ensures |r| == |entries|
  {
    if entries == [] then [] else Names(entries[..|entries| - 1]) + [entries[|entries| - 1].name]
  }

  lemma {:induction false} EventsAppend(x: seq<Attempt>, y: seq<Attempt>, fetch: Fetcher)
    ensures EventsOf(x + y, fetch) == EventsOf(x, fetch) + EventsOf(y, fetch)
    decreases |y|
  {
    if y == [] {
      assert x + y == x;
    } else {
      var y' := y[..|y| - 1];
      assert (x + y)[..|x + y| - 1] == x + y';
      EventsAppend(x, y', fetch);
    }
  }

  lemma {:induction false} ArchiveAppend(x: seq<Attempt>, y: seq<Attempt>, fetch: Fetcher)
    ensures ArchiveOf(x + y, fetch) == ArchiveOf(x, fetch) + ArchiveOf(y, fetch)
    decreases |y|
  {
    if y == [] {
      assert x + y == x;
    } else {
      var y' := y[..|y| - 1];
      assert (x + y)[..|x + y| - 1] == x + y';
      ArchiveAppend(x, y', fetch);
    }
  }

  lemma {:induction false} FailureCountAppend(x: seq<Event>, y: seq<Event>)
    ensures FailureCount(x + y) == FailureCount(x) + FailureCount(y)
    decreases |y|
  {
    if y == [] {
      assert x + y == x;
    } else {
      var y' := y[..|y| - 1];
      assert (x + y)[..|x + y| - 1] == x + y';
      FailureCountAppend(x, y');
    }
  }

  /** A column whose cell is not a valid URL leaves the suffix pass unchanged. */
  lemma SkippedColumn(asin: string, row: Row, seen: seq<string>, col: string)
    requires !IsValidUrl(Get(row, col))
    ensures RowAttempts(asin, row, seen + [col]) == RowAttempts(asin, row, seen)
  {
    assert (seen + [col])[..|seen|] == seen;
  }

  /** A column whose cell is a valid URL adds one attempt under the suffix it is given. */
  lemma AttemptedColumn(asin: string, row: Row, seen: seq<string>, col: string, counter: nat, named: (string, nat))
    requires IsValidUrl(Get(row, col))
    requires counter == RowAttempts(asin, row, seen).1
    requires named == SuffixForColumn(col, counter)
    ensures RowAttempts(asin, row, seen + [col]).0 ==
              RowAttempts(asin, row, seen).0 + [Attempt(asin, col, Strip(CellText(Get(row, col))), named.0)]
    ensures RowAttempts(asin, row, seen + [col]).1 == named.1
  {
    assert (seen + [col])[..|seen|] == seen;
  }

  /** Extending the row prefix by one row appends that row's attempts. */
  lemma BatchAttemptsStep(rows: seq<Row>, asinCol: string, cols: seq<string>, i: nat)
    requires HasAsin(rows, asinCol) && i < |rows|
    ensures BatchAttempts(rows[..i + 1], asinCol, cols) ==
            BatchAttempts(rows[..i], asinCol, cols) + RowAttempts(RowAsin(rows[i], asinCol), rows[i], cols).0
  {
    var f := PassOf(asinCol, cols);
    assert rows[..i + 1][..i] == rows[..i];
    var ps := Map(f, rows[..i + 1]);
    assert ps[..i] == Map(f, rows[..i]);
    assert ps[i] == RowAttempts(RowAsin(rows[i], asinCol), rows[i], cols).0;
    assert Flatten(ps) == Flatten(ps[..i]) + ps[i];
  }

  /** A successful download adds one entry and one success event. */
  lemma DownloadedStep(before: seq<Attempt>, a: Attempt, fetch: Fetcher, f: Fetched, name: string)
    requires f == Classify(fetch(a.url)) && f.content.Some? && |f.content.value| > 0
    requires name == FileName(a.asin, a.suffix, InferExt(a.url, f.contentType))
    ensures ArchiveOf(before + [a], fetch) == ArchiveOf(before, fetch) + [Entry(name, f.content.value)]
    ensures EventsOf(before + [a], fetch) == EventsOf(before, fetch) + [Event(a.asin, a.column, a.url, Some(name), f.status, None)]
    ensures FailureCount(EventsOf(before + [a], fetch)) == FailureCount(EventsOf(before, fetch))
  {
    assert (before + [a])[..|before|] == before;
    assert EventsOf(before + [a], fetch)[..|before|] == EventsOf(before, fetch);
  }

  /** A failed download adds no entry and one failure event. */
  lemma FailedStep(before: seq<Attempt>, a: Attempt, fetch: Fetcher, f: Fetched)
    requires f == Classify(fetch(a.url)) && !(f.content.Some? && |f.content.value| > 0)
    ensures ArchiveOf(before + [a], fetch) == ArchiveOf(before, fetch)
    ensures EventsOf(before + [a], fetch) == EventsOf(before, fetch) + [Event(a.asin, a.column, a.url, None, f.status, Some(FailureText(f.error)))]
    ensures FailureCount(EventsOf(before + [a], fetch)) == FailureCount(EventsOf(before, fetch)) + 1
  {
    assert (before + [a])[..|before|] == before;
    assert EventsOf(before + [a], fetch)[..|before|] == EventsOf(before, fetch);
  }

  /**
   * One attempted cell: fetch it, then either store the bytes under the
   * computed name and log the file, or log the failure.
   */
  method FetchAndStore(ghost before: seq<Attempt>, a: Attempt, fetch: Fetcher,
                       entries: seq<Entry>, log: seq<Event>, written: nat, failed: nat)
    returns (entries': seq<Entry>, log': seq<Event>, written': nat, failed': nat)
    requires entries == ArchiveOf(before, fetch) && log == EventsOf(before, fetch)
    requires written == |entries| && failed == FailureCount(log)
    ensures entries' == ArchiveOf(before + [a], fetch) && log' == EventsOf(before + [a], fetch)
    ensures written' == |entries'| && failed' == FailureCount(log')
  {
    var f := Classify(fetch(a.url));
    if f.content.Some? && |f.content.value| > 0 {
      var ext := InferExt(a.url, f.contentType);
      var filename := FileName(a.asin, a.suffix, ext);
      DownloadedStep(before, a, fetch, f, filename);
      entries' := entries + [Entry(filename, f.content.value)];
      written' := written + 1;
      failed' := failed;
      log' := log + [Event(a.asin, a.column, a.url, Some(filename), f.status, None)];
    } else {
      FailedStep(before, a, fetch, f);
      entries', written' := entries, written;
      failed' := failed + 1;
      log' := log + [Event(a.asin, a.column, a.url, None, f.status, Some(FailureText(f.error)))];
    }
  }

  /**
   * The inner loop of `build_zip_for_batch` for one row: what the row adds to
   * the archive and to the log, and how many files and failures that is.
   */
  method ProcessRow(asin: string, row: Row, imageColumns: seq<string>, fetch: Fetcher)
    returns (entries: seq<Entry>, log: seq<Event>, written: nat, failed: nat)
    ensures entries == ArchiveOf(RowAttempts(asin, row, imageColumns).0, fetch)
    ensures log == EventsOf(RowAttempts(asin, row, imageColumns).0, fetch)
    ensures written == |entries| && failed == FailureCount(log)
  {
    entries, log, written, failed := [], [], 0, 0;
    var ptCounter := 1;
    ghost var attempts: seq<Attempt> := [];
    ghost var seen: seq<string> := [];
    var j := 0;
    while j < |imageColumns|
      invariant 0 <= j <= |imageColumns| && seen == imageColumns[..j]
      invariant attempts == RowAttempts(asin, row, seen).0
      invariant ptCounter == RowAttempts(asin, row, seen).1
      invariant entries == ArchiveOf(attempts, fetch) && log == EventsOf(attempts, fetch)
      invariant written == |entries| && failed == FailureCount(log)
    {
      var col := imageColumns[j];
      var rawUrl := Get(row, col);
      if IsValidUrl(rawUrl) {
        var url := Strip(CellText(rawUrl));
        var named := SuffixForColumn(col, ptCounter);
        AttemptedColumn(asin, row, seen, col, ptCounter, named);
        var suffix := named.0;
        ptCounter := named.1;
        var a := Attempt(asin, col, url, suffix);
        entries, log, written, failed := FetchAndStore(attempts, a, fetch, entries, log, written, failed);
        attempts := attempts + [a];
      } else {
        SkippedColumn(asin, row, seen, col);
      }
      TakeSnoc(imageColumns, j);
      seen := seen + [col];
      j := j + 1;
    }
    assert seen == imageColumns;
  }

  /** What one more row adds to the attempts, the archive, the log and the failure count of a batch. */
  lemma RowStep(rows: seq<Row>, asinCol: string, cols: seq<string>, fetch: Fetcher, i: nat,
                done: seq<Attempt>, asin: string, entries: seq<Entry>, log: seq<Event>)
    requires HasAsin(rows, asinCol) && i < |rows| && asin == RowAsin(rows[i], asinCol)
    requires done == BatchAttempts(rows[..i], asinCol, cols)
    requires entries == ArchiveOf(RowAttempts(asin, rows[i], cols).0, fetch)
    requires log == EventsOf(RowAttempts(asin, rows[i], cols).0, fetch)
    ensures var next := done + RowAttempts(asin, rows[i], cols).0;
            && BatchAttempts(rows[..i + 1], asinCol, cols) == next
            && ArchiveOf(next, fetch) == ArchiveOf(done, fetch) + entries
            && EventsOf(next, fetch) == EventsOf(done, fetch) + log
            && FailureCount(EventsOf(next, fetch)) == FailureCount(EventsOf(done, fetch)) + FailureCount(log)
  {
    var rowAttempts := RowAttempts(asin, rows[i], cols).0;
    BatchAttemptsStep(rows, asinCol, cols, i);
    ArchiveAppend(done, rowAttempts, fetch);
    EventsAppend(done, rowAttempts, fetch);
    FailureCountAppend(EventsOf(done, fetch), log);
  }

  /**
   * `build_zip_for_batch`: every row in order, each with its image columns in
   * order. The archive and the log are exactly those of the batch's attempts;
   * `asins` counts every row, also one without a valid cell.
   */
  method BuildZipForBatch(rows: seq<Row>, asinCol: string, imageColumns: seq<string>, fetch: Fetcher)
    returns (archive: seq<Entry>, counters: Counters, events: seq<Event>)
    requires HasAsin(rows, asinCol)
    ensures archive == ArchiveOf(BatchAttempts(rows, asinCol, imageColumns), fetch)
    ensures events == EventsOf(BatchAttempts(rows, asinCol, imageColumns), fetch)
    ensures counters == Counters(|archive|, |rows|, FailureCount(events))
  {
    archive, events := [], [];
    var filesWritten, errors := 0, 0;
    ghost var done: seq<Attempt> := [];
    var i := 0;
    while i < |rows|
      invariant 0 <= i <= |rows| && done == BatchAttempts(rows[..i], asinCol, imageColumns)
      invariant archive == ArchiveOf(done, fetch) && events == EventsOf(done, fetch)
      invariant filesWritten == |archive| && errors == FailureCount(events)
    {
      var row := rows[i];
      var asin := RowAsin(row, asinCol);
      var entries, log, written, failed := ProcessRow(asin, row, imageColumns, fetch);
      RowStep(rows, asinCol, imageColumns, fetch, i, done, asin, entries, log);
      done := done + RowAttempts(asin, row, imageColumns).0;
      archive := archive + entries;
      events := events + log;
      filesWritten := filesWritten + written;
      errors := errors + failed;
      i := i + 1;
    }
    assert rows[..|rows|] == rows;
    counters := Counters(filesWritten, |rows|, errors);
  }

  // ---- What a batch promises ----

  /** The columns of the given ones whose cell in the row is a valid URL, in order. */
  function ValidColumns(row: Row, cols: seq<string>): seq<string> {
    if cols == [] then []
    else
      ValidColumns(row, cols[..|cols| - 1]) +
        (if IsValidUrl(Get(row, cols[|cols| - 1])) then [cols[|cols| - 1]] else [])
  }

  function Columns(atts: seq<Attempt>): (cs: seq<string>)
    ensures |cs| == |atts| && forall k :: 0 <= k < |atts| ==> cs[k] == atts[k].column
  {
    seq(|atts|, k requires 0 <= k < |atts| => atts[k].column)
  }

  /** The PT suffixes handed out, in order. */
  function PtSuffixes(atts: seq<Attempt>): seq<string> {
    if atts == [] then []
    else
      var a := atts[|atts| - 1];
      PtSuffixes(atts[..|atts| - 1]) + (if IsPtSuffix(a.suffix) then [a.suffix] else [])
  }

  /** `PT01`, `PT02`, ..., for the counter values before `next`. */
  function PtRun(next: nat): seq<string> {
    seq(if next == 0 then 0 else next - 1, k requires 0 <= k => PtSuffix(k + 1))
  }

  /** Handing out the next positional suffix extends the run by it. */
  lemma PtRunStep(n: nat)
    requires n >= 1
    ensures PtRun(n + 1) == PtRun(n) + [PtSuffix(n)]
  {
    var r := PtRun(n + 1);
    var t := PtRun(n) + [PtSuffix(n)];
    assert |r| == |t|;
    assert forall k :: 0 <= k < |r| ==> r[k] == t[k];
  }

  /** The positional names of one row are pairwise distinct. */
  lemma PtRunDistinct(next: nat, p: nat, q: nat)
    requires p < q && q + 1 < next
    ensures PtRun(next)[p] != PtRun(next)[q]
  {
    PtSuffixInjective(p + 1, q + 1);
  }

  /** A row's attempts are its valid cells, in column order. */
  lemma {:induction false} RowColumns(asin: string, row: Row, cols: seq<string>)
    ensures Columns(RowAttempts(asin, row, cols).0) == ValidColumns(row, cols)
    decreases |cols|
  {
    if cols != [] {
      var init := cols[..|cols| - 1];
      var col := cols[|cols| - 1];
      assert cols == init + [col];
      RowColumns(asin, row, init);
      var before := RowAttempts(asin, row, init);
      var prev := before.0;
      if IsValidUrl(Get(row, col)) {
        var named := SuffixForColumn(col, before.1);
        AttemptedColumn(asin, row, init, col, before.1, named);
        var a := Attempt(asin, col, Strip(CellText(Get(row, col))), named.0);
        assert Columns(prev + [a]) == Columns(prev) + [col];
      } else {
        SkippedColumn(asin, row, init, col);
      }
    }
  }

  /**
   * The positional suffixes of a row are PT01, PT02, ... in order, and the
   * counter ends one past the last of them.
   */
  lemma {:induction false} RowPtNumbering(asin: string, row: Row, cols: seq<string>)
    ensures PtSuffixes(RowAttempts(asin, row, cols).0) == PtRun(RowAttempts(asin, row, cols).1)
    decreases |cols|
  {
    if cols != [] {
      var init := cols[..|cols| - 1];
      var col := cols[|cols| - 1];
      assert cols == init + [col];
      RowPtNumbering(asin, row, init);
      var (prev, counter) := RowAttempts(asin, row, init);
      if IsValidUrl(Get(row, col)) {
        var named := SuffixForColumn(col, counter);
        SuffixForColumnContract(col, counter);
        AttemptedColumn(asin, row, init, col, counter, named);
        var a := Attempt(asin, col, Strip(CellText(Get(row, col))), named.0);
        assert (prev + [a])[..|prev|] == prev;
        if IsPtSuffix(named.0) {
          PtRunStep(counter);
        }
      } else {
        SkippedColumn(asin, row, init, col);
      }
    }
  }

  /**
   * Every attempt of a row carries the row's ASIN and the stripped text of a
   * valid cell; its suffix is Swatch or Main by the column's name alone, and
   * otherwise positional.
   */
  lemma {:induction false} RowAttemptFacts(asin: string, row: Row, cols: seq<string>, k: nat)
    requires k < |RowAttempts(asin, row, cols).0|
    ensures var a := RowAttempts(asin, row, cols).0[k];
            && a.asin == asin
            && IsValidUrl(Get(row, a.column))
            && a.url == Strip(CellText(Get(row, a.column)))
            && (a.suffix == "Swatch" <==> Contains(NormalizeColumn(a.column), "swatch"))
            && (a.suffix == "Main" <==>
                  !Contains(NormalizeColumn(a.column), "swatch") && IsMainNamed(NormalizeColumn(a.column)))
            && (a.suffix != "Swatch" && a.suffix != "Main" ==> IsPtSuffix(a.suffix))
    decreases |cols|
  {
    var init := cols[..|cols| - 1];
    var col := cols[|cols| - 1];
    assert cols == init + [col];
    var (prev, counter) := RowAttempts(asin, row, init);
    if IsValidUrl(Get(row, col)) {
      var named := SuffixForColumn(col, counter);
      SuffixForColumnContract(col, counter);
      AttemptedColumn(asin, row, init, col, counter, named);
      if k < |prev| {
        RowAttemptFacts(asin, row, init, k);
      }
    } else {
      SkippedColumn(asin, row, init, col);
      RowAttemptFacts(asin, row, init, k);
    }
  }

  /** Each event is the event of the attempt at the same position. */
  lemma {:induction false} EventAt(atts: seq<Attempt>, fetch: Fetcher, k: nat)
    requires k < |atts|
    ensures EventsOf(atts, fetch)[k] == EventFor(atts[k], fetch)
    decreases |atts|
  {
    if k < |atts| - 1 {
      EventAt(atts[..|atts| - 1], fetch, k);
    }
  }

  /**
   * The archive and the log agree: the archive's names are the Saved As
   * fields of the success events, in order, and every attempt is either an
   * archive entry or a failure.
   */
  lemma {:induction false} ArchiveMatchesEvents(atts: seq<Attempt>, fetch: Fetcher)
    ensures Names(ArchiveOf(atts, fetch)) == SavedNames(EventsOf(atts, fetch))
    ensures |ArchiveOf(atts, fetch)| + FailureCount(EventsOf(atts, fetch)) == |atts|
    decreases |atts|
  {
    if atts != [] {
      var init := atts[..|atts| - 1];
      var a := atts[|atts| - 1];
      assert atts == init + [a];
      ArchiveMatchesEvents(init, fetch);
      var f := Outcome(a, fetch);
      var e := EventFor(a, fetch);
      var es := EventsOf(init, fetch) + [e];
      assert es[..|es| - 1] == EventsOf(init, fetch);
      if Downloaded(f) {
        var entry := Entry(SavedName(a, fetch), f.content.value);
        DownloadedStep(init, a, fetch, f, SavedName(a, fetch));
        var ar := ArchiveOf(init, fetch) + [entry];
        assert ar[..|ar| - 1] == ArchiveOf(init, fetch);
        assert Names(ar) == Names(ArchiveOf(init, fetch)) + [SavedName(a, fetch)];
        assert SavedNames(es) == SavedNames(EventsOf(init, fetch)) + [SavedName(a, fetch)];
      } else {
        FailedStep(init, a, fetch, f);
        assert SavedNames(es) == SavedNames(EventsOf(init, fetch));
      }
    }
  }

  lemma ConcatAssoc<T>(a: seq<T>, b: seq<T>, c: seq<T>)
    ensures (a + b) + c == a + (b + c)
  {
  }

  lemma TakeSnoc<T>(s: seq<T>, j: nat)
    requires j < |s|
    ensures s[..j + 1] == s[..j] + [s[j]]
  {
  }

  lemma {:induction false} FlattenAppend<T>(a: seq<seq<T>>, b: seq<seq<T>>)
    ensures Flatten(a + b) == Flatten(a) + Flatten(b)
    decreases |b|
  {
    if b == [] {
      assert a + b == a;
    } else {
      var b' := b[..|b| - 1];
      assert (a + b)[..|a + b| - 1] == a + b';
      FlattenAppend(a, b');
    }
  }

  lemma {:induction false} MapAppend<A, B>(f: A -> B, a: seq<A>, b: seq<A>)
    ensures Map(f, a + b) == Map(f, a) + Map(f, b)
    decreases |b|
  {
    if b == [] {
      assert a + b == a;
    } else {
      var b' := b[..|b| - 1];
      assert (a + b)[..|a + b| - 1] == a + b';
      MapAppend(f, a, b');
    }
  }

  /** The attempts of consecutive row blocks are consecutive. */
  lemma BatchAttemptsAppend(x: seq<Row>, y: seq<Row>, asinCol: string, cols: seq<string>)
    ensures BatchAttempts(x + y, asinCol, cols) == BatchAttempts(x, asinCol, cols) + BatchAttempts(y, asinCol, cols)
  {
    MapAppend(PassOf(asinCol, cols), x, y);
    FlattenAppend(RowPasses(x, asinCol, cols), RowPasses(y, asinCol, cols));
  }

  /** The column is a swatch column and the row's cell in it is a valid URL. */
  predicate SwatchCell(row: Row, col: string) {
    IsValidUrl(Get(row, col)) && Contains(NormalizeColumn(col), "swatch")
  }

  /** A swatch column with a valid cell is attempted as Swatch and leaves the counter alone. */
  lemma SwatchColumn(asin: string, row: Row, seen: seq<string>, col: string)
    requires SwatchCell(row, col)
    ensures RowAttempts(asin, row, seen + [col]) ==
              (RowAttempts(asin, row, seen).0 + [Attempt(asin, col, Strip(CellText(Get(row, col))), "Swatch")],
               RowAttempts(asin, row, seen).1)
  {
    SuffixForColumnContract(col, RowAttempts(asin, row, seen).1);
    assert (seen + [col])[..|seen|] == seen;
  }

  /** A swatch column that comes first is attempted alone, with the counter still at 1. */
  lemma FirstSwatchColumn(asin: string, row: Row, col: string)
    requires SwatchCell(row, col)
    ensures RowAttempts(asin, row, [col]) == ([Attempt(asin, col, Strip(CellText(Get(row, col))), "Swatch")], 1)
  {
    assert RowAttempts(asin, row, []) == ([], 1);
    SwatchColumn(asin, row, [], col);
    assert [] + [col] == [col];
  }

  /** Two swatch columns with valid cells are both attempted under the suffix Swatch. */
  lemma TwoSwatchColumns(asin: string, row: Row, c1: string, c2: string)
    requires SwatchCell(row, c1) && SwatchCell(row, c2)
    ensures RowAttempts(asin, row, [c1, c2]).0 ==
              [Attempt(asin, c1, Strip(CellText(Get(row, c1))), "Swatch"),
               Attempt(asin, c2, Strip(CellText(Get(row, c2))), "Swatch")]
  {
    FirstSwatchColumn(asin, row, c1);
    SwatchColumn(asin, row, [c1], c2);
    assert [c1] + [c2] == [c1, c2];
  }

  /** Two successful downloads give two archive entries, in order. */
  lemma TwoDownloads(a1: Attempt, a2: Attempt, fetch: Fetcher)
    requires Downloaded(Outcome(a1, fetch)) && Downloaded(Outcome(a2, fetch))
    ensures ArchiveOf([a1, a2], fetch) ==
              [Entry(SavedName(a1, fetch), Outcome(a1, fetch).content.value),
               Entry(SavedName(a2, fetch), Outcome(a2, fetch).content.value)]
  {
    var e1 := Entry(SavedName(a1, fetch), Outcome(a1, fetch).content.value);
    var e2 := Entry(SavedName(a2, fetch), Outcome(a2, fetch).content.value);
    assert ArchiveOf([a1], fetch) == [e1] by { assert [a1][..0] == []; }
    assert ArchiveOf([a2], fetch) == [e2] by { assert [a2][..0] == []; }
    ArchiveAppend([a1], [a2], fetch);
    assert [a1] + [a2] == [a1, a2];
  }

  /**
   * File names are not disambiguated: two swatch columns of one row whose
   * downloads succeed with the same extension produce two archive entries
   * under the same name.
   */
  lemma SwatchColumnsCollide(asin: string, row: Row, c1: string, c2: string, fetch: Fetcher)
    requires IsValidUrl(Get(row, c1)) && IsValidUrl(Get(row, c2))
    requires Contains(NormalizeColumn(c1), "swatch") && Contains(NormalizeColumn(c2), "swatch")
    requires var u1 := Strip(CellText(Get(row, c1)));
             var u2 := Strip(CellText(Get(row, c2)));
             && Downloaded(Classify(fetch(u1))) && Downloaded(Classify(fetch(u2)))
             && InferExt(u1, Classify(fetch(u1)).contentType) == InferExt(u2, Classify(fetch(u2)).contentType)
    ensures var archive := ArchiveOf(RowAttempts(asin, row, [c1, c2]).0, fetch);
            |archive| == 2 && archive[0].name == archive[1].name
  {
    TwoSwatchColumns(asin, row, c1, c2);
    TwoDownloads(Attempt(asin, c1, Strip(CellText(Get(row, c1))), "Swatch"),
                 Attempt(asin, c2, Strip(CellText(Get(row, c2))), "Swatch"), fetch);
  }


}
