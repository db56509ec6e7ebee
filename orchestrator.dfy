/**
 * The batch loop behind "Generate ZIP Batches": the deduplicated rows are cut
 * into consecutive batches of `batchSize` rows, each batch is packaged by
 * `BuildZipForBatch` under a numbered label, and the events of all batches are
 * collected in order.
 */
module Orchestrator {
  import opened Decimal
  import opened BatchBuilder

  function Min(a: int, b: int): int {
    if a <= b then a else b
  }

  /** `math.ceil(n / b)`: the number of batches. */
  function NumBatches(n: nat, b: nat): nat
    requires b >= 1
  {
    (n + b - 1) / b
  }

  /** `min(i * b, n)`: where batch `i` starts in a sheet of `n` rows. */
  function Cut(n: nat, b: nat, i: nat): (k: nat)
    ensures k <= n
  {
    if i * b <= n then i * b else n
  }

  /** `df.iloc[i * b:(i + 1) * b]`: the slice of batch `i`, clipped to the rows. */
  function Batch(rows: seq<Row>, b: nat, i: nat): seq<Row>
    requires b >= 1
  {
    CutStep(|rows|, b, i);
    rows[Cut(|rows|, b, i)..Cut(|rows|, b, i + 1)]
  }

  /** `f"asin_batch_{i + 1:02d}_of_{total:02d}.zip"` for the batch of index `i`. */
  function Label(i: nat, total: nat): string {
    "asin_batch_" + Pad2(i + 1) + "_of_" + Pad2(total) + ".zip"
  }

  /** One download offered to the user: the file name, the archive and its counters. */
  datatype Payload = Payload(zipName: string, archive: seq<Entry>, counters: Counters)

  /** The archive, counters and events that `build_zip_for_batch` gives batch `i`. */
  function PayloadFor(rows: seq<Row>, asinCol: string, cols: seq<string>, b: nat, fetch: Fetcher, i: nat): Payload
    requires b >= 1
  {
    var batch := Batch(rows, b, i);
    var atts := BatchAttempts(batch, asinCol, cols);
    Payload(Label(i, NumBatches(|rows|, b)), ArchiveOf(atts, fetch),
            Counters(|ArchiveOf(atts, fetch)|, |batch|, FailureCount(EventsOf(atts, fetch))))
  }

  function BatchEvents(rows: seq<Row>, asinCol: string, cols: seq<string>, b: nat, fetch: Fetcher, i: nat): seq<Event>
    requires b >= 1
  {
    EventsOf(BatchAttempts(Batch(rows, b, i), asinCol, cols), fetch)
  }

  /** All batches, in order. */
  function Batches(rows: seq<Row>, b: nat): (bs: seq<seq<Row>>)
    requires b >= 1
    ensures |bs| == NumBatches(|rows|, b)
  {
    seq(NumBatches(|rows|, b), i requires 0 <= i => Batch(rows, b, i))
  }

  /** `batch_download_payloads` once the loop is done. */
  function Payloads(rows: seq<Row>, asinCol: string, cols: seq<string>, b: nat, fetch: Fetcher): (ps: seq<Payload>)
    requires b >= 1
    ensures |ps| == NumBatches(|rows|, b)
  {
    seq(NumBatches(|rows|, b), i requires 0 <= i => PayloadFor(rows, asinCol, cols, b, fetch, i))
  }

  /** The event lists of the batches, in order. */
  function EventLog(rows: seq<Row>, asinCol: string, cols: seq<string>, b: nat, fetch: Fetcher): (es: seq<seq<Event>>)
    requires b >= 1
    ensures |es| == NumBatches(|rows|, b)
  {
    seq(NumBatches(|rows|, b), i requires 0 <= i => BatchEvents(rows, asinCol, cols, b, fetch, i))
  }

  /** The sum of the `asins` counters. */
  function TotalAsins(ps: seq<Payload>): nat {
    if ps == [] then 0 else TotalAsins(ps[..|ps| - 1]) + ps[|ps| - 1].counters.asins
  }

  /**
   * The click handler of "Generate ZIP Batches". Without an image column
   * nothing is produced (`ok` is false); otherwise one payload per batch, in
   * order, and the events of all batches one after the other.
   */
  method GenerateBatches(rows: seq<Row>, asinCol: string, imageColumns: seq<string>, batchSize: nat, fetch: Fetcher)
    returns (ok: bool, payloads: seq<Payload>, allEvents: seq<Event>)
    requires batchSize >= 1 && HasAsin(rows, asinCol)
    ensures ok <==> imageColumns != []
    ensures !ok ==> payloads == [] && allEvents == []
    ensures ok ==> payloads == Payloads(rows, asinCol, imageColumns, batchSize, fetch)
    ensures ok ==> allEvents == Flatten(EventLog(rows, asinCol, imageColumns, batchSize, fetch))
  {
    payloads, allEvents := [], [];
    if imageColumns == [] {
      return false, payloads, allEvents;
    }
    ok := true;
    var numBatches := NumBatches(|rows|, batchSize);
    ghost var want := Payloads(rows, asinCol, imageColumns, batchSize, fetch);
    ghost var log := EventLog(rows, asinCol, imageColumns, batchSize, fetch);
    var batchIdx := 0;
    while batchIdx < numBatches
      invariant 0 <= batchIdx <= numBatches
      invariant payloads == want[..batchIdx]
      invariant allEvents == Flatten(log[..batchIdx])
    {
      var start := batchIdx * batchSize;
      var end := (batchIdx + 1) * batchSize;
      CutClips(|rows|, batchSize, batchIdx);
      var batchRows := rows[Min(start, |rows|)..Min(end, |rows|)];
      BatchHasAsin(rows, asinCol, batchSize, batchIdx);
      var archive, counters, events := BuildZipForBatch(batchRows, asinCol, imageColumns, fetch);
      allEvents := allEvents + events;
      var batchLabel := Label(batchIdx, numBatches);
      payloads := payloads + [Payload(batchLabel, archive, counters)];
      LoopStep(rows, asinCol, imageColumns, batchSize, fetch, batchIdx, want, log, archive, counters, events);
      batchIdx := batchIdx + 1;
    }
    assert want[..numBatches] == want;
    assert log[..numBatches] == log;
  }

  /** What one more batch adds to the payloads and to the events. */
  lemma LoopStep(rows: seq<Row>, asinCol: string, cols: seq<string>, b: nat, fetch: Fetcher, i: nat,
                 want: seq<Payload>, log: seq<seq<Event>>,
                 archive: seq<Entry>, counters: Counters, events: seq<Event>)
    requires b >= 1 && i < NumBatches(|rows|, b)
    requires want == Payloads(rows, asinCol, cols, b, fetch) && log == EventLog(rows, asinCol, cols, b, fetch)
    requires archive == ArchiveOf(BatchAttempts(Batch(rows, b, i), asinCol, cols), fetch)
    requires events == EventsOf(BatchAttempts(Batch(rows, b, i), asinCol, cols), fetch)
    requires counters == Counters(|archive|, |Batch(rows, b, i)|, FailureCount(events))
    ensures want[..i + 1] == want[..i] + [Payload(Label(i, NumBatches(|rows|, b)), archive, counters)]
    ensures Flatten(log[..i + 1]) == Flatten(log[..i]) + events
  {
    TakeSnoc(want, i);
    TakeSnoc(log, i);
    FlattenSnoc(log[..i], log[i]);
  }

  // ---- Arithmetic of the partition ----

  /** Consecutive batch starts are `b` apart, up to the end of the rows. */
  lemma CutStep(n: nat, b: nat, i: nat)
    ensures Cut(n, b, i + 1) == Min(Cut(n, b, i) + b, n)
  {
    MulSucc(i, b);
  }

  /** The clipped bounds the loop computes are the batch starts. */
  lemma CutClips(n: nat, b: nat, i: nat)
    ensures Min(i * b, n) == Cut(n, b, i) && Min((i + 1) * b, n) == Cut(n, b, i + 1)
    ensures Cut(n, b, i) <= Cut(n, b, i + 1)
  {
    CutStep(n, b, i);
  }

  /** Past the last batch, the start is the end of the rows. */
  lemma CutEnd(n: nat, b: nat)
    requires b >= 1
    ensures Cut(n, b, NumBatches(n, b)) == n
  {
    NumBatchesIsCeiling(n, b);
  }

  lemma MulSucc(i: nat, b: nat)
    ensures (i + 1) * b == i * b + b
  {
  }

  /** `NumBatches` is the ceiling of `n / b`: enough batches, and none to spare. */
  lemma NumBatchesIsCeiling(n: nat, b: nat)
    requires b >= 1
    ensures NumBatches(n, b) * b >= n
    ensures n > 0 ==> (NumBatches(n, b) - 1) * b < n
    ensures n == 0 <==> NumBatches(n, b) == 0
  {
    var q := NumBatches(n, b);
    var r := (n + b - 1) % b;
    assert n + b - 1 == q * b + r;
    if q >= 1 {
      MulSucc(q - 1, b);
    }
  }

  /** Every batch is non-empty, and all but the last hold exactly `b` rows. */
  lemma BatchSize(rows: seq<Row>, b: nat, i: nat)
    requires b >= 1 && i < NumBatches(|rows|, b)
    ensures 1 <= |Batch(rows, b, i)| <= b
    ensures i + 1 < NumBatches(|rows|, b) ==> |Batch(rows, b, i)| == b
  {
    var q := NumBatches(|rows|, b);
    NumBatchesIsCeiling(|rows|, b);
    CutStep(|rows|, b, i);
    MulMono(i, q - 1, b);
    if i + 1 < q {
      MulMono(i + 1, q - 1, b);
      MulSucc(i, b);
    }
  }

  lemma MulMono(x: nat, y: nat, b: nat)
    requires x <= y
    ensures x * b <= y * b
  {
  }

  /** A batch holds the rows of the ASIN column whenever the whole sheet does. */
  lemma BatchHasAsin(rows: seq<Row>, asinCol: string, b: nat, i: nat)
    requires b >= 1 && HasAsin(rows, asinCol)
    ensures HasAsin(Batch(rows, b, i), asinCol)
  {
    CutStep(|rows|, b, i);
    var lo := Cut(|rows|, b, i);
    var batch := Batch(rows, b, i);
    forall k | 0 <= k < |batch|
      ensures asinCol in batch[k]
    {
      assert batch[k] == rows[lo + k];
    }
  }

  /** The first `i` batches hold exactly the rows before the start of batch `i`. */
  lemma {:induction false} BatchesPrefix(rows: seq<Row>, b: nat, i: nat)
    requires b >= 1 && i <= NumBatches(|rows|, b)
    ensures Flatten(Batches(rows, b)[..i]) == rows[..Cut(|rows|, b, i)]
  {
    if i > 0 {
      var bs := Batches(rows, b);
      BatchesPrefix(rows, b, i - 1);
      TakeSnoc(bs, i - 1);
      FlattenSnoc(bs[..i - 1], bs[i - 1]);
      CutStep(|rows|, b, i - 1);
      var lo := Cut(|rows|, b, i - 1);
      var hi := Cut(|rows|, b, i);
      assert rows[..hi] == rows[..lo] + rows[lo..hi];
    }
  }

  /** The batches concatenate back to the rows: every row is in exactly one batch, in order. */
  lemma BatchesPartition(rows: seq<Row>, b: nat)
    requires b >= 1
    ensures Flatten(Batches(rows, b)) == rows
  {
    var q := NumBatches(|rows|, b);
    CutEnd(|rows|, b);
    BatchesPrefix(rows, b, q);
    assert Batches(rows, b)[..q] == Batches(rows, b);
    assert rows[..|rows|] == rows;
  }

  /** `r / b` is the one `i` with `i * b <= r < i * b + b`. */
  lemma DivUnique(r: nat, b: nat, i: nat)
    requires b >= 1
    ensures i * b <= r < i * b + b <==> i == r / b
  {
    var j := r / b;
    assert j * b <= r < j * b + b;
    if i < j {
      MulMono(i + 1, j, b);
      MulSucc(i, b);
    } else if j < i {
      MulMono(j + 1, i, b);
      MulSucc(j, b);
    }
  }

  /** Row `r` lies in batch `i` exactly when `i` is `r / b`. */
  lemma RowInBatch(rows: seq<Row>, b: nat, r: nat, i: nat)
    requires b >= 1 && r < |rows|
    ensures Cut(|rows|, b, i) <= r < Cut(|rows|, b, i + 1) <==> i == r / b
  {
    MulSucc(i, b);
    DivUnique(r, b, i);
  }

  /** The batch of row `r` is a real batch, and has the row at position `r % b`. */
  lemma RowPosition(rows: seq<Row>, b: nat, r: nat)
    requires b >= 1 && r < |rows|
    ensures r / b < NumBatches(|rows|, b)
    ensures r % b < |Batch(rows, b, r / b)| && Batch(rows, b, r / b)[r % b] == rows[r]
  {
    var j := r / b;
    assert r == j * b + r % b;
    MulSucc(j, b);
    var q := NumBatches(|rows|, b);
    NumBatchesIsCeiling(|rows|, b);
    if q <= j {
      MulMono(q, j, b);
    }
  }

  /** The `asins` counters of the first `i` payloads add up to the rows those batches hold. */
  lemma {:induction false} AsinsPrefix(rows: seq<Row>, asinCol: string, cols: seq<string>, b: nat, fetch: Fetcher, i: nat)
    requires b >= 1 && i <= NumBatches(|rows|, b)
    ensures TotalAsins(Payloads(rows, asinCol, cols, b, fetch)[..i]) == Cut(|rows|, b, i)
  {
    if i > 0 {
      var ps := Payloads(rows, asinCol, cols, b, fetch);
      AsinsPrefix(rows, asinCol, cols, b, fetch, i - 1);
      CutStep(|rows|, b, i - 1);
      TakeSnoc(ps, i - 1);
      TotalAsinsSnoc(ps[..i - 1], ps[i - 1]);
      PayloadAsins(rows, asinCol, cols, b, fetch, i - 1);
    }
  }

  lemma TotalAsinsSnoc(ps: seq<Payload>, p: Payload)
    ensures TotalAsins(ps + [p]) == TotalAsins(ps) + p.counters.asins
  {
    assert (ps + [p])[..|ps|] == ps;
  }

  /** A payload's `asins` counter is the number of rows in its batch. */
  lemma PayloadAsins(rows: seq<Row>, asinCol: string, cols: seq<string>, b: nat, fetch: Fetcher, i: nat)
    requires b >= 1
    ensures PayloadFor(rows, asinCol, cols, b, fetch, i).counters.asins == Cut(|rows|, b, i + 1) - Cut(|rows|, b, i)
  {
    CutStep(|rows|, b, i);
  }

  /** The `asins` counters of all batches add up to the number of rows. */
  lemma AsinsSumToRows(rows: seq<Row>, asinCol: string, cols: seq<string>, b: nat, fetch: Fetcher)
    requires b >= 1
    ensures TotalAsins(Payloads(rows, asinCol, cols, b, fetch)) == |rows|
  {
    var q := NumBatches(|rows|, b);
    CutEnd(|rows|, b);
    AsinsPrefix(rows, asinCol, cols, b, fetch, q);
    assert Payloads(rows, asinCol, cols, b, fetch)[..q] == Payloads(rows, asinCol, cols, b, fetch);
  }

  /** The events of the first `i` batches are those of the rows they hold. */
  lemma {:induction false} EventsPrefix(rows: seq<Row>, asinCol: string, cols: seq<string>, b: nat, fetch: Fetcher, i: nat)
    requires b >= 1 && i <= NumBatches(|rows|, b)
    ensures Flatten(EventLog(rows, asinCol, cols, b, fetch)[..i]) ==
            EventsOf(BatchAttempts(rows[..Cut(|rows|, b, i)], asinCol, cols), fetch)
  {
    if i > 0 {
      var es := EventLog(rows, asinCol, cols, b, fetch);
      EventsPrefix(rows, asinCol, cols, b, fetch, i - 1);
      TakeSnoc(es, i - 1);
      FlattenSnoc(es[..i - 1], es[i - 1]);
      CutStep(|rows|, b, i - 1);
      BatchRowsAppend(rows, Cut(|rows|, b, i - 1), Cut(|rows|, b, i), asinCol, cols, fetch);
    }
  }

  /** Two adjacent row ranges give the events of both, one after the other. */
  lemma BatchRowsAppend(rows: seq<Row>, lo: nat, hi: nat, asinCol: string, cols: seq<string>, fetch: Fetcher)
    requires lo <= hi <= |rows|
    ensures EventsOf(BatchAttempts(rows[..hi], asinCol, cols), fetch) ==
            EventsOf(BatchAttempts(rows[..lo], asinCol, cols), fetch) + EventsOf(BatchAttempts(rows[lo..hi], asinCol, cols), fetch)
  {
    assert rows[..hi] == rows[..lo] + rows[lo..hi];
    BatchAttemptsAppend(rows[..lo], rows[lo..hi], asinCol, cols);
    EventsAppend(BatchAttempts(rows[..lo], asinCol, cols), BatchAttempts(rows[lo..hi], asinCol, cols), fetch);
  }

  lemma FlattenSnoc<T>(xs: seq<seq<T>>, x: seq<T>)
    ensures Flatten(xs + [x]) == Flatten(xs) + x
  {
    assert (xs + [x])[..|xs|] == xs;
  }

  /**
   * Batching changes nothing about the events: `all_events` is the log that
   * one batch of all rows would give.
   */
  lemma EventsIndependentOfBatching(rows: seq<Row>, asinCol: string, cols: seq<string>, b: nat, fetch: Fetcher)
    requires b >= 1
    ensures Flatten(EventLog(rows, asinCol, cols, b, fetch)) == EventsOf(BatchAttempts(rows, asinCol, cols), fetch)
  {
    var q := NumBatches(|rows|, b);
    CutEnd(|rows|, b);
    EventsPrefix(rows, asinCol, cols, b, fetch, q);
    assert EventLog(rows, asinCol, cols, b, fetch)[..q] == EventLog(rows, asinCol, cols, b, fetch);
    assert rows[..|rows|] == rows;
  }

  /** A label is the fixed prefix followed by the batch number and the rest. */
  lemma LabelShape(i: nat, total: nat)
    ensures Label(i, total) == "asin_batch_" + (Pad2(i + 1) + ("_of_" + Pad2(total) + ".zip"))
  {
    var p, n, o, t, z := "asin_batch_", Pad2(i + 1), "_of_", Pad2(total), ".zip";
    ConcatAssoc(p + n + o, t, z);
    ConcatAssoc(p + n, o, t + z);
    ConcatAssoc(p, n, o + (t + z));
    ConcatAssoc(o, t, z);
  }

  lemma DropPrefix<T>(a: seq<T>, b: seq<T>)
    ensures (a + b)[|a|..] == b
  {
  }

  /** Batches of one run get the same label only when they are the same batch. */
  lemma LabelInjective(i: nat, j: nat, total: nat)
    ensures Label(i, total) == Label(j, total) <==> i == j
  {
    var p := "asin_batch_";
    var t := "_of_" + Pad2(total) + ".zip";
    LabelShape(i, total);
    LabelShape(j, total);
    if Label(i, total) == Label(j, total) {
      DropPrefix(p, Pad2(i + 1) + t);
      DropPrefix(p, Pad2(j + 1) + t);
      DigitPrefixUnique(Pad2(i + 1), t, Pad2(j + 1), t);
      Pad2Injective(i + 1, j + 1);
    }
  }

  /** The label of the second of twelve batches. */
  lemma LabelExample()
    ensures Label(1, 12) == "asin_batch_02_of_12.zip"
  {
    assert Pad2(2) == "02";
    assert Pad2(12) == "12";
  }
}
