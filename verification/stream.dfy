/** `parseStream` of src/transactions/parse.ts: a left fold over the scraped
    rows, where `null` marks a restarted pagination. Rows that share a
    timestamp are buffered and flushed together, each with a distinct
    millisecond offset; a restart throws the buffer away. */
module Stream {
  import opened Options
  import opened Parse

  /** A row as the loop sees it: its timestamp text and `parseTransaction` of it. */
  datatype Row = Row(dateTime: string, transaction: Transaction)

  /** What the loop sees of one item: a restart marker stays one, a row is
      read with `parseTransaction`. */
  function PrepareItem(item: Option<RawTransaction>): Option<Row>
    requires item.Some? ==> WellFormedRaw(item.value)
  {
    match item
    case None => None
    case Some(raw) => Some(Row(raw.dateTime, ParseTransaction(raw)))
  }

  /** `parseTransaction` applied to every row as it arrives. */
  function Prepare(items: seq<Option<RawTransaction>>): seq<Option<Row>>
    requires AllWellFormed(items)
  {
    seq(|items|, i requires 0 <= i < |items| && AllWellFormed(items) => PrepareItem(items[i]))
  }

  // ---------------------------------------------------------------------------
  // The loop
  // ---------------------------------------------------------------------------

  /** Emitting a buffer of simultaneous rows: the `i`-th of `N` gets `N - 1 - i`
      extra milliseconds, so the first row is the latest. */
  function Flush(buffer: seq<Transaction>): (out: seq<Transaction>)
    ensures |out| == |buffer|
    ensures forall i {:trigger out[i]} :: 0 <= i < |buffer| ==> out[i] == Shift(buffer[i], |buffer| - 1 - i)
  {
    if |buffer| == 0 then [] else [Shift(buffer[0], |buffer| - 1)] + Flush(buffer[1..])
  }

  /** The loop's variables: the buffer `sameTime`, the `lastDate` seen, and the
      transactions yielded so far. */
  datatype ParserState = ParserState(sameTime: seq<Transaction>, lastDate: string, emitted: seq<Transaction>)

  const Initial: ParserState := ParserState([], "", [])

  /** One iteration of the `for await` loop. A `null` (pagination restarted)
      empties the buffer but keeps `lastDate`; a row with a new timestamp flushes
      the buffer and starts a new one; a row with the same timestamp joins it. */
  function Step(st: ParserState, item: Option<Row>): (r: ParserState)
    ensures st.emitted <= r.emitted
    ensures item.None? ==> r.lastDate == st.lastDate && |r.emitted| + |r.sameTime| == |st.emitted|
    ensures item.Some? ==> r.lastDate == item.value.dateTime
                           && |r.emitted| + |r.sameTime| == |st.emitted| + |st.sameTime| + 1
                           && |r.sameTime| > 0 && r.sameTime[|r.sameTime| - 1] == item.value.transaction
  {
    match item
    case None => st.(sameTime := [])
    case Some(row) =>
      if row.dateTime != st.lastDate then
        ParserState([row.transaction], row.dateTime, st.emitted + Flush(st.sameTime))
      else
        st.(sameTime := st.sameTime + [row.transaction])
  }

  function Fold(st: ParserState, rows: seq<Option<Row>>): ParserState
    decreases |rows|
  {
    if |rows| == 0 then st else Fold(Step(st, rows[0]), rows[1..])
  }

  /** After the loop the last buffer is flushed too. */
  function Finish(st: ParserState): seq<Transaction> {
    st.emitted + Flush(st.sameTime)
  }

  function Normalise(rows: seq<Option<Row>>): seq<Transaction> {
    Finish(Fold(Initial, rows))
  }

  /** `parseStream`, with the asynchronous iteration read as a sequence. It
      yields exactly the rows that no restart discards, in input order, each
      parsed and offset by the number of rows after it in its batch. */
  function ParseStream(items: seq<Option<RawTransaction>>): (out: seq<Transaction>)
    requires AllWellFormed(items)
    ensures out == Expected(Prepare(items))
  {
    NormaliseIsExpected(Prepare(items));
    Normalise(Prepare(items))
  }

  // ---------------------------------------------------------------------------
  // The same output described row by row
  // ---------------------------------------------------------------------------

  /** The number of rows at the front of `rows` made at `dateTime`. */
  function RunLength(rows: seq<Option<Row>>, dateTime: string): (n: nat)
    ensures n <= |rows|
    ensures forall i :: 0 <= i < n ==> rows[i].Some? && rows[i].value.dateTime == dateTime
    ensures n < |rows| ==> rows[n].None? || rows[n].value.dateTime != dateTime
    decreases |rows|
  {
    if |rows| > 0 && rows[0].Some? && rows[0].value.dateTime == dateTime
    then 1 + RunLength(rows[1..], dateTime)
    else 0
  }

  /** The rows after row `i` in its batch: the uninterrupted rows that follow it
      with the same timestamp. */
  function RunAfter(rows: seq<Option<Row>>, i: nat): nat
    requires i < |rows| && rows[i].Some?
  {
    RunLength(rows[i + 1..], rows[i].value.dateTime)
  }

  /** Row `i` is thrown away when the row that ends its batch is a restart. */
  predicate Discarded(rows: seq<Option<Row>>, i: nat)
    requires i < |rows| && rows[i].Some?
  {
    var end := i + 1 + RunAfter(rows, i);
    end < |rows| && rows[end].None?
  }

  /** The rows that survive, in input order, each offset by the number of rows
      after it in its batch. */
  function Expected(rows: seq<Option<Row>>): seq<Transaction>
    decreases |rows|
  {
    if |rows| == 0 then []
    else
      (if rows[0].Some? && !Discarded(rows, 0)
       then [Shift(rows[0].value.transaction, RunAfter(rows, 0))]
       else [])
      + Expected(rows[1..])
  }

  /** The transactions of rows that are all present. */
  function Batch(rows: seq<Option<Row>>): (out: seq<Transaction>)
    requires forall i :: 0 <= i < |rows| ==> rows[i].Some?
    ensures |out| == |rows|
    ensures forall i {:trigger out[i]} :: 0 <= i < |rows| ==> out[i] == rows[i].value.transaction
    decreases |rows|
  {
    if |rows| == 0 then [] else [rows[0].value.transaction] + Batch(rows[1..])
  }

  /** What becomes of a batch ended at position `end`: flushed, unless a restart
      ends it. */
  function Settle(batch: seq<Transaction>, end: nat, rows: seq<Option<Row>>): seq<Transaction> {
    if RestartAt(rows, end) then [] else Flush(batch)
  }

  predicate RestartAt(rows: seq<Option<Row>>, end: nat) {
    end < |rows| && rows[end].None?
  }

  // ---------------------------------------------------------------------------
  // The fold computes the row-by-row description
  // ---------------------------------------------------------------------------

  /** The leading rows made at `lastDate` all join the buffer. */
  lemma {:induction false} FoldRun(st: ParserState, rows: seq<Option<Row>>)
    ensures var k := RunLength(rows, st.lastDate);
            Fold(st, rows) == Fold(st.(sameTime := st.sameTime + Batch(rows[..k])), rows[k..])
    decreases |rows|
  {
    var k := RunLength(rows, st.lastDate);
    if k == 0 {
      assert rows[..0] == [] && rows[0..] == rows;
      assert st.sameTime + [] == st.sameTime;
    } else {
      var next := Step(st, rows[0]);
      FoldRun(next, rows[1..]);
      BatchFront(st.sameTime, rows, k);
    }
  }

  /** Moving the first row of a batch into the buffer. */
  lemma BatchFront(buffer: seq<Transaction>, rows: seq<Option<Row>>, k: nat)
    requires 0 < k <= |rows|
    requires forall i :: 0 <= i < k ==> rows[i].Some?
    ensures buffer + [rows[0].value.transaction] + Batch(rows[1..][..k - 1]) == buffer + Batch(rows[..k])
    ensures rows[1..][k - 1..] == rows[k..]
  {
    assert rows[1..][..k - 1] == rows[..k][1..];
  }

  /** The run length is the only count with its three properties. */
  lemma {:induction false} RunLengthUnique(rows: seq<Option<Row>>, dateTime: string, n: nat)
    requires n <= |rows|
    requires forall i :: 0 <= i < n ==> rows[i].Some? && rows[i].value.dateTime == dateTime
    requires n < |rows| ==> rows[n].None? || rows[n].value.dateTime != dateTime
    ensures RunLength(rows, dateTime) == n
    decreases n
  {
    if n > 0 {
      RunLengthUnique(rows[1..], dateTime, n - 1);
    }
  }

  /** Inside a run, the rows after position `j` are the rest of the run. */
  lemma RunLengthInside(rows: seq<Option<Row>>, dateTime: string, j: nat)
    requires j < RunLength(rows, dateTime)
    ensures RunLength(rows[j + 1..], dateTime) == RunLength(rows, dateTime) - 1 - j
  {
    var k := RunLength(rows, dateTime);
    RunLengthUnique(rows[j + 1..], dateTime, k - 1 - j);
  }

  /** What the rows of the leading batch from position `j` on, and everything
      after the batch, contribute: the tail of the flushed batch, or nothing
      when a restart ends the batch. */
  function ClusterOut(rows: seq<Option<Row>>, dateTime: string, j: nat): seq<Transaction>
    requires j <= RunLength(rows, dateTime)
  {
    var k := RunLength(rows, dateTime);
    (if RestartAt(rows, k) then [] else Flush(Batch(rows[..k]))[j..]) + Expected(rows[k..])
  }

  lemma {:induction false} ExpectedCluster(rows: seq<Option<Row>>, dateTime: string, j: nat)
    requires j <= RunLength(rows, dateTime)
    ensures Expected(rows[j..]) == ClusterOut(rows, dateTime, j)
    decreases RunLength(rows, dateTime) - j
  {
    if j < RunLength(rows, dateTime) {
      ExpectedCluster(rows, dateTime, j + 1);
      ClusterStep(rows, dateTime, j);
    } else {
      ClusterEnd(rows, dateTime);
    }
  }

  lemma ClusterEnd(rows: seq<Option<Row>>, dateTime: string)
    ensures var k := RunLength(rows, dateTime);
            Expected(rows[k..]) == ClusterOut(rows, dateTime, k)
  {
    var k := RunLength(rows, dateTime);
    FlushedTailEmpty(Batch(rows[..k]));
  }

  lemma FlushedTailEmpty(batch: seq<Transaction>)
    ensures Flush(batch)[|batch|..] == []
  {
  }

  /** One row more of the batch, given the batch's rows after it. */
  lemma ClusterStep(rows: seq<Option<Row>>, dateTime: string, j: nat)
    requires j < RunLength(rows, dateTime)
    requires Expected(rows[j + 1..]) == ClusterOut(rows, dateTime, j + 1)
    ensures Expected(rows[j..]) == ClusterOut(rows, dateTime, j)
  {
    var k := RunLength(rows, dateTime);
    RunLengthInside(rows, dateTime, j);
    ClusterHead(rows, dateTime, j);
    JoinHead(Flush(Batch(rows[..k])), j, RestartAt(rows, k),
             Expected(rows[j..]), Expected(rows[j + 1..]), Expected(rows[k..]));
  }

  /** The first row of `rows[j..]`, inside a batch of `k`, contributes the
      `j`-th row of the flushed batch, unless a restart ends the batch. */
  lemma ClusterHead(rows: seq<Option<Row>>, dateTime: string, j: nat)
    requires j < RunLength(rows, dateTime)
    requires RunLength(rows[j + 1..], dateTime) == RunLength(rows, dateTime) - 1 - j
    ensures var k := RunLength(rows, dateTime);
            Expected(rows[j..])
            == (if RestartAt(rows, k) then [] else [Flush(Batch(rows[..k]))[j]]) + Expected(rows[j + 1..])
  {
    var k := RunLength(rows, dateTime);
    ExpectedAt(rows, j, k - 1 - j, RestartAt(rows, k));
    FlushedAt(rows, dateTime, j);
  }

  /** Row `j` of a batch of `k` gets `k - 1 - j` extra milliseconds. */
  lemma FlushedAt(rows: seq<Option<Row>>, dateTime: string, j: nat)
    requires j < RunLength(rows, dateTime)
    ensures var k := RunLength(rows, dateTime);
            Flush(Batch(rows[..k]))[j] == Shift(rows[j].value.transaction, k - 1 - j)
  {
    var k := RunLength(rows, dateTime);
    RunPresent(rows, dateTime);
    FlushBatchAt(rows[..k], j);
    assert rows[..k][j] == rows[j];
  }

  lemma FlushBatchAt(run: seq<Option<Row>>, j: nat)
    requires forall i :: 0 <= i < |run| ==> run[i].Some?
    requires j < |run|
    ensures Flush(Batch(run))[j] == Shift(run[j].value.transaction, |run| - 1 - j)
  {
    FlushAt(Batch(run), j);
  }

  /** The leading run is all present rows. */
  lemma RunPresent(rows: seq<Option<Row>>, dateTime: string)
    ensures var run := rows[..RunLength(rows, dateTime)];
            forall i :: 0 <= i < |run| ==> run[i].Some?
  {
  }

  lemma FlushAt(buffer: seq<Transaction>, j: nat)
    requires j < |buffer|
    ensures Flush(buffer)[j] == Shift(buffer[j], |buffer| - 1 - j)
  {
  }

  /** `Expected` from row `j` on, once row `j`'s batch facts are known. */
  lemma ExpectedAt(rows: seq<Option<Row>>, j: nat, after: nat, restart: bool)
    requires j < |rows| && rows[j].Some?
    requires RunAfter(rows, j) == after
    requires RestartAt(rows, j + 1 + after) == restart
    ensures Expected(rows[j..])
            == (if restart then [] else [Shift(rows[j].value.transaction, after)]) + Expected(rows[j + 1..])
  {
    var tail := rows[j..];
    assert tail[1..] == rows[j + 1..];
    assert tail[0] == rows[j];
    assert RestartAt(tail, after + 1) == restart by {
      if after + 1 < |tail| {
        assert tail[after + 1] == rows[j + 1 + after];
      }
    }
    HeadOfTail(tail, rows[j].value.transaction, after, restart);
  }

  /** One more row of a batch in front of its tail. */
  lemma JoinHead(flushed: seq<Transaction>, j: nat, restart: bool,
                 here: seq<Transaction>, next: seq<Transaction>, rest: seq<Transaction>)
    requires j < |flushed|
    requires here == (if restart then [] else [flushed[j]]) + next
    requires next == (if restart then [] else flushed[j + 1..]) + rest
    ensures here == (if restart then [] else flushed[j..]) + rest
  {
    if !restart {
      assert flushed[j..] == [flushed[j]] + flushed[j + 1..];
    }
  }

  /** `Expected` on a row whose batch facts are known. */
  lemma HeadOfTail(tail: seq<Option<Row>>, t: Transaction, after: nat, restart: bool)
    requires |tail| > 0 && tail[0].Some? && tail[0].value.transaction == t
    requires RunAfter(tail, 0) == after
    requires RestartAt(tail, after + 1) == restart
    ensures Expected(tail) == (if restart then [] else [Shift(t, after)]) + Expected(tail[1..])
  {
  }

  /** The first batch of a stream decides its own rows. */
  lemma ExpectedRun(rows: seq<Option<Row>>, dateTime: string)
    ensures var k := RunLength(rows, dateTime);
            Expected(rows) == Settle(Batch(rows[..k]), k, rows) + Expected(rows[k..])
  {
    var k := RunLength(rows, dateTime);
    ExpectedCluster(rows, dateTime, 0);
    assert rows[0..] == rows;
    assert Flush(Batch(rows[..k]))[0..] == Flush(Batch(rows[..k]));
  }

  /** What the fold from state `st` yields over `rows`: what it has yielded, the
      buffered rows together with the leading rows made at `lastDate` as one
      batch, and the remaining rows described row by row. */
  function Settled(st: ParserState, rows: seq<Option<Row>>): seq<Transaction> {
    var k := RunLength(rows, st.lastDate);
    st.emitted + (Settle(st.sameTime + Batch(rows[..k]), k, rows) + Expected(rows[k..]))
  }

  /** The fold from any state settles as described. */
  lemma {:induction false} FoldSettles(st: ParserState, rows: seq<Option<Row>>)
    ensures Finish(Fold(st, rows)) == Settled(st, rows)
    decreases |rows|
  {
    var k := RunLength(rows, st.lastDate);
    if k == |rows| {
      SettlesAtEnd(st, rows);
    } else {
      var st2 := Step(st.(sameTime := st.sameTime + Batch(rows[..k])), rows[k]);
      FoldPast(st, rows, k);
      FoldSettles(st2, rows[k + 1..]);
      SettledPast(st, rows, k);
    }
  }

  /** The rows run out inside the batch: the final flush empties the buffer. */
  lemma SettlesAtEnd(st: ParserState, rows: seq<Option<Row>>)
    requires RunLength(rows, st.lastDate) == |rows|
    ensures Finish(Fold(st, rows)) == Settled(st, rows)
  {
    var k := RunLength(rows, st.lastDate);
    FoldRun(st, rows);
    assert rows[k..] == [];
  }

  /** The fold takes the leading batch into the buffer and then steps past the
      row that ends it. */
  lemma FoldPast(st: ParserState, rows: seq<Option<Row>>, k: nat)
    requires k == RunLength(rows, st.lastDate) && k < |rows|
    ensures Fold(st, rows) == Fold(Step(st.(sameTime := st.sameTime + Batch(rows[..k])), rows[k]), rows[k + 1..])
  {
    FoldRun(st, rows);
    var rest := rows[k..];
    assert rest[0] == rows[k] && rest[1..] == rows[k + 1..];
  }

  /** The row-by-row description agrees before and after the row that ends the
      leading batch. */
  lemma SettledPast(st: ParserState, rows: seq<Option<Row>>, k: nat)
    requires k == RunLength(rows, st.lastDate) && k < |rows|
    ensures Settled(Step(st.(sameTime := st.sameTime + Batch(rows[..k])), rows[k]), rows[k + 1..])
            == Settled(st, rows)
  {
    var buffer := st.sameTime + Batch(rows[..k]);
    if rows[k].None? {
      SettledRestart(st, rows, k, buffer);
    } else {
      SettledNewDate(st, rows, k, buffer);
    }
  }

  /** A restart drops the buffer; the rows after it start from an empty one. */
  lemma SettledRestart(st: ParserState, rows: seq<Option<Row>>, k: nat, buffer: seq<Transaction>)
    requires k == RunLength(rows, st.lastDate) && k < |rows| && rows[k].None?
    requires buffer == st.sameTime + Batch(rows[..k])
    ensures Settled(ParserState([], st.lastDate, st.emitted), rows[k + 1..]) == Settled(st, rows)
  {
    var rest := rows[k..];
    var after := rest[1..];
    var k2 := RunLength(after, st.lastDate);
    AfterRestart(st.lastDate, rest);
    SettledIs(ParserState([], st.lastDate, st.emitted), after, k2, [] + Batch(after[..k2]));
    SettledIs(st, rows, k, buffer);
    assert [] + Expected(rest) == Expected(rest);
    assert after == rows[k + 1..];
  }

  /** A new timestamp flushes the buffer; the rows after it join the new one. */
  lemma SettledNewDate(st: ParserState, rows: seq<Option<Row>>, k: nat, buffer: seq<Transaction>)
    requires k == RunLength(rows, st.lastDate) && k < |rows| && rows[k].Some?
    requires buffer == st.sameTime + Batch(rows[..k])
    ensures var row := rows[k].value;
            Settled(ParserState([row.transaction], row.dateTime, st.emitted + Flush(buffer)), rows[k + 1..])
            == Settled(st, rows)
  {
    var rest := rows[k..];
    var row := rows[k].value;
    var after := rest[1..];
    var k2 := RunLength(after, row.dateTime);
    AfterNewDate(rest);
    SettledIs(ParserState([row.transaction], row.dateTime, st.emitted + Flush(buffer)), after, k2,
              [row.transaction] + Batch(after[..k2]));
    SettledIs(st, rows, k, buffer);
    AppendAssoc(st.emitted, Flush(buffer), Expected(rest));
    assert after == rows[k + 1..];
  }

  /** `Settled` spelled out for a known batch length and buffer. */
  lemma SettledIs(st: ParserState, rows: seq<Option<Row>>, k: nat, batch: seq<Transaction>)
    requires k == RunLength(rows, st.lastDate) && batch == st.sameTime + Batch(rows[..k])
    ensures Settled(st, rows) == st.emitted + (Settle(batch, k, rows) + Expected(rows[k..]))
  {
  }

  lemma AppendAssoc<T>(a: seq<T>, b: seq<T>, c: seq<T>)
    ensures (a + b) + c == a + (b + c)
  {
  }

  /** After a restart the buffer is empty, so the rows that follow are described
      by `Expected` alone. */
  lemma AfterRestart(lastDate: string, rest: seq<Option<Row>>)
    requires |rest| > 0 && rest[0].None?
    ensures var after := rest[1..];
            var k := RunLength(after, lastDate);
            Settle([] + Batch(after[..k]), k, after) + Expected(after[k..]) == Expected(rest)
  {
    var after := rest[1..];
    var k := RunLength(after, lastDate);
    ExpectedRun(after, lastDate);
    assert [] + Batch(after[..k]) == Batch(after[..k]);
  }

  /** A row with a new timestamp starts the batch that `Expected` sees first. */
  lemma AfterNewDate(rest: seq<Option<Row>>)
    requires |rest| > 0 && rest[0].Some?
    ensures var row := rest[0].value;
            var after := rest[1..];
            var k := RunLength(after, row.dateTime);
            Settle([row.transaction] + Batch(after[..k]), k, after) + Expected(after[k..]) == Expected(rest)
  {
    var row := rest[0].value;
    var after := rest[1..];
    var k := RunLength(after, row.dateTime);
    ExpectedRun(rest, row.dateTime);
    assert RunLength(rest, row.dateTime) == 1 + k;
    BatchCons(rest, k);
    assert RestartAt(rest, 1 + k) == RestartAt(after, k);
    assert rest[1 + k..] == after[k..];
  }

  lemma BatchCons(rows: seq<Option<Row>>, k: nat)
    requires k < |rows| && forall i :: 0 <= i <= k ==> rows[i].Some?
    ensures Batch(rows[..1 + k]) == [rows[0].value.transaction] + Batch(rows[1..][..k])
  {
    assert rows[..1 + k][1..] == rows[1..][..k];
  }

  /** The fold computes the row-by-row description. */
  lemma NormaliseIsExpected(rows: seq<Option<Row>>)
    ensures Normalise(rows) == Expected(rows)
  {
    var k := RunLength(rows, "");
    var batch := Batch(rows[..k]);
    FoldSettles(Initial, rows);
    ExpectedRun(rows, "");
    assert Initial.sameTime + batch == batch;
    assert Initial.emitted + Settle(batch, k, rows) == Settle(batch, k, rows);
  }
}
