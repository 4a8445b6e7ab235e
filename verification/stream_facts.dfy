/** What the normalised stream promises: which rows come out and at what time,
    that a restart throws its batch away, and that the times come out strictly
    decreasing, so that `time` identifies a transaction. */
module StreamFacts {
  import opened Options
  import opened Parse
  import opened Stream

  /** Row `i` is present and no restart ends its batch. */
  predicate Survives(rows: seq<Option<Row>>, i: nat) {
    i < |rows| && rows[i].Some? && !Discarded(rows, i)
  }

  /** What row `i` becomes: its transaction, later by the number of rows after
      it in its batch. */
  function Emitted(rows: seq<Option<Row>>, i: nat): Transaction
    requires i < |rows| && rows[i].Some?
  {
    Shift(rows[i].value.transaction, RunAfter(rows, i))
  }

  /** Survival and emitted time depend only on the row and what follows it. */
  lemma SuffixKeepsRow(rows: seq<Option<Row>>, s: nat, i: nat)
    requires s + i < |rows| && rows[s + i].Some?
    ensures Survives(rows[s..], i) == Survives(rows, s + i)
    ensures Emitted(rows[s..], i) == Emitted(rows, s + i)
  {
    var tail := rows[s..];
    assert tail[i] == rows[s + i];
    assert tail[i + 1..] == rows[s + i + 1..];
    var end := i + 1 + RunAfter(tail, i);
    if end < |tail| {
      assert tail[end] == rows[s + end];
    }
  }

  /** A survivor of a suffix is a survivor of the whole stream, emitted alike. */
  lemma SuffixSurvivor(rows: seq<Option<Row>>, s: nat, i: nat, x: Transaction) returns (j: nat)
    requires s <= |rows| && Survives(rows[s..], i) && x == Emitted(rows[s..], i)
    ensures j == s + i && Survives(rows, j) && x == Emitted(rows, j)
  {
    assert rows[s..][i] == rows[s + i];
    SuffixKeepsRow(rows, s, i);
    j := s + i;
  }

  // ---------------------------------------------------------------------------
  // Contents
  // ---------------------------------------------------------------------------

  /** Everything emitted comes from a surviving row. */
  lemma {:induction false} ExpectedFromSurvivor(rows: seq<Option<Row>>, x: Transaction) returns (i: nat)
    requires x in Expected(rows)
    ensures Survives(rows, i) && x == Emitted(rows, i)
    decreases |rows|
  {
    if Survives(rows, 0) && x == Emitted(rows, 0) {
      i := 0;
    } else {
      assert x in Expected(rows[1..]);
      var k := ExpectedFromSurvivor(rows[1..], x);
      i := SuffixSurvivor(rows, 1, k, x);
    }
  }

  /** Every surviving row is emitted. */
  lemma {:induction false} SurvivorInExpected(rows: seq<Option<Row>>, i: nat)
    requires Survives(rows, i)
    ensures Emitted(rows, i) in Expected(rows)
    decreases i
  {
    if i > 0 {
      SuffixKeepsRow(rows, 1, i - 1);
      SurvivorInExpected(rows[1..], i - 1);
    }
  }

  /** A transaction is emitted exactly when a surviving row becomes it. */
  lemma ExpectedMembers(rows: seq<Option<Row>>, x: Transaction)
    ensures x in Expected(rows) <==> exists i: nat :: Survives(rows, i) && x == Emitted(rows, i)
  {
    if x in Expected(rows) {
      var i := ExpectedFromSurvivor(rows, x);
    }
    if exists i: nat :: Survives(rows, i) && x == Emitted(rows, i) {
      var i: nat :| Survives(rows, i) && x == Emitted(rows, i);
      SurvivorInExpected(rows, i);
    }
  }

  /** Without restarts every row is emitted, in input order. */
  lemma {:induction false} NoRestartFrom(rows: seq<Option<Row>>, s: nat)
    requires s <= |rows|
    requires forall i :: 0 <= i < |rows| ==> rows[i].Some?
    ensures |Expected(rows[s..])| == |rows| - s
    ensures forall i :: 0 <= i < |rows| - s ==> Expected(rows[s..])[i] == Emitted(rows, s + i)
    decreases |rows| - s
  {
    if s < |rows| {
      NoRestartFrom(rows, s + 1);
      var tail := rows[s..];
      assert tail[1..] == rows[s + 1..];
      SuffixKeepsRow(rows, s, 0);
      assert !Discarded(tail, 0);
      assert Expected(tail) == [Emitted(rows, s)] + Expected(rows[s + 1..]);
    }
  }

  /** A stream without restarts loses no row: row `i` becomes output `i`. */
  lemma NoRestartKeepsEveryRow(rows: seq<Option<Row>>)
    requires forall i :: 0 <= i < |rows| ==> rows[i].Some?
    ensures |Normalise(rows)| == |rows|
    ensures forall i :: 0 <= i < |rows| ==> Normalise(rows)[i] == Emitted(rows, i)
  {
    NormaliseIsExpected(rows);
    NoRestartFrom(rows, 0);
    var out := Expected(rows[0..]);
    assert rows[0..] == rows;
    forall i | 0 <= i < |rows|
      ensures Normalise(rows)[i] == Emitted(rows, i)
    {
      assert out[i] == Emitted(rows, 0 + i);
    }
  }

  /** The present rows from position `s` on. */
  function PresentFrom(rows: seq<Option<Row>>, s: nat): nat
    decreases |rows| - s
  {
    if s >= |rows| then 0
    else (if rows[s].Some? then 1 else 0) + PresentFrom(rows, s + 1)
  }

  /** The present rows from position `s` on that a restart throws away. */
  function DiscardedFrom(rows: seq<Option<Row>>, s: nat): nat
    decreases |rows| - s
  {
    if s >= |rows| then 0
    else (if rows[s].Some? && Discarded(rows, s) then 1 else 0) + DiscardedFrom(rows, s + 1)
  }

  lemma {:induction false} CountFrom(rows: seq<Option<Row>>, s: nat)
    requires s <= |rows|
    ensures |Expected(rows[s..])| + DiscardedFrom(rows, s) == PresentFrom(rows, s)
    decreases |rows| - s
  {
    if s < |rows| {
      CountFrom(rows, s + 1);
      assert rows[s..][1..] == rows[s + 1..];
      if rows[s].Some? {
        SuffixKeepsRow(rows, s, 0);
      }
    }
  }

  /** As many transactions come out as there are rows, less the nulls and the
      rows a restart throws away. */
  lemma OutputCount(rows: seq<Option<Row>>)
    ensures |Normalise(rows)| == PresentFrom(rows, 0) - DiscardedFrom(rows, 0)
  {
    NormaliseIsExpected(rows);
    CountFrom(rows, 0);
    assert rows[0..] == rows;
  }

  /** A restart right after a batch throws the whole batch away: the output is
      what the rows after the restart give on their own. */
  lemma RestartDiscardsBatch(batch: seq<Option<Row>>, dateTime: string, post: seq<Option<Row>>)
    requires forall i :: 0 <= i < |batch| ==> batch[i].Some? && batch[i].value.dateTime == dateTime
    ensures Expected(batch + [None] + post) == Expected(post)
  {
    var rows := batch + [None] + post;
    RunLengthUnique(rows, dateTime, |batch|);
    ExpectedRun(rows, dateTime);
    assert rows[|batch|..] == [None] + post;
    assert ([None] + post)[1..] == post;
  }

  // ---------------------------------------------------------------------------
  // Order: time is a unique key
  // ---------------------------------------------------------------------------

  /** The rows as the portal lists them, newest first: rows shown with the same
      minute have the same base time, and a row shown above one from another
      minute is at least a minute later. */
  predicate Spaced(rows: seq<Option<Row>>) {
    forall i, j :: 0 <= i < j < |rows| && rows[i].Some? && rows[j].Some? ==>
      if rows[i].value.dateTime == rows[j].value.dateTime
      then rows[i].value.transaction.time == rows[j].value.transaction.time
      else rows[i].value.transaction.time >= rows[j].value.transaction.time + MS_PER_MIN
  }

  /** No batch has more rows than a minute has milliseconds: every offset stays
      below 60000. */
  predicate ShortBatches(rows: seq<Option<Row>>) {
    forall i {:trigger RunAfter(rows, i)} :: 0 <= i < |rows| && rows[i].Some? ==> RunAfter(rows, i) < MS_PER_MIN
  }

  predicate StrictlyDecreasing(ts: seq<Transaction>) {
    forall a, b :: 0 <= a < b < |ts| ==> ts[a].time > ts[b].time
  }

  /** Of two surviving rows the earlier one is emitted later in time. */
  lemma SurvivorsOrdered(rows: seq<Option<Row>>, i: nat, j: nat)
    requires Spaced(rows) && ShortBatches(rows)
    requires i < j && Survives(rows, i) && Survives(rows, j)
    ensures Emitted(rows, i).time > Emitted(rows, j).time
  {
    var d := rows[i].value.dateTime;
    if rows[j].value.dateTime == d {
      var k := RunAfter(rows, i);
      var end := i + 1 + k;
      if end < |rows| {
        assert rows[i + 1..][k] == rows[end];
      }
      if j < end {
        RunLengthInside(rows[i + 1..], d, j - i - 1);
        assert rows[i + 1..][j - i..] == rows[j + 1..];
      } else {
        assert false;
      }
    }
  }

  lemma ConsDecreasing(h: Transaction, ts: seq<Transaction>)
    requires StrictlyDecreasing(ts)
    requires forall x :: x in ts ==> h.time > x.time
    ensures StrictlyDecreasing([h] + ts)
  {
    forall a, b | 0 <= a < b < |[h] + ts|
      ensures ([h] + ts)[a].time > ([h] + ts)[b].time
    {
      if a == 0 {
        assert ([h] + ts)[b] == ts[b - 1];
      }
    }
  }

  /** A surviving row is emitted later than anything the rows after it give. */
  lemma HeadAboveRest(rows: seq<Option<Row>>, s: nat)
    requires Spaced(rows) && ShortBatches(rows) && Survives(rows, s)
    ensures forall x :: x in Expected(rows[s + 1..]) ==> Emitted(rows, s).time > x.time
  {
    forall x | x in Expected(rows[s + 1..])
      ensures Emitted(rows, s).time > x.time
    {
      HeadAboveOne(rows, s, x);
    }
  }

  lemma HeadAboveOne(rows: seq<Option<Row>>, s: nat, x: Transaction)
    requires Spaced(rows) && ShortBatches(rows) && Survives(rows, s)
    requires x in Expected(rows[s + 1..])
    ensures Emitted(rows, s).time > x.time
  {
    var j := SurvivorAfter(rows, s, x);
    SurvivorsOrdered(rows, s, j);
  }

  /** What the rows after row `s` emit comes from a surviving row after `s`. */
  lemma SurvivorAfter(rows: seq<Option<Row>>, s: nat, x: Transaction) returns (j: nat)
    requires s < |rows| && x in Expected(rows[s + 1..])
    ensures s < j && Survives(rows, j) && x == Emitted(rows, j)
  {
    var rest := rows[s + 1..];
    var i := ExpectedFromSurvivor(rest, x);
    j := SuffixSurvivor(rows, s + 1, i, x);
  }

  lemma {:induction false} DecreasingFrom(rows: seq<Option<Row>>, s: nat)
    requires s <= |rows| && Spaced(rows) && ShortBatches(rows)
    ensures StrictlyDecreasing(Expected(rows[s..]))
    decreases |rows| - s
  {
    if s < |rows| {
      DecreasingFrom(rows, s + 1);
      var tail := rows[s..];
      var rest := rows[s + 1..];
      assert tail[1..] == rest;
      if Survives(tail, 0) {
        SuffixKeepsRow(rows, s, 0);
        HeadAboveRest(rows, s);
        assert Expected(tail) == [Emitted(tail, 0)] + Expected(rest);
        ConsDecreasing(Emitted(tail, 0), Expected(rest));
      } else {
        assert Expected(tail) == Expected(rest);
      }
    }
  }

  /** Rows listed newest first, with short batches, come out strictly
      decreasing in time: no two transactions share a key. */
  lemma NormaliseDecreasing(rows: seq<Option<Row>>)
    requires Spaced(rows) && ShortBatches(rows)
    ensures StrictlyDecreasing(Normalise(rows))
  {
    NormaliseIsExpected(rows);
    DecreasingFrom(rows, 0);
    assert rows[0..] == rows;
  }

  // ---------------------------------------------------------------------------
  // The same facts about the scraped rows
  // ---------------------------------------------------------------------------

  /** The portal's table, newest first: a row shown above a row with another
      timestamp was made in a later minute. */
  predicate NewestFirst(items: seq<Option<RawTransaction>>)
    requires AllWellFormed(items)
  {
    forall i, j :: 0 <= i < j < |items| && items[i].Some? && items[j].Some?
      && items[i].value.dateTime != items[j].value.dateTime
      ==> Minutes(items[i].value) > Minutes(items[j].value)
  }

  lemma PreparedSpaced(items: seq<Option<RawTransaction>>)
    requires AllWellFormed(items) && NewestFirst(items)
    ensures Spaced(Prepare(items))
  {
    var rows := Prepare(items);
    forall i, j | 0 <= i < j < |rows| && rows[i].Some? && rows[j].Some?
      ensures if rows[i].value.dateTime == rows[j].value.dateTime
              then rows[i].value.transaction.time == rows[j].value.transaction.time
              else rows[i].value.transaction.time >= rows[j].value.transaction.time + MS_PER_MIN
    {
      ParseTransactionTime(items[i].value);
      ParseTransactionTime(items[j].value);
    }
  }

  /** `parseStream` over a table listed newest first, with no batch of more
      than 60000 rows, yields strictly decreasing times: each transaction's
      time is a unique key. */
  lemma ParseStreamDecreasing(items: seq<Option<RawTransaction>>)
    requires AllWellFormed(items) && NewestFirst(items)
    requires ShortBatches(Prepare(items))
    ensures StrictlyDecreasing(ParseStream(items))
  {
    PreparedSpaced(items);
    NormaliseDecreasing(Prepare(items));
  }

  /** Two rows shown with the same minute: the first gets one extra
      millisecond, the second none. */
  lemma SameMinuteExample(a: RawTransaction, b: RawTransaction)
    requires WellFormedRaw(a) && WellFormedRaw(b) && a.dateTime == b.dateTime
    ensures AllWellFormed([Some(a), Some(b)])
    ensures ParseStream([Some(a), Some(b)])
            == [Shift(ParseTransaction(a), 1), Shift(ParseTransaction(b), 0)]
  {
    var items := [Some(a), Some(b)];
    var rows := Prepare(items);
    NoRestartKeepsEveryRow(rows);
    assert rows[1..][0] == rows[1];
    assert RunAfter(rows, 0) == 1;
    assert RunAfter(rows, 1) == 0;
  }

  /** A restart between two rows of the same minute drops the first: only the
      row read after the restart is kept, with no extra milliseconds. */
  lemma RestartExample(a: RawTransaction, b: RawTransaction)
    requires WellFormedRaw(a) && WellFormedRaw(b) && a.dateTime == b.dateTime
    ensures AllWellFormed([Some(a), None, Some(b)])
    ensures ParseStream([Some(a), None, Some(b)]) == [ParseTransaction(b)]
  {
    var items := [Some(a), None, Some(b)];
    var ra := Row(a.dateTime, ParseTransaction(a));
    var rb := Row(b.dateTime, ParseTransaction(b));
    assert AllWellFormed(items) by {
      assert items[0] == Some(a) && items[1] == None && items[2] == Some(b);
    }
    var rows := Prepare(items);
    assert rows[0] == Some(ra) && rows[1] == None && rows[2] == Some(rb);
    assert rows == [Some(ra)] + [None] + [Some(rb)];
    RestartDiscardsBatch([Some(ra)], a.dateTime, [Some(rb)]);
    SingleRow(rb);
  }

  /** A lone row is yielded unshifted. */
  lemma SingleRow(r: Row)
    ensures Expected([Some(r)]) == [r.transaction]
  {
    assert [Some(r)][1..] == [];
    assert RunAfter([Some(r)], 0) == 0;
  }
}
