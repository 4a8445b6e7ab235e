/** The transaction normaliser of src/transactions/parse.ts: raw table rows
    become transactions whose `time` (milliseconds since the epoch) doubles as a
    unique key, by giving rows that share a displayed minute distinct
    millisecond offsets. */
module Parse {
  import opened Options
  import TimeCodec
  import Amounts

  // ---------------------------------------------------------------------------
  // Rows and transactions
  // ---------------------------------------------------------------------------

  datatype TransactionType = Debit | Credit

  /** One row of the portal's transaction table, every column as displayed. */
  datatype RawTransaction = RawTransaction(
    dateTime: string,
    accountName: string,
    cardNumber: string,
    location: string,
    transactionType: TransactionType,
    amount: string)

  /** A parsed transaction; `amount` is in cents, negative when money left the
      account. */
  datatype Transaction = Transaction(time: int, account: string, amount: int, location: string)

  /** A transaction with the account balance after it, in cents. */
  datatype AccumulatedTransaction =
    AccumulatedTransaction(time: int, account: string, amount: int, location: string, balance: int)

  const MS_PER_MIN: int := 60_000

  /** A row whose timestamp and amount the model can read. */
  predicate WellFormedRaw(raw: RawTransaction) {
    TimeCodec.WellFormedDateTime(raw.dateTime) && Amounts.AmountCents(raw.amount).Some?
  }

  /** The minute a row was made at. */
  function Minutes(raw: RawTransaction): int
    requires WellFormedRaw(raw)
  {
    TimeCodec.ParseTime(raw.dateTime)
  }

  /** `parseTransaction`: the time in milliseconds, the account and location as
      they are, the amount without thousands separators. The card number and the
      transaction type are not kept. */
  function ParseTransaction(raw: RawTransaction): (t: Transaction)
    requires WellFormedRaw(raw)
    ensures t.account == raw.accountName && t.location == raw.location
    ensures Amounts.AmountCents(raw.amount) == Some(t.amount)
  {
    Transaction(Minutes(raw) * MS_PER_MIN, raw.accountName, Amounts.AmountCents(raw.amount).value, raw.location)
  }

  /** The time is a whole minute: the one the timestamp shows. */
  lemma ParseTransactionTime(raw: RawTransaction)
    requires WellFormedRaw(raw)
    ensures ParseTransaction(raw).time % MS_PER_MIN == 0
    ensures ParseTransaction(raw).time / MS_PER_MIN == Minutes(raw)
  {
  }

  /** Only the timestamp, account, location and amount matter: rows that differ
      in card number or transaction type parse to the same transaction. */
  lemma ParseIgnoresCardAndType(a: RawTransaction, b: RawTransaction)
    requires WellFormedRaw(a)
    requires a.dateTime == b.dateTime && a.accountName == b.accountName
    requires a.location == b.location && a.amount == b.amount
    ensures WellFormedRaw(b) && ParseTransaction(a) == ParseTransaction(b)
  {
  }

  /** Rows made in the same minute get the same base time. */
  lemma SameDateTimeSameTime(a: RawTransaction, b: RawTransaction)
    requires WellFormedRaw(a) && WellFormedRaw(b) && a.dateTime == b.dateTime
    ensures ParseTransaction(a).time == ParseTransaction(b).time
  {
  }

  /** The row of the source's documentation, parsed. */
  lemma DocumentedRow(card: string, kind: TransactionType)
    ensures var raw := RawTransaction("2022-01-12 6:00 AM", "Dining Dollars", card, "HDH 64 Degrees 64-RC", kind, "-2.50 USD");
            && WellFormedRaw(raw)
            && ParseTransaction(raw) == Transaction(27_366_120 * MS_PER_MIN, "Dining Dollars", -250, "HDH 64 Degrees 64-RC")
  {
    TimeCodec.DocumentedExample();
    Amounts.DocumentedAmounts();
  }

  /** A stream the model can parse: every row that is not a restart marker is
      well formed. */
  predicate AllWellFormed(items: seq<Option<RawTransaction>>) {
    forall i :: 0 <= i < |items| && items[i].Some? ==> WellFormedRaw(items[i].value)
  }

  /** `parsed.time += n`. */
  function Shift(t: Transaction, n: int): Transaction {
    t.(time := t.time + n)
  }
}
