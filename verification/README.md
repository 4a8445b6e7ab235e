# A Dafny model of the transaction normaliser

The modelled program reads a student's dining-account history out of the
eAccounts portal. Each table row is a `RawTransaction`: every column is
displayed text. The normaliser (`src/transactions/parse.ts`) turns rows into
`Transaction`s:

- The display timestamp "YYYY-MM-DD h:MM AM/PM" becomes milliseconds since the
  epoch, UTC.
- The amount "3,749.00 USD" becomes a number once its thousands separators are
  removed.
- The card number and the transaction type are dropped.

The portal shows times only to the minute, so `time` is made a unique key. The
rows of one minute are buffered. When the minute changes they are flushed, each
with a distinct millisecond offset. A `null` in the stream means the scraper
restarted its pagination: the buffer is thrown away.

Three small helpers are also modelled:

- `accumulate` (`src/utils/cum.ts`): the running balance over the transactions
  a filter keeps.
- `extrema` (`src/utils/extrema.ts`): the smallest and the largest number of a
  non-empty list.
- `countFrequencies` (`src/ui/components/BarChart.tsx`): how often each key
  occurs. Its entries come in `Map` insertion order. Without a key list they
  are stably sorted by count, largest first.

Modules, one per file:

| module | file | what |
|---|---|---|
| `Options` | options.dfy | `Option`, standing for `undefined`/`null` |
| `Strings` | strings.dfy | `split`, `join`, `replaceAll` of one character, digit strings and `Number` |
| `Calendar` | calendar.dfy | the proleptic Gregorian day count behind `Date.UTC` |
| `TimeCodec` | time_codec.dfy | `parseTime`, and the portal's timestamp spelling as a reference |
| `Amounts` | amounts.dfy | the amount column in cents, and the portal's amount spelling as a reference |
| `Parse` | parse.dfy | the row and transaction records, `parseTransaction` |
| `Stream` | stream.dfy | `parseStream` as a left fold, and a row-by-row description it is proved equal to |
| `StreamFacts` | stream_facts.dfy | consequences of that description: membership, counts, restarts, ordering |
| `EntryMap` | entry_map.dfy | a JavaScript `Map` as its entries in insertion order |
| `StableSort` | stable_sort.dfy | `Array.prototype.sort` by count, as a stable insertion sort |
| `Frequencies` | frequencies.dfy | `countFrequencies` |
| `Cum` | cum.dfy | `accumulate` |
| `Extrema` | extrema.dfy | `extrema` |

Amounts and balances are whole cents, modelled as `int`. Times are unbounded
`int`s. `Date.UTC` reads a year of 0 to 99 as 1900 plus that year and leaves
every other year alone; `Calendar.FullYear` is that rule as a plain
definition, and the timestamp results below are stated through it.

## Model

| member | source | states |
|---|---|---|
| TimeCodec.ParseTime | src/transactions/parse.ts:100-123 | On a well-formed timestamp the minute count stays within `Date.UTC`'s range, so it is never NaN. For a real month it is the calendar day number times 1440, plus the 24-hour clock hour times 60, plus the minute. |
| TimeCodec.HourRoundTrip | src/transactions/parse.ts:113-119 | The 12-hour to 24-hour conversion is a bijection: 12 AM is midnight, 12 PM is noon, and every hour 0..23 has exactly one (hour, AM/PM) spelling that maps back to it. |
| TimeCodec.NonAmIsPm | src/transactions/parse.ts:113-119 | Any meridiem other than exactly "AM" is read as PM. |
| TimeCodec.Hour24 | src/transactions/parse.ts:113-119 | A 12-hour clock hour becomes an hour of the day 0..23; "AM" gives the morning half and any other meridiem the afternoon half. |
| TimeCodec.ReadFields | src/transactions/parse.ts:105-107 | Fields are read only from a timestamp with a space in it (without one, `time` is `undefined` and the source throws); each field is bounded by its displayed width. |
| TimeCodec.ReadDisplay | src/transactions/parse.ts:105-107 | Splitting a timestamp the portal displays on ' ', '-' and ':' and reading the digit fields gives back exactly the displayed fields. |
| TimeCodec.ParseDisplay | src/transactions/parse.ts:100-123 | Every displayable timestamp is well formed and parses to its calendar minute. |
| TimeCodec.DocumentedExample | src/transactions/parse.ts:3 | The documented "2022-01-12 6:00 AM" is minute 27,366,120, that is 2022-01-12 06:00 UTC. |
| Calendar.UtcMinutes | src/transactions/parse.ts:109-121 | `Date.UTC(...) / 60000` is a midnight plus the time of day: a time of day within one day is the result's remainder modulo 1440. |
| Calendar.UtcMinutesInRange | src/transactions/parse.ts:109-121 | For a month index in range, `Date.UTC(...) / 60000` is the day number times 1440 plus the time of day in minutes. |
| Calendar.UtcMinutesMonthCarry | src/transactions/parse.ts:111 | A month index past December rolls over into the next year. |
| Calendar.DaysFromCivilEpoch | src/transactions/parse.ts:102 | 1970-01-01 is day zero. |
| Calendar.DaysFromCivilNextDate | src/transactions/parse.ts:102 | Consecutive calendar dates get consecutive day numbers, across month ends, year ends and leap days. |
| Calendar.MonthStep | src/transactions/parse.ts:102 | The first of the next month is this month's length later. |
| Strings.SplitShape | src/transactions/parse.ts:105-107 | `split` yields one piece more than there are separators, and the first piece is where the string starts. |
| Strings.JoinSplit | src/transactions/parse.ts:105-107 | `split` loses nothing: joining the pieces with the separator gives the string back. |
| Strings.SplitJoin | src/transactions/parse.ts:105-107 | Splitting pieces joined with a separator they do not contain gives the pieces back. |
| Strings.SplitPiecesFree | src/transactions/parse.ts:105-107 | No piece of a split contains the separator. |
| Strings.RemoveAll | src/transactions/parse.ts:140-141 | `replaceAll(',', '')` leaves no comma. |
| Strings.RemoveAllCounts | src/transactions/parse.ts:140-141 | Exactly the commas are removed: every other character keeps its number of occurrences. |
| Strings.RemoveAllKeepsOrder | src/transactions/parse.ts:140-141 | Every other character survives in place: it follows the survivors of everything before it. |
| Strings.NatToDigitsValue | src/transactions/parse.ts:106-107 | `Number` reads a decimal rendering back as the number rendered. |
| Strings.DigitsValueLeadingZeros | src/transactions/parse.ts:106-107 | Leading zeros ("01") do not change the value `Number` reads. |
| Amounts.ParseCents | src/transactions/parse.ts:141 | A number is read only from text that starts with a digit or a minus sign, and a negative number only after a minus sign. |
| Amounts.StripGroupThousands | src/transactions/parse.ts:140-141 | Removing the separators undoes grouping digits in threes ("3,749" becomes "3749"). |
| Amounts.ReadDisplayAmount | src/transactions/parse.ts:140-141 | Every amount in cents, displayed as the portal shows it (sign, grouped units, two decimals, " USD"), reads back as the same cents. |
| Amounts.ParseAmountToken | src/transactions/parse.ts:141 | The number in front of " USD" is what `parseFloat` reads; the unit is ignored. |
| Amounts.DocumentedAmounts | src/transactions/parse.ts:34-44 | The documented amounts "-2.50 USD" and "8.00 USD" are -250 and 800 cents. |
| Parse.ParseTransaction | src/transactions/parse.ts:130-144 | The account and location are copied, and the amount is the amount column read without separators. |
| Parse.ParseTransactionTime | src/transactions/parse.ts:136-138 | The time is a whole number of minutes in milliseconds: the minute the timestamp shows. |
| Parse.ParseIgnoresCardAndType | src/transactions/parse.ts:130-135 | Rows that differ only in card number or transaction type parse to the same transaction. |
| Parse.SameDateTimeSameTime | src/transactions/parse.ts:125-129 | Rows with the same timestamp get the same base time, so the time alone is not yet a key. |
| Parse.DocumentedRow | src/transactions/parse.ts:1-45 | The documented row (6:00 AM on 2022-01-12, -2.50 USD at 64 Degrees) parses to its minute in milliseconds and -250 cents. |
| Stream.Flush | src/transactions/parse.ts:166-169 | A flushed buffer of N rows keeps its order; row i gets N - 1 - i extra milliseconds, so the first row is the latest. |
| Stream.RunLength | src/transactions/parse.ts:165 | The rows at the front that share a timestamp: all of them match, and the next row is a restart or has another timestamp. |
| Stream.NormaliseIsExpected | src/transactions/parse.ts:152-179 | The loop (buffer, flush on a new timestamp, discard on `null`, final flush) yields exactly the row-by-row description: each row not cut off by a restart, in input order, offset by the number of rows after it in its batch. |
| Stream.ParseStream | src/transactions/parse.ts:152-179 | The generator's output over raw rows is the row-by-row description of the parsed rows: each row not cut off by a restart, in input order, offset by the rows after it in its batch. |
| Stream.Step | src/transactions/parse.ts:159-173 | One iteration never retracts yielded output. After a `null` the buffered rows are gone and `lastDate` stays. After a row, `lastDate` is its timestamp, it is the last buffered row, and no row is lost: yielded plus buffered grows by one. |
| StreamFacts.ExpectedMembers | src/transactions/parse.ts:152-179 | A transaction is yielded if and only if it is a surviving row, shifted by the rows after it in its batch. |
| StreamFacts.NoRestartKeepsEveryRow | src/transactions/parse.ts:165-178 | Without restarts every row is yielded once, in input order, row i with its offset. |
| StreamFacts.OutputCount | src/transactions/parse.ts:159-178 | The number of yielded transactions is the number of rows minus the rows whose batch a restart ends. |
| StreamFacts.RestartDiscardsBatch | src/transactions/parse.ts:159-164 | A batch followed by `null` leaves no trace: the output is that of the rows after the restart. |
| StreamFacts.NormaliseDecreasing | src/transactions/parse.ts:51-66 | If distinct timestamps are at least a minute apart, in order, and no batch has more than 60,000 rows, the yielded times strictly decrease, so they are unique keys. |
| StreamFacts.ParseStreamDecreasing | src/transactions/parse.ts:51-66 | For a newest-first stream of raw rows with no batch of more than 60,000 rows, the yielded times strictly decrease. |
| StreamFacts.SameMinuteExample | src/transactions/parse.ts:165-178 | Two rows of one minute come out in order with offsets 1 and 0. |
| StreamFacts.RestartExample | src/transactions/parse.ts:159-164 | A row followed by `null` is dropped; the row after the restart is yielded unshifted. |
| EntryMap.GetPresent | src/ui/components/BarChart.tsx:101 | `get` finds a key exactly when the map has it. |
| EntryMap.SetKeys | src/ui/components/BarChart.tsx:93-103 | `set` keeps the order of the keys and appends a new key at the end. |
| EntryMap.SetGet | src/ui/components/BarChart.tsx:93-103 | After `set`, `get` of that key gives the new value; other keys are untouched. |
| EntryMap.SetTotal | src/ui/components/BarChart.tsx:93-103 | `set` replaces the old value's share of the total with the new value. |
| EntryMap.DedupFacts | src/ui/components/BarChart.tsx:93-103 | First occurrences keep every element exactly once and nothing else. |
| EntryMap.DedupPrefix | src/ui/components/BarChart.tsx:93-103 | Adding elements only appends: the first occurrences of a list prefix the first occurrences of a longer list. |
| StableSort.SortStable | src/ui/components/BarChart.tsx:104-107 | For every count, the entries with that count come out in their input order. |
| StableSort.SortPermutes | src/ui/components/BarChart.tsx:104-107 | The sort only reorders: the same entries with the same multiplicities. |
| StableSort.SortSorted | src/ui/components/BarChart.tsx:104-107 | Counts come out largest first. |
| StableSort.SortKeys | src/ui/components/BarChart.tsx:104-107 | The sort keeps exactly the keys, each once if it was once before. |
| StableSort.SortTotal | src/ui/components/BarChart.tsx:104-107 | The sort keeps the sum of the counts. |
| Frequencies.TallyKeys | src/ui/components/BarChart.tsx:93-103 | After both loops the keys are the supplied ones, then the new keys of the data, each where it first occurs. |
| Frequencies.TallyGet | src/ui/components/BarChart.tsx:93-103 | Each present key maps to the number of data with that key; a key neither supplied nor in the data is absent. |
| Frequencies.TallyTotal | src/ui/components/BarChart.tsx:93-103 | Every datum is counted exactly once. |
| Frequencies.CountFrequencies | src/ui/components/BarChart.tsx:88-109 | The entries are exactly the counted map's entries with their multiplicities; without a key list they come out largest count first. |
| Frequencies.FrequenciesCount | src/ui/components/BarChart.tsx:88-109 | The keys are distinct and are exactly the supplied keys and the keys of the data; each entry's count is the number of data with its key; the counts add up to the number of data. |
| Frequencies.FrequenciesCover | src/ui/components/BarChart.tsx:99-102 | Every datum's key has an entry. |
| Frequencies.FrequenciesWithKeys | src/ui/components/BarChart.tsx:94-108 | With a key list, even an empty one, there is no sort: the supplied keys come first, once each and in supplied order, then the other keys of the data by first occurrence. A supplied key that no datum has counts 0. |
| Frequencies.FrequenciesWithoutKeys | src/ui/components/BarChart.tsx:99-107 | Without a key list the keys are those of the data by first occurrence, then sorted by count, largest first. Every count is at least 1, and keys with equal counts keep their first-occurrence order. |
| Cum.Accumulate | src/utils/cum.ts:3-17 | Output k is the k-th kept transaction, unchanged, with the sum of the first k + 1 kept amounts as its balance. The first balance is the first amount, and each later balance is the previous one plus the amount. With a filter that keeps everything there is one output per input. |
| Cum.KeptMembers | src/utils/cum.ts:10-11 | A transaction is kept exactly when it is an input that the filter accepts. |
| Cum.KeepAll | src/utils/cum.ts:5 | The default filter `() => true` keeps every transaction, in order. |
| Cum.BalancedSteps | src/utils/cum.ts:12-13 | In a balanced output, consecutive balances differ by the later transaction's amount. |
| Cum.LastBalance | src/utils/cum.ts:9-16 | The last balance of an output as `accumulate` builds it is the sum of all kept amounts. |
| Cum.SumAppend | src/utils/cum.ts:9-15 | The running total is additive: the total over two stretches is the sum of their totals. |
| Cum.NetOfAppend | src/utils/cum.ts:9-15 | Two stretches of history read one after the other end on the sum of the balances each ends on by itself, whatever the filter. |
| Extrema.Extrema | src/utils/extrema.ts:4-9 | The minimum and the maximum both occur in the list; every number is at least the minimum and at most the maximum. |
| Extrema.FoldMin | src/utils/extrema.ts:6 | `reduce` with `Math.min` yields an element no larger than any other. |
| Extrema.FoldMax | src/utils/extrema.ts:7 | `reduce` with `Math.max` yields an element no smaller than any other. |
| Extrema.ExtremaOrdered | src/utils/extrema.ts:1-9 | The minimum never exceeds the maximum, so the pair is a valid d3 domain. |
| Extrema.ExtremaSingleton | src/utils/extrema.ts:4-9 | A one-number list is its own minimum and maximum. |
| Extrema.ExtremaPermutation | src/utils/extrema.ts:4-9 | The result depends only on which numbers occur, not on their order. |

## Left out

- Floating point: amounts and balances are whole cents, as `int`. The source keeps its running total as `amount * 100` and divides by 100 for each balance; with IEEE doubles that is exact only up to rounding, which the model does not represent.
- Amounts.ParseCents: reads only the portal's shapes: an optional minus, digits, and an optional point with one or two digits, ended by a space or the end. Any other text that `parseFloat` would read is `None` here, including text it reads to whole cents: a leading '+' ("+5.00 USD"), an exponent ("1e2 USD"), a missing integer or fraction part (".50 USD", "5. USD"), leading whitespace (" 5.00 USD"), no space before the unit ("5.00USD"); so are more decimals and "Infinity". NaN is not represented.
- TimeCodec.ParseTime: requires a well-formed timestamp (four-digit year; one- or two-digit month, day and hour; two-digit minute). Text without a space has no `time` field: `time.split(':')` on `undefined` throws a TypeError, which leaves `parseTransaction` and the `parseStream` generator; the model does not represent the exception (`ReadFields` gives `None` there). A date or time with too few pieces leaves a field `undefined`, and `Date.UTC` returns NaN; a field that is not a number makes `Number` give NaN, with the same result. Neither NaN is represented. The requirement also leaves out timestamps that the source does read to a real time: fields of other widths ("2022-01-12 6:0 AM" has minute 0, "22-01-12 6:00 AM" has year 1922) and empty fields, which `Number` reads as 0 ("2022--12 6:00 AM" has month index -1 and rolls back to 2021-12-12). `ParseTime` promises nothing about those. Month 0 or 13 and up, day 0 and days past the month's end are modelled, with `Date.UTC`'s roll-over.
- Stream.ParseStream: the asynchronous iteration is read as a finite sequence, and the generator's yields as the list of everything yielded. Laziness, and the yielded objects being mutated in place before they are yielded, are not observable in this form.
- Stream.Prepare: parses every row before the fold. The source parses a row when it arrives; `parseTransaction` is pure, so the results agree.
- StreamFacts.NormaliseDecreasing: requires that no batch has more than 60,000 rows (offsets 0 to 59,999 stay inside the minute), and that distinct timestamps arrive at least a minute apart and newest first. With a larger batch the offsets run into the previous minute and keys can collide, as the source's own comment says.
- Offsets of simultaneous rows: the comment on the `time` field numbers three simultaneous transactions `[time]`, `[time] + 1`, `[time] + 2` in chronological order. The portal lists newest first, so the code gives the first row read `+ 2` and the last (the oldest) `+ 0`, which is the same assignment; `Stream.Flush` states it in reading order.
- Frequencies: `getKey` is a total function, and key equality is Dafny equality. JavaScript `Map` uses SameValueZero, which differs only for NaN and for object identity.
- Extrema: modelled over integers. With floats, NaN in the list makes both results NaN; that is not modelled. `reduce` on an empty array throws, so the model requires a non-empty list.
- Scraping, storage, the UI components around `countFrequencies`, and the browser extension are not part of this model.
