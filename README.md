# Block statistics parser, modelled in Dafny

The block statistics parser reads an Orbs virtual chain's block store one page
of blocks at a time. For every page it writes one summary row:

- the timestamp and height of the page's last block;
- the number of transactions in the page;
- an estimate of block closing time: the mean gap between the timestamps of
  consecutive blocks, in milliseconds.

The block just before a page is carried into it, so the first gap of each
page after the first spans the page boundary. The scan stops once a page ends
at or beyond the chain's tip height, which is read once before scanning. The
result is a CSV report with a header line and then one line per row.

The model has four modules:

- `Blocks` (blocks.dfy): the entities `Block` and `Row`, and the Go integer
  semantics the program relies on. These are uint64 wrap-around, reading a
  uint64 as an int64, and division that truncates toward zero.
- `ClosingTime` (closing_time.dfy): the per-page histogram as a class. It
  records values, and its estimate is the integer mean of what was recorded.
- `PageScan` (page_scan.dfy): the scan callback as the method
  `BlockScanner.OnPage` of a class. The class holds the state the Go closure
  captures: the carried block, the rows, and the tip height. The functions
  `PageRow` and `ScanRows` specify what a page and a whole scan produce.
  `RunScan` is the driver that hands pages to the callback until it asks to
  stop. Lemmas relate rows to pages, closing times to the whole block chain,
  and row counts to the scan's transactions.
- `Report` (report.dfy): the CSV rendering loop as the method `Render`,
  specified by `ReportText`. It is paired with a parser: every line of the
  report reads back as its row.

## Model

| member | source | states |
|---|---|---|
| Blocks.Wrap64 | main.go:81 | uint64 arithmetic: a result below 2^64 is exact, a sum from 2^64 up to 2^65 wraps to itself minus 2^64, and a negative difference above -2^64 wraps to itself plus 2^64 |
| Blocks.TruncDiv | main.go:85 | Go's `/` on int64: defined as the floored quotient of the magnitude, with the sign of the dividend put back; TruncDivMeaning states what that means |
| Blocks.TruncDivMeaning | main.go:85 | the quotient has the sign of the dividend, and quotient times divisor is the multiple of the divisor nearest the dividend on the side of zero, within one divisor of it |
| Blocks.ToInt64 | main.go:85 | int64 of a uint64 lies in the int64 range and denotes the same 64 bits |
| PageScan.Delta | main.go:84-85 | the recorded value for a block after the previous one: the uint64 difference of their timestamps, read as int64, divided by 10^6 with truncation; DeltaMeaning gives it as the real difference in whole milliseconds |
| PageScan.DeltaMeaning | main.go:84-85 | a recorded gap is the timestamp difference in whole milliseconds: non-negative and rounded down going forward, minus the rounded-down difference going backward, as long as the step is under 2^63 ns |
| PageScan.PageDeltasShape | main.go:79-89 | a page records one gap per block when a block was carried in and one fewer otherwise; the first gap of a later page runs from the carried block to the page's first block, and every other gap runs between neighbours in the page |
| PageScan.BlockScanner.constructor | main.go:65-73 | the scan starts with no carried block, no rows, and the tip height read once up front |
| ClosingTime.Histogram.constructor | main.go:77 | each page starts from a fresh, empty histogram |
| ClosingTime.Histogram.RecordValue | main.go:85 | recording appends exactly the given value |
| PageScan.PageRow | main.go:75-100 | the row one page produces, given the carried block: the last block's timestamp and height, the page's transaction count in uint64 arithmetic, and the mean of the page's recorded gaps; OnPage's loop is proved to compute it, and ScanRowDescribesPage, SingleBlockFirstPage and ClosingTimeNonNegative state its properties |
| PageScan.BlockScanner.OnPage | main.go:74-105 | one call appends exactly one row, PageRow of the carried block and the page, and keeps the earlier rows; it leaves the page's last block as the carried block; it asks for more exactly when the page's last height is below the tip height |
| PageScan.RunScan | main.go:65-105 | the rows are those of the pages the callback saw, in page order; every page before the last one seen ended below the tip; if pages remain unseen, the last page seen reached the tip |
| PageScan.ScanRowsAt | main.go:95-100 | a scan of n pages has n rows, and row i is the row of page i with the last block of page i-1 carried in |
| PageScan.ScanRowDescribesPage | main.go:75-100 | row i has the height and timestamp of the last block of page i, and that page's own transaction count whenever the page's count is below 2^64; its closing time is the mean of the gaps recorded while folding page i |
| PageScan.ScanDeltasFollowChain | main.go:73-89 | across all pages the histograms record exactly the gaps between consecutive blocks of the whole scan, none lost and none repeated |
| PageScan.ScanTxTotal | main.go:75-98 | if no page holds 2^64 or more transactions, the rows' counts add up to the transactions of all scanned blocks |
| PageScan.RowHeightsIncrease | main.go:92-97 | when pages arrive contiguous and in height order, the rows' heights strictly increase |
| PageScan.SingleBlockFirstPage | main.go:77-99 | a first page of one block records no gap, so its closing time is 0; its height and transaction count are that block's (a block's count is a Go slice length, below 2^63) |
| PageScan.ClosingTimeNonNegative | main.go:83-99 | if timestamps never go backwards and no step between consecutive blocks reaches 2^63 ns, a page's closing-time estimate is non-negative |
| PageScan.ThreeBlockScan | main.go:74-105 | blocks 1, 2, 3 stamped t, t+1 s and t+3 s with 2, 3 and 0 transactions, in one page, give one row: timestamp t+3 s, height 3, 5 transactions, 1500 ms |
| ClosingTime.Histogram.Mean | main.go:99 | the estimate reads 0 when nothing was recorded, and otherwise is the largest m such that m times the number of recorded values does not exceed their sum |
| ClosingTime.MeanWithinBounds | main.go:99 | the estimate of a non-empty histogram lies between its least and greatest recorded values |
| ClosingTime.MeanNonNegative | main.go:99 | non-negative gaps give a non-negative estimate |
| Report.Render | main.go:110-116 | the buffer holds the header line and then each row's line, in row order, each ending in a line break |
| Report.DecimalDigits | main.go:113-115 | `%d` of a count is a non-empty run of digits with no leading zero |
| Report.DecimalRoundTrip | main.go:113-115 | reading back `%d` of a count gives the count |
| Report.SignedDecimalRoundTrip | main.go:113-115 | reading back `%d` of a signed value gives the value |
| Report.CsvLine | main.go:113-115 | a row's line: the rendered timestamp, the height, the count and the closing time in base 10, joined by commas; CsvLineFields and CsvLineRoundTrip show it splits into and parses back to those four fields |
| Report.CsvLineFields | main.go:113-115 | a row's line splits at its commas into exactly the timestamp text, height, count and closing time, in that order |
| Report.CsvLineRoundTrip | main.go:113-115 | parsing a row's line gives back the rendered timestamp and the row's three numbers |
| Report.HeaderSplit | main.go:111 | the header is a single line: splitting the report at line breaks gives the header first |
| Report.LinesAt | main.go:112-116 | there is one line per row, and line i is row i's line |
| Report.ReportLines | main.go:110-116 | split at line breaks, the report is the header, then one line per row in row order, then the empty text after the final line break |
| Report.ReportRoundTrip | main.go:110-116 | the report has one line more than rows plus the header, and line i+1 parses back to row i |

## Left out

- The local configuration and its getters (main.go:17-37): fixed settings, not logic.
- Opening the block store, `GetLastBlockHeight` and the store's `ScanBlocks` paging (main.go:52-74): these are external I/O. The tip height is a parameter. The pages the store delivers are an input sequence of non-empty pages, and the start height 1 and page size 1000 are not modelled.
- The error exits through `os.Exit` (main.go:60-69, main.go:105-108, main.go:118-123) and writing `out.csv` with `ioutil.WriteFile`: process control and file I/O.
- Logging, metrics and the start-up timer (main.go:47-50, main.go:58, main.go:93): they only observe the run.
- Inside the hdrhistogram library: the windowed buckets, the one-significant-figure quantisation, the float `Mean()`, and the error `RecordValue` returns for values outside its range. main.go:77 declares the range (0 up to the number of nanoseconds in 24 hours, while the values recorded are milliseconds) and the one significant figure, but how the library applies them is not part of this model. The histogram keeps exactly the recorded values, and its estimate is their mean rounded down, 0 when empty. A negative gap lies outside the declared range; the library may reject it, but the model's mean still counts it.
- PageScan.PageRow: the closing time is kept as a signed integer mean. Go converts the float mean to uint64, and for a negative mean that conversion is implementation-defined. The quantised float mean can also differ slightly from the exact mean, so ThreeBlockScan's 1500 ms is the exact mean of 1000 and 2000.
- RFC 3339 formatting of the timestamp (`time.Unix(...).Format(time.RFC3339)`, main.go:114, section 5.6 of RFC 3339): Go's time library. It is the parameter `rfc3339`, applied to the int64 nanosecond count. The line and round-trip lemmas assume it never produces a comma or a line break, which RFC 3339 text never contains.
- The commented-out stopping rule (main.go:102): dead code.
- PageScan.BlockScanner.OnPage: requires a non-empty page. The Go code indexes `page[len(page)-1]` and would panic on an empty page; the store never delivers one.
- The text is a sequence of characters. The byte encoding of the `bytes.Buffer` is not modelled, and it is a plain ASCII report.
