/** The paginated scan: the callback that folds one page of blocks into one
    row, the block carried from page to page, the continuation rule, and the
    driver that hands the store's pages to the callback until it asks to stop. */
module PageScan {
  import opened Blocks
  import opened ClosingTime

  const NanosPerMs: int := 1000000

  /** The closing time, in milliseconds, recorded for `block` after `previous`:
      the uint64 difference of the timestamps, read as an int64 and divided
      by 10^6 with truncation toward zero. As long as the two timestamps are
      less than 2^63 ns apart, this is their real difference in whole ms. */
  function Delta(previous: Block, block: Block): int
  {
    TruncDiv(ToInt64(Wrap64(block.timestamp - previous.timestamp)), NanosPerMs)
  }

  /** Within 2^63 ns the wrap-around and the int64 reading cancel out: a
      forward step records its length in whole milliseconds, rounded down,
      and a backward step records minus its length, rounded toward zero. */
  lemma DeltaMeaning(previous: Block, block: Block)
    ensures previous.timestamp <= block.timestamp < previous.timestamp + I64 ==>
              Delta(previous, block) == (block.timestamp - previous.timestamp) / NanosPerMs >= 0
    ensures block.timestamp < previous.timestamp <= block.timestamp + I64 ==>
              Delta(previous, block) == -((previous.timestamp - block.timestamp) / NanosPerMs) <= 0
  {
  }

  /** The block carried into a page, as a (possibly empty) prefix of it. */
  function CarriedPrefix(previous: Option<Block>): seq<Block>
  {
    if previous.Some? then [previous.value] else []
  }

  /** The closing times between every two consecutive blocks of `chain`. */
  function Gaps(chain: seq<Block>): seq<int>
  {
    seq(if |chain| == 0 then 0 else |chain| - 1, i requires 0 <= i < |chain| - 1 => Delta(chain[i], chain[i + 1]))
  }

  /** The values recorded into a page's histogram: the closing times along the
      carried block followed by the page. */
  function PageDeltas(previous: Option<Block>, page: seq<Block>): seq<int>
    requires |page| > 0
  {
    Gaps(CarriedPrefix(previous) + page)
  }

  /** A page records one closing time per block, except that the very first
      block of the scan has nothing before it; the first value of a later page
      spans the page boundary, and every other value is the gap between two
      neighbours of the page. */
  lemma PageDeltasShape(previous: Option<Block>, page: seq<Block>)
    requires |page| > 0
    ensures |PageDeltas(previous, page)| == if previous.Some? then |page| else |page| - 1
    ensures previous.Some? ==> PageDeltas(previous, page)[0] == Delta(previous.value, page[0])
    ensures forall i :: 0 < i < |page| ==>
              PageDeltas(previous, page)[if previous.Some? then i else i - 1] == Delta(page[i - 1], page[i])
  {
    var chain := CarriedPrefix(previous) + page;
    var offset := |CarriedPrefix(previous)|;
    forall i | 0 < i < |page|
      ensures PageDeltas(previous, page)[if previous.Some? then i else i - 1] == Delta(page[i - 1], page[i])
    {
      assert chain[offset + i - 1] == page[i - 1] && chain[offset + i] == page[i];
    }
  }

  /** Transactions of a page, summed in block order. */
  function TxSum(page: seq<Block>): nat
  {
    if page == [] then 0 else TxSum(page[..|page| - 1]) + Last(page).txCount
  }

  /** The row of one page: the page's last block's timestamp and height, the
      page's transaction count in uint64 arithmetic, and the mean of the page's
      closing times. */
  function PageRow(previous: Option<Block>, page: seq<Block>): Row
    requires |page| > 0
  {
    Row(Last(page).timestamp, Last(page).height, Wrap64(TxSum(page)), IntMean(PageDeltas(previous, page)))
  }

  /** The state captured by the scan callback: the block carried across
      pages, the rows collected so far, and the tip height read once before
      the scan starts. */
  class BlockScanner {
    const lastBlockHeight: uint64
    var previous: Option<Block>
    var rows: seq<Row>

    constructor (lastBlockHeight: uint64)
      ensures this.lastBlockHeight == lastBlockHeight
      ensures previous == None && rows == []
    {
      this.lastBlockHeight := lastBlockHeight;
      previous := None;
      rows := [];
    }

    /** The callback given to the store's scan, called once per page. */
    method OnPage(page: seq<Block>) returns (wantsMore: bool)
      requires |page| > 0
      modifies this
      ensures rows == old(rows) + [PageRow(old(previous), page)]
      ensures previous == Some(Last(page))
      ensures wantsMore <==> Last(page).height < lastBlockHeight
    {
      var totalTxCount: uint64 := 0;
      var blockClosingTime := new Histogram();
      ghost var chain := CarriedPrefix(previous);
      for i := 0 to |page|
        invariant totalTxCount == Wrap64(TxSum(page[..i]))
        invariant blockClosingTime.recorded == Gaps(chain + page[..i])
        invariant previous == if i == 0 then old(previous) else Some(page[i - 1])
        invariant rows == old(rows)
      {
        var block := page[i];
        FoldStep(chain, page, i);
        totalTxCount := Wrap64(totalTxCount + block.txCount);
        if previous.Some? {
          blockClosingTime.RecordValue(Delta(previous.value, block));
        }
        previous := Some(block);
      }
      assert page[..|page|] == page;
      var lastBatchBlock := page[|page| - 1];
      rows := rows + [Row(lastBatchBlock.timestamp, lastBatchBlock.height, totalTxCount, blockClosingTime.Mean())];
      wantsMore := lastBatchBlock.height < lastBlockHeight;
    }
  }

  /** What one turn of the callback's loop adds: block `i`'s transactions to
      the uint64 total, and its closing time, if a block precedes it. */
  lemma FoldStep(chain: seq<Block>, page: seq<Block>, i: nat)
    requires i < |page|
    ensures Wrap64(Wrap64(TxSum(page[..i])) + page[i].txCount) == Wrap64(TxSum(page[..i + 1]))
    ensures Gaps(chain + page[..i + 1]) ==
              Gaps(chain + page[..i]) + (if chain + page[..i] == [] then [] else [Delta(Last(chain + page[..i]), page[i])])
  {
    assert page[..i + 1] == page[..i] + [page[i]];
    TxSumSnoc(page[..i], page[i]);
    WrapAdd(TxSum(page[..i]), page[i].txCount);
    GapsSnoc(chain + page[..i], page[i]);
    assert chain + page[..i + 1] == (chain + page[..i]) + [page[i]];
  }

  /** Adding to a wrapped total is adding to the exact total, then wrapping. */
  lemma WrapAdd(total: int, n: int)
    ensures Wrap64(Wrap64(total) + n) == Wrap64(total + n)
  {
    var k := total / U64;
    assert total == U64 * k + Wrap64(total);
    assert Wrap64(total) + n == (total + n) - U64 * k;
  }

  lemma TxSumSnoc(page: seq<Block>, block: Block)
    ensures TxSum(page + [block]) == TxSum(page) + block.txCount
  {
    assert (page + [block])[..|page|] == page;
  }

  lemma GapsSnoc(chain: seq<Block>, block: Block)
    ensures Gaps(chain + [block]) == Gaps(chain) + (if chain == [] then [] else [Delta(Last(chain), block)])
  {
  }

  /** Every page the store delivers holds at least one block. */
  ghost predicate NonEmptyPages(pages: seq<seq<Block>>)
  {
    forall j :: 0 <= j < |pages| ==> |pages[j]| > 0
  }

  /** The block carried into page `i` of a scan that started with `previous`. */
  function Carry(previous: Option<Block>, pages: seq<seq<Block>>, i: nat): Option<Block>
    requires NonEmptyPages(pages) && i <= |pages|
  {
    if i == 0 then previous else Some(Last(pages[i - 1]))
  }

  /** The rows of a scan that has handed the first `n` pages to the callback,
      one per page in page order. */
  function ScanRows(previous: Option<Block>, pages: seq<seq<Block>>, n: nat): seq<Row>
    requires NonEmptyPages(pages) && n <= |pages|
  {
    if n == 0 then [] else ScanRows(previous, pages, n - 1) + [PageRow(Carry(previous, pages, n - 1), pages[n - 1])]
  }

  /** The scan of main.go: the tip height is read once, before the first
      page, and pages are handed to the callback in order until it returns
      false or the store has no more. `delivered` is the number of pages the
      callback saw: all of them, or up to the first whose last height reaches
      the tip. */
  method RunScan(lastBlockHeight: uint64, pages: seq<seq<Block>>) returns (rows: seq<Row>, delivered: nat)
    requires NonEmptyPages(pages)
    ensures delivered <= |pages|
    ensures rows == ScanRows(None, pages, delivered)
    ensures forall i :: 0 <= i < delivered - 1 ==> Last(pages[i]).height < lastBlockHeight
    ensures delivered < |pages| ==> 0 < delivered && Last(pages[delivered - 1]).height >= lastBlockHeight
  {
    var scanner := new BlockScanner(lastBlockHeight);
    var wantsMore := true;
    delivered := 0;
    while delivered < |pages| && wantsMore
      invariant delivered <= |pages|
      invariant scanner.lastBlockHeight == lastBlockHeight
      invariant scanner.rows == ScanRows(None, pages, delivered)
      invariant scanner.previous == Carry(None, pages, delivered)
      invariant forall i :: 0 <= i < delivered - 1 ==> Last(pages[i]).height < lastBlockHeight
      invariant wantsMore <==> delivered == 0 || Last(pages[delivered - 1]).height < lastBlockHeight
      decreases |pages| - delivered
    {
      assert forall i :: 0 <= i < delivered ==> Last(pages[i]).height < lastBlockHeight;
      ScanStep(None, pages, delivered);
      wantsMore := scanner.OnPage(pages[delivered]);
      delivered := delivered + 1;
    }
    rows := scanner.rows;
  }

  /** Handing page n to the callback adds its row and carries its last block. */
  lemma ScanStep(previous: Option<Block>, pages: seq<seq<Block>>, n: nat)
    requires NonEmptyPages(pages) && n < |pages|
    ensures ScanRows(previous, pages, n + 1) == ScanRows(previous, pages, n) + [PageRow(Carry(previous, pages, n), pages[n])]
    ensures Carry(previous, pages, n + 1) == Some(Last(pages[n]))
  {
  }

  lemma ScanRowsAt(previous: Option<Block>, pages: seq<seq<Block>>, n: nat, i: nat)
    requires NonEmptyPages(pages) && i < n <= |pages|
    ensures |ScanRows(previous, pages, n)| == n
    ensures ScanRows(previous, pages, n)[i] == PageRow(Carry(previous, pages, i), pages[i])
  {
    var rows := (k: nat) => if k <= |pages| then ScanRows(previous, pages, k) else [];
    var row := (k: nat) => if k < |pages| then PageRow(Carry(previous, pages, k), pages[k]) else Row(0, 0, 0, 0);
    forall k: nat | k < n
      ensures rows(k + 1) == rows(k) + [row(k)]
    {
      ScanStep(previous, pages, k);
    }
    SnocFamilyAt(rows, row, n, i);
  }

  /** A family of sequences built by appending one item per step holds item
      i at index i. */
  lemma {:induction false} SnocFamilyAt<T>(family: nat -> seq<T>, item: nat -> T, n: nat, i: nat)
    requires family(0) == []
    requires forall k: nat :: k < n ==> family(k + 1) == family(k) + [item(k)]
    requires i < n
    ensures |family(n)| == n && family(n)[i] == item(i)
  {
    if i < n - 1 {
      SnocFamilyAt(family, item, n - 1, i);
    } else if n > 1 {
      SnocFamilyAt(family, item, n - 1, 0);
    }
    assert family(n) == family(n - 1) + [item(n - 1)];
  }

  /** Row `i` of a scan describes page `i` and only page `i`: its height and
      timestamp are those of the page's last block, its transaction count is
      the page's own, and its closing time is the mean of the gaps recorded
      while folding that page, starting from the last block of page i - 1. */
  lemma ScanRowDescribesPage(previous: Option<Block>, pages: seq<seq<Block>>, n: nat, i: nat)
    requires NonEmptyPages(pages) && i < n <= |pages|
    ensures |ScanRows(previous, pages, n)| == n
    ensures ScanRows(previous, pages, n)[i].blockHeight == Last(pages[i]).height
    ensures ScanRows(previous, pages, n)[i].timestamp == Last(pages[i]).timestamp
    ensures TxSum(pages[i]) < U64 ==> ScanRows(previous, pages, n)[i].txCount == TxSum(pages[i])
    ensures ScanRows(previous, pages, n)[i].medianBlockClosingTimeMs ==
              IntMean(PageDeltas(if i == 0 then previous else Some(Last(pages[i - 1])), pages[i]))
  {
    ScanRowsAt(previous, pages, n, i);
  }

  /** The blocks of the first `n` pages, in scan order. */
  function Concat(pages: seq<seq<Block>>, n: nat): seq<Block>
    requires n <= |pages|
  {
    if n == 0 then [] else Concat(pages, n - 1) + pages[n - 1]
  }

  /** Everything recorded into the per-page histograms while the first `n`
      pages were folded, page after page. */
  function ScanDeltas(previous: Option<Block>, pages: seq<seq<Block>>, n: nat): seq<int>
    requires NonEmptyPages(pages) && n <= |pages|
  {
    if n == 0 then [] else ScanDeltas(previous, pages, n - 1) + PageDeltas(Carry(previous, pages, n - 1), pages[n - 1])
  }

  lemma GapsSplit(x: seq<Block>, y: seq<Block>)
    requires |x| > 0
    ensures Gaps(x + y) == Gaps(x) + Gaps([Last(x)] + y)
  {
    var whole, left, right := x + y, Gaps(x), Gaps([Last(x)] + y);
    assert |Gaps(whole)| == |left| + |right|;
    forall i | 0 <= i < |Gaps(whole)| ensures Gaps(whole)[i] == (left + right)[i] {
      if i >= |x| - 1 {
        var j := i - (|x| - 1);
        var tail := [Last(x)] + y;
        assert tail[j] == whole[i] && tail[j + 1] == whole[i + 1];
      }
    }
  }

  lemma ConcatLast(pages: seq<seq<Block>>, n: nat)
    requires NonEmptyPages(pages) && 0 < n <= |pages|
    ensures |Concat(pages, n)| > 0 && Last(Concat(pages, n)) == Last(pages[n - 1])
  {
  }

  /** Folding page by page loses and duplicates no closing time: the values
      recorded across all pages are exactly the gaps between consecutive
      blocks of the whole scan, because the block carried into each page is
      the last block of the page before it. */
  lemma {:induction false} ScanDeltasFollowChain(previous: Option<Block>, pages: seq<seq<Block>>, n: nat)
    requires NonEmptyPages(pages) && n <= |pages|
    ensures ScanDeltas(previous, pages, n) == Gaps(CarriedPrefix(previous) + Concat(pages, n))
  {
    if n > 0 {
      ScanDeltasFollowChain(previous, pages, n - 1);
      ChainStep(previous, pages, n);
    }
  }

  /** Appending page n - 1 to the chain adds exactly the gaps that folding
      that page records. */
  lemma ChainStep(previous: Option<Block>, pages: seq<seq<Block>>, n: nat)
    requires NonEmptyPages(pages) && 0 < n <= |pages|
    ensures Gaps(CarriedPrefix(previous) + Concat(pages, n)) ==
              Gaps(CarriedPrefix(previous) + Concat(pages, n - 1)) + PageDeltas(Carry(previous, pages, n - 1), pages[n - 1])
  {
    var page := pages[n - 1];
    var before := CarriedPrefix(previous) + Concat(pages, n - 1);
    var carried := CarriedPrefix(Carry(previous, pages, n - 1));
    assert CarriedPrefix(previous) + Concat(pages, n) == before + page;
    if n > 1 || previous.Some? {
      if n > 1 {
        ConcatLast(pages, n - 1);
      }
      assert before != [] && carried == [Last(before)];
      GapsSplit(before, page);
    } else {
      assert before == [] && carried == [];
    }
  }

  lemma {:induction false} TxSumConcat(a: seq<Block>, b: seq<Block>)
    ensures TxSum(a + b) == TxSum(a) + TxSum(b)
  {
    if b != [] {
      var init := b[..|b| - 1];
      TxSumConcat(a, init);
      assert (a + b)[..|a + b| - 1] == a + init;
      assert Last(a + b) == Last(b);
    } else {
      assert a + b == a;
    }
  }

  /** Sum of the transaction counts of a run of rows. */
  function RowsTxTotal(rows: seq<Row>): nat
  {
    if rows == [] then 0 else RowsTxTotal(rows[..|rows| - 1]) + Last(rows).txCount
  }

  /** Transactions of the first `n` pages, page by page. */
  function PagesTxTotal(pages: seq<seq<Block>>, n: nat): nat
    requires n <= |pages|
  {
    if n == 0 then 0 else PagesTxTotal(pages, n - 1) + TxSum(pages[n - 1])
  }

  /** Every transaction of the scan is counted in exactly one row: when no
      page holds 2^64 or more transactions, the rows' counts add up to the
      transactions of all scanned blocks. */
  lemma ScanTxTotal(previous: Option<Block>, pages: seq<seq<Block>>, n: nat)
    requires NonEmptyPages(pages) && n <= |pages|
    requires forall j :: 0 <= j < n ==> TxSum(pages[j]) < U64
    ensures RowsTxTotal(ScanRows(previous, pages, n)) == TxSum(Concat(pages, n))
  {
    RowsTxTotalIsPagesTxTotal(previous, pages, n);
    PagesTxTotalIsConcat(pages, n);
  }

  lemma {:induction false} RowsTxTotalIsPagesTxTotal(previous: Option<Block>, pages: seq<seq<Block>>, n: nat)
    requires NonEmptyPages(pages) && n <= |pages|
    requires forall j :: 0 <= j < n ==> TxSum(pages[j]) < U64
    ensures RowsTxTotal(ScanRows(previous, pages, n)) == PagesTxTotal(pages, n)
  {
    if n > 0 {
      RowsTxTotalIsPagesTxTotal(previous, pages, n - 1);
      assert TxSum(pages[n - 1]) < U64;
      RowsTxTotalStep(previous, pages, n);
    }
  }

  lemma {:induction false} PagesTxTotalIsConcat(pages: seq<seq<Block>>, n: nat)
    requires n <= |pages|
    ensures PagesTxTotal(pages, n) == TxSum(Concat(pages, n))
  {
    if n > 0 {
      PagesTxTotalIsConcat(pages, n - 1);
      TxSumConcat(Concat(pages, n - 1), pages[n - 1]);
    }
  }

  lemma RowsTxTotalStep(previous: Option<Block>, pages: seq<seq<Block>>, n: nat)
    requires NonEmptyPages(pages) && 0 < n <= |pages|
    requires TxSum(pages[n - 1]) < U64
    requires RowsTxTotal(ScanRows(previous, pages, n - 1)) == PagesTxTotal(pages, n - 1)
    ensures RowsTxTotal(ScanRows(previous, pages, n)) == PagesTxTotal(pages, n)
  {
    var before := ScanRows(previous, pages, n - 1);
    var row := PageRow(Carry(previous, pages, n - 1), pages[n - 1]);
    assert ScanRows(previous, pages, n) == before + [row];
    PageRowCount(Carry(previous, pages, n - 1), pages[n - 1]);
    RowsTxTotalSnoc(before, row);
  }

  lemma PageRowCount(previous: Option<Block>, page: seq<Block>)
    requires |page| > 0 && TxSum(page) < U64
    ensures PageRow(previous, page).txCount == TxSum(page)
  {
  }

  lemma RowsTxTotalSnoc(rows: seq<Row>, row: Row)
    ensures RowsTxTotal(rows + [row]) == RowsTxTotal(rows) + row.txCount
  {
    assert (rows + [row])[..|rows|] == rows;
  }

  /** Heights within a run of blocks go up by one from each block to the next. */
  ghost predicate GapFree(blocks: seq<Block>)
  {
    forall k :: 0 < k < |blocks| ==> blocks[k].height == blocks[k - 1].height + 1
  }

  /** The pages the store delivers: non-empty, gap-free, and each one starting
      right after the last block of the page before it. */
  ghost predicate ContiguousPages(pages: seq<seq<Block>>)
  {
    NonEmptyPages(pages) &&
    (forall j :: 0 <= j < |pages| ==> GapFree(pages[j])) &&
    (forall j :: 0 < j < |pages| ==> pages[j][0].height == Last(pages[j - 1]).height + 1)
  }

  lemma {:induction false} GapFreeSpan(blocks: seq<Block>, k: nat)
    requires GapFree(blocks) && k < |blocks|
    ensures blocks[k].height == blocks[0].height + k
  {
    if k > 0 {
      GapFreeSpan(blocks, k - 1);
    }
  }

  lemma {:induction false} LastHeightsIncrease(pages: seq<seq<Block>>, i: nat, j: nat)
    requires ContiguousPages(pages) && i < j < |pages|
    ensures Last(pages[i]).height < Last(pages[j]).height
  {
    if i < j - 1 {
      LastHeightsIncrease(pages, i, j - 1);
    }
    GapFreeSpan(pages[j], |pages[j]| - 1);
  }

  /** Over pages delivered in height order, the rows' block heights are
      strictly increasing. */
  lemma RowHeightsIncrease(previous: Option<Block>, pages: seq<seq<Block>>, n: nat, i: nat, j: nat)
    requires ContiguousPages(pages) && i < j < n <= |pages|
    ensures |ScanRows(previous, pages, n)| == n
    ensures ScanRows(previous, pages, n)[i].blockHeight < ScanRows(previous, pages, n)[j].blockHeight
  {
    ScanRowsAt(previous, pages, n, i);
    ScanRowsAt(previous, pages, n, j);
    LastHeightsIncrease(pages, i, j);
  }

  /** The first page of a scan holding a single block records no closing
      time, so its row reads 0. */
  lemma SingleBlockFirstPage(b: Block)
    ensures PageRow(None, [b]).medianBlockClosingTimeMs == 0
    ensures PageRow(None, [b]).blockHeight == b.height
    ensures PageRow(None, [b]).txCount == b.txCount
  {
    assert PageDeltas(None, [b]) == [];
    assert [b][..0] == [];
    assert TxSum([b]) == b.txCount;
  }

  /** In a chain whose timestamps never go backwards (and never jump by 2^63 ns
      or more), every closing time is non-negative, and so is every page's mean. */
  lemma ClosingTimeNonNegative(previous: Option<Block>, page: seq<Block>)
    requires |page| > 0
    requires forall k :: 0 < k < |CarriedPrefix(previous) + page| ==>
               (CarriedPrefix(previous) + page)[k - 1].timestamp <= (CarriedPrefix(previous) + page)[k].timestamp < (CarriedPrefix(previous) + page)[k - 1].timestamp + I64
    ensures PageRow(previous, page).medianBlockClosingTimeMs >= 0
  {
    var chain := CarriedPrefix(previous) + page;
    var deltas := PageDeltas(previous, page);
    forall i | 0 <= i < |deltas| ensures deltas[i] >= 0 {
      assert deltas[i] == Delta(chain[i], chain[i + 1]);
      DeltaMeaning(chain[i], chain[i + 1]);
    }
    MeanNonNegative(deltas);
  }

  /** One page of three blocks at heights 1, 2, 3, stamped t, t + 1 s and
      t + 3 s and holding 2, 3 and 0 transactions: one row at height 3 with 5
      transactions and a mean closing time of (1000 + 2000) / 2 = 1500 ms. */
  lemma ThreeBlockScan(t: uint64)
    requires t + 3000000000 < U64
    ensures ScanRows(None, [[Block(1, t, 2), Block(2, t + 1000000000, 3), Block(3, t + 3000000000, 0)]], 1)
            == [Row(t + 3000000000, 3, 5, 1500)]
  {
    var b1, b2, b3 := Block(1, t, 2), Block(2, t + 1000000000, 3), Block(3, t + 3000000000, 0);
    var page := [b1, b2, b3];
    PageDeltasShape(None, page);
    DeltaMeaning(b1, b2);
    DeltaMeaning(b2, b3);
    var deltas := PageDeltas(None, page);
    assert deltas == [1000, 2000];
    assert [1000, 2000][..1] == [1000] && [1000][..0] == [];
    assert Sum([1000]) == 1000;
    assert Sum(deltas) == 3000;
    assert page[..2] == [b1, b2] && [b1, b2][..1] == [b1] && [b1][..0] == [];
    assert TxSum([b1]) == 2;
    assert TxSum([b1, b2]) == 5;
    assert TxSum(page) == 5;
  }
}
