/** `search::binary_search` of the UTXO ledger (`src/blockchain/algorithms/search.cpp`):
    finds a transaction by its index, using that each block holds the transactions
    numbered from its own index upwards. The iterators `begin` and `end` are the
    positions `lo` and `hi` of the block sequence. */
module Search {
  import Blocks
  import Transactions

  type Block = Blocks.Block
  type Transaction = Transactions.Transaction

  /** `begin + (end - begin) / 2`: inside [lo, hi) when the range is non-empty, and
      `end` itself when it is empty, where dereferencing it is undefined. */
  function Middle(lo: int, hi: int): (m: int)
    requires lo <= hi
    ensures lo < hi ==> lo <= m < hi
    ensures lo == hi ==> m == hi
    ensures hi - lo > 1 ==> lo < m
  {
    lo + (hi - lo) / 2
  }

  /** Whether block `b` holds the transaction numbered `txIndex`. */
  predicate Holds(b: Block, txIndex: int) {
    b.index <= txIndex < b.index + |b.transactions|
  }

  /** The shape of a committed chain the search relies on: no block is empty, and each
      block's numbering starts where the previous block's ends. */
  predicate Contiguous(blocks: seq<Block>) {
    && (forall i :: 0 <= i < |blocks| ==> |blocks[i].transactions| > 0)
    && (forall i :: 0 < i < |blocks| ==> blocks[i].index == blocks[i - 1].index + |blocks[i - 1].transactions|)
  }

  /** The range [lo, hi) is non-empty and the number falls between the first index of
      its first block and the end of its last block. */
  predicate Covers(blocks: seq<Block>, lo: int, hi: int, txIndex: int) {
    && 0 <= lo < hi <= |blocks|
    && blocks[lo].index <= txIndex < blocks[hi - 1].index + |blocks[hi - 1].transactions|
  }

  /** What one call does before recursing: return a transaction, recurse on a range,
      or reach `front()` of an empty block, which is undefined. */
  datatype Step = Found(tx: Transaction) | Recurse(lo: int, hi: int) | Undefined

  /** One call of binary_search on [lo, hi): below the middle block's index it recurses
      on [lo, mid); above it, it returns the transaction at the offset when the middle
      block is long enough and otherwise recurses on [mid, hi), the middle block
      included; at the middle block's index it returns that block's first transaction. */
  function SearchStep(blocks: seq<Block>, lo: int, hi: int, txIndex: int): (s: Step)
    requires 0 <= lo < hi <= |blocks|
    ensures var m := blocks[Middle(lo, hi)];
      && (txIndex < m.index <==> s == Recurse(lo, Middle(lo, hi)))
      && (s.Found? <==> Holds(m, txIndex))
      && (Holds(m, txIndex) ==> s == Found(m.transactions[txIndex - m.index]))
      && (txIndex >= m.index + |m.transactions| && txIndex > m.index <==> s == Recurse(Middle(lo, hi), hi))
      && (s == Undefined <==> txIndex == m.index && |m.transactions| == 0)
  {
    var mid := Middle(lo, hi);
    var m := blocks[mid];
    if txIndex < m.index then Recurse(lo, mid)
    else if txIndex > m.index then
      if |m.transactions| > txIndex - m.index then Found(m.transactions[txIndex - m.index])
      else Recurse(mid, hi)
    else if |m.transactions| > 0 then Found(m.transactions[0])
    else Undefined
  }

  lemma ContiguousIndexGap(blocks: seq<Block>, i: int, j: int)
    requires Contiguous(blocks)
    requires 0 <= i < j < |blocks|
    ensures blocks[i].index + |blocks[i].transactions| <= blocks[j].index
    decreases j - i
  {
    if j > i + 1 {
      ContiguousIndexGap(blocks, i, j - 1);
    }
  }

  /** Under contiguity a covered number always leads to a smaller covered range or to
      a transaction, never to an undefined step. */
  lemma StepProgress(blocks: seq<Block>, lo: int, hi: int, txIndex: int)
    requires Contiguous(blocks) && Covers(blocks, lo, hi, txIndex)
    ensures SearchStep(blocks, lo, hi, txIndex).Found? ||
      (SearchStep(blocks, lo, hi, txIndex).Recurse?
       && lo <= SearchStep(blocks, lo, hi, txIndex).lo
       && SearchStep(blocks, lo, hi, txIndex).hi <= hi
       && SearchStep(blocks, lo, hi, txIndex).hi - SearchStep(blocks, lo, hi, txIndex).lo < hi - lo
       && Covers(blocks, SearchStep(blocks, lo, hi, txIndex).lo, SearchStep(blocks, lo, hi, txIndex).hi, txIndex))
  {
    var mid := Middle(lo, hi);
    var m := blocks[mid];
    if txIndex < m.index {
      assert lo < mid;
      assert blocks[mid].index == blocks[mid - 1].index + |blocks[mid - 1].transactions|;
    } else if txIndex >= m.index + |m.transactions| {
      if mid + 1 < hi {
        ContiguousIndexGap(blocks, mid, hi - 1);
      }
      assert mid + 1 < hi;
    }
  }

  /** binary_search under its precondition: the chain is contiguous and the number is
      covered by the range. Each call either answers or halves the range. */
  function BinarySearch(blocks: seq<Block>, lo: int, hi: int, txIndex: int): Transaction
    requires Contiguous(blocks) && Covers(blocks, lo, hi, txIndex)
    decreases hi - lo
  {
    StepProgress(blocks, lo, hi, txIndex);
    match SearchStep(blocks, lo, hi, txIndex)
    case Found(t) => t
    case Recurse(l, h) => BinarySearch(blocks, l, h, txIndex)
    case Undefined => assert false; Transactions.Transaction("", 0, 0, [], [])
  }

  /** Under contiguity a number lies in at most one block. */
  lemma HolderUnique(blocks: seq<Block>, txIndex: int, i: int, j: int)
    requires Contiguous(blocks)
    requires 0 <= i < |blocks| && 0 <= j < |blocks|
    requires Holds(blocks[i], txIndex) && Holds(blocks[j], txIndex)
    ensures i == j
  {
    if i < j {
      ContiguousIndexGap(blocks, i, j);
    } else if j < i {
      ContiguousIndexGap(blocks, j, i);
    }
  }

  /** Correctness: when block `j` of the range holds the number, the search terminates
      with the transaction at offset `txIndex - index` of that block. */
  lemma {:induction false} BinarySearchFinds(blocks: seq<Block>, lo: int, hi: int, txIndex: int, j: int)
    requires Contiguous(blocks)
    requires lo <= j < hi <= |blocks| && 0 <= lo
    requires Holds(blocks[j], txIndex)
    ensures Covers(blocks, lo, hi, txIndex)
    ensures BinarySearch(blocks, lo, hi, txIndex) == blocks[j].transactions[txIndex - blocks[j].index]
    decreases hi - lo
  {
    if lo < j {
      ContiguousIndexGap(blocks, lo, j);
    }
    if j < hi - 1 {
      ContiguousIndexGap(blocks, j, hi - 1);
    }
    assert Covers(blocks, lo, hi, txIndex);
    StepProgress(blocks, lo, hi, txIndex);
    var mid := Middle(lo, hi);
    match SearchStep(blocks, lo, hi, txIndex)
    case Found(t) =>
      assert Holds(blocks[mid], txIndex);
      HolderUnique(blocks, txIndex, mid, j);
    case Recurse(l, h) =>
      if j < l {
        ContiguousIndexGap(blocks, j, l);
        assert false;
      } else if j >= h {
        ContiguousIndexGap(blocks, h - 1, j);
        assert false;
      }
      BinarySearchFinds(blocks, l, h, txIndex, j);
  }

  /** Without the precondition the search is not total: on a one-block range whose
      block ends at or before the number (and does not start at it), the call recurses
      on the very same range. */
  lemma OneBlockBeyondLoops(blocks: seq<Block>, lo: int, txIndex: int)
    requires 0 <= lo < |blocks|
    requires txIndex >= blocks[lo].index + |blocks[lo].transactions| && txIndex > blocks[lo].index
    ensures SearchStep(blocks, lo, lo + 1, txIndex) == Recurse(lo, lo + 1)
  {
  }
}
