/**
 * The k-mer counters used while sketching reads: a count-min table of 8-bit
 * saturating cells addressed by sub-hashes of the k-mer's hash words, and an
 * exact counter over the first hash word. Both decide, through AboveMin,
 * whether a k-mer has been seen more often than a minimum count.
 *
 * The hash iterator is a sequence of 64-bit words per k-mer position; the
 * table dimensions are constructor parameters.
 */
module KmerCounters {

  /** uint8_t */
  newtype u8 = x: int | 0 <= x < 256

  /** uint64_t, a hash word */
  newtype u64 = x: int | 0 <= x < 0x1_0000_0000_0000_0000

  /** Bits of a hash word used for one table row (the shift between rows). */
  const TableWidthBits: nat := 24

  /** Sub-hashes taken from one 64-bit hash word: floor(64 / 24). */
  const HashPerHash: nat := 2

  lemma HashPerHashIsFloor()
    ensures HashPerHash == 64 / TableWidthBits
  {
  }

  /** The column mask, kept as written (it is not the 24 low bits). */
  const Mask: nat := 0x4FFFFF

  function Max(a: u8, b: u8): u8 {
    if a < b then b else a
  }

  /** Increment of one cell, saturating at 255. */
  function Bump(v: u8): (b: u8)
    ensures b as int == Cap(v as int + 1)
  {
    if v < 255 then v + 1 else v
  }

  /** A count that saturates at 255, as a number. */
  function Cap(n: nat): nat {
    if n < 255 then n else 255
  }

  // ---------------------------------------------------------------------
  // Columns: sub-hashes of the hash words
  // ---------------------------------------------------------------------

  /** Unsigned right shift by n bits: n halvings, each dropping the lowest bit. */
  function ShiftRight(v: nat, n: nat): nat {
    if n == 0 then v else ShiftRight(v / 2, n - 1)
  }

  /**
   * Bitwise and of two unsigned values, bit by bit from the lowest; the
   * result never exceeds either operand.
   */
  function BitAnd(a: nat, b: nat): (c: nat)
    ensures c <= a && c <= b
  {
    if a == 0 || b == 0 then 0 else 2 * BitAnd(a / 2, b / 2) + (a % 2) * (b % 2)
  }

  /** The hash word after k shifts by TableWidthBits. */
  function Shifted(word: nat, k: nat): nat {
    if k == 0 then word else ShiftRight(Shifted(word, k - 1), TableWidthBits)
  }

  /** 2 to the power n. */
  function Pow2(n: nat): (p: nat)
    ensures p >= 1
  {
    if n == 0 then 1 else 2 * Pow2(n - 1)
  }

  lemma {:induction false} Pow2Add(a: nat, b: nat)
    ensures Pow2(a + b) == Pow2(a) * Pow2(b)
    decreases a
  {
    if a > 0 {
      Pow2Add(a - 1, b);
      assert Pow2(a + b) == 2 * Pow2(a - 1 + b);
    }
  }

  /** Dividing by a and then by b is dividing by a * b. */
  lemma DivDiv(v: nat, a: nat, b: nat)
    requires a > 0 && b > 0
    ensures v / a / b == v / (a * b)
  {
    var q, r := v / a, v % a;
    var q1, r1 := q / b, q % b;
    Regroup(v, a, b, q, r, q1, r1);
    DivUnique(v, a * b, q1, a * r1 + r);
  }

  /** v = a q + r with q = b q1 + r1 is v = (a b) q1 + (a r1 + r), the remainder below a b. */
  lemma Regroup(v: nat, a: nat, b: nat, q: nat, r: nat, q1: nat, r1: nat)
    requires v == a * q + r && r < a && q == b * q1 + r1 && r1 < b
    ensures v == (a * b) * q1 + (a * r1 + r) && a * r1 + r < a * b
  {
    MulDistrib(a, b * q1, r1);
    MulAssoc(a, b, q1);
    MulBelow(a, r1, b);
  }

  lemma MulDistrib(a: int, x: int, y: int)
    ensures a * (x + y) == a * x + a * y
  {
  }

  lemma MulAssoc(a: int, b: int, c: int)
    ensures a * (b * c) == (a * b) * c
  {
  }

  /** a * r1 + r stays below a * b when r < a and r1 < b. */
  lemma MulBelow(a: nat, r1: nat, b: nat)
    requires r1 < b
    ensures a * r1 + a <= a * b
  {
    MulDistrib(a, r1, 1);
    MulMono(a, r1 + 1, b);
  }

  lemma {:induction false} MulMono(a: nat, x: nat, y: nat)
    requires x <= y
    ensures a * x <= a * y
    decreases a
  {
    if a > 0 {
      MulMono(a - 1, x, y);
      assert a * x == (a - 1) * x + x;
      assert a * y == (a - 1) * y + y;
    }
  }

  /** Division is determined by any quotient and remainder below the divisor. */
  lemma DivUnique(v: nat, d: nat, q: nat, r: nat)
    requires d > 0 && r < d && v == d * q + r
    ensures v / d == q
  {
    var q0, r0 := v / d, v % d;
    assert v == d * q0 + r0;
    if q0 < q {
      MulMono(d, q0 + 1, q);
      MulDistrib(d, q0, 1);
    } else if q < q0 {
      MulMono(d, q + 1, q0);
      MulDistrib(d, q, 1);
    }
  }

  /** ShiftRight is division by a power of two. */
  lemma {:induction false} ShiftRightIsDivision(v: nat, n: nat)
    ensures ShiftRight(v, n) == v / Pow2(n)
    decreases n
  {
    if n > 0 {
      ShiftRightIsDivision(v / 2, n - 1);
      DivDiv(v, 2, Pow2(n - 1));
    }
  }

  /** After k shifts the hash word has lost its k * TableWidthBits lowest bits. */
  lemma {:induction false} ShiftedIsDivision(word: nat, k: nat)
    ensures Shifted(word, k) == word / Pow2(k * TableWidthBits)
    decreases k
  {
    if k > 0 {
      ShiftedIsDivision(word, k - 1);
      ShiftRightIsDivision(Shifted(word, k - 1), TableWidthBits);
      DivDiv(word, Pow2((k - 1) * TableWidthBits), Pow2(TableWidthBits));
      Pow2Add((k - 1) * TableWidthBits, TableWidthBits);
      assert (k - 1) * TableWidthBits + TableWidthBits == k * TableWidthBits;
    }
  }

  /**
   * The mask keeps fewer than the TableWidthBits low bits its comment
   * names: it is below 2^24 - 1, so not every column of a 24-bit row is
   * addressed.
   */
  lemma MaskWithinWidth()
    ensures Mask < Pow2(TableWidthBits) - 1
  {
    Pow2Add(12, 12);
  }

  /** The k-th masked sub-hash of a hash word. */
  function SubHash(word: u64, k: nat): (c: nat)
    ensures c <= Mask
  {
    BitAnd(Shifted(word as nat, k), Mask)
  }

  /**
   * The column of table row r: word r / HashPerHash feeds rows
   * r - r % HashPerHash up to the next multiple of HashPerHash, one
   * masked sub-hash each, shifting by TableWidthBits between rows.
   */
  function Column(hashes: seq<u64>, r: nat): (c: nat)
    requires r / HashPerHash < |hashes|
    ensures c <= Mask
  {
    SubHash(hashes[r / HashPerHash], r % HashPerHash)
  }

  /** Enough hash words for a table of `rows` rows. */
  predicate Feeds(hashes: seq<u64>, rows: nat) {
    rows <= |hashes| * HashPerHash
  }

  /** The column of every row of a table of `rows` rows. */
  function Columns(hashes: seq<u64>, rows: nat): (cols: seq<nat>)
    requires Feeds(hashes, rows)
    ensures ColsFit(cols, rows)
  {
    seq(rows, r requires 0 <= r < rows => Column(hashes, r))
  }

  /** One column per row, each within the mask. */
  predicate ColsFit(cols: seq<nat>, rows: nat) {
    |cols| == rows && forall r :: 0 <= r < rows ==> cols[r] <= Mask
  }

  /**
   * `cols` holds the column of every row of a table of `rows` rows (the
   * columns of Columns, without unfolding the sub-hashes at every index).
   */
  predicate ColumnsAre(hashes: seq<u64>, rows: nat, cols: seq<nat>)
    requires Feeds(hashes, rows)
  {
    |cols| == rows && forall r {:trigger Column(hashes, r)} :: 0 <= r < rows ==> cols[r] == Column(hashes, r)
  }

  lemma ColumnsAreColumns(hashes: seq<u64>, rows: nat)
    requires Feeds(hashes, rows)
    ensures ColumnsAre(hashes, rows, Columns(hashes, rows))
  {
  }

  lemma ColumnsAreOnly(hashes: seq<u64>, rows: nat, cols: seq<nat>)
    requires Feeds(hashes, rows) && ColumnsAre(hashes, rows, cols)
    ensures cols == Columns(hashes, rows)
  {
    forall r | 0 <= r < rows ensures cols[r] == Columns(hashes, rows)[r] {
      assert cols[r] == Column(hashes, r);
    }
  }

  lemma RowInWord(start: nat, i: nat)
    requires start % HashPerHash == 0 && i < HashPerHash
    ensures (start + i) / HashPerHash == start / HashPerHash && (start + i) % HashPerHash == i
  {
  }

  /** Row start + i of a word is addressed by the i-th sub-hash of that word's hash. */
  lemma RowColumn(hashes: seq<u64>, rows: nat, cols: seq<nat>, start: nat, i: nat)
    requires Feeds(hashes, rows) && ColumnsAre(hashes, rows, cols)
    requires start % HashPerHash == 0 && i < HashPerHash && start + i < rows
    ensures start / HashPerHash < |hashes|
    ensures cols[start + i] == BitAnd(Shifted(hashes[start / HashPerHash] as nat, i), Mask)
  {
    RowInWord(start, i);
    assert cols[start + i] == Column(hashes, start + i);
  }

  /** One more shift of the hash word. */
  lemma ShiftedNext(word: nat, k: nat)
    ensures Shifted(word, k + 1) == ShiftRight(Shifted(word, k), TableWidthBits)
  {
  }

  // ---------------------------------------------------------------------
  // The count-min table as a value
  // ---------------------------------------------------------------------

  /** A table whose rows come in whole words and are wide enough for every column. */
  predicate IsTable(cells: seq<seq<u8>>) {
    && |cells| % HashPerHash == 0
    && forall r :: 0 <= r < |cells| ==> |cells[r]| > Mask
  }

  function Zero(rows: nat, width: nat): (cells: seq<seq<u8>>)
    requires rows % HashPerHash == 0 && width > Mask
    ensures IsTable(cells) && |cells| == rows
    ensures forall r :: 0 <= r < rows ==> |cells[r]| == width
  {
    seq(rows, _ => seq(width, _ => 0))
  }

  /**
   * Row r is reached by add_count: every earlier row fed by the same word
   * had a cell below 255 at its column (a saturated cell ends the word's
   * rows).
   */
  predicate Reached(cells: seq<seq<u8>>, cols: seq<nat>, r: nat): (b: bool)
    requires IsTable(cells) && ColsFit(cols, |cells|) && r < |cells|
    ensures r % HashPerHash == 0 ==> b
  {
    forall r' :: r - r % HashPerHash <= r' < r ==> cells[r'][cols[r']] < 255
  }

  /** The table after add_count: a reached row bumps the cell at its column. */
  function AfterAdd(cells: seq<seq<u8>>, cols: seq<nat>): (next: seq<seq<u8>>)
    requires IsTable(cells) && ColsFit(cols, |cells|)
    ensures IsTable(next) && |next| == |cells|
    ensures forall r :: 0 <= r < |cells| ==> |next[r]| == |cells[r]|
  {
    seq(|cells|, r requires 0 <= r < |cells| =>
      if Reached(cells, cols, r) then cells[r][cols[r] := Bump(cells[r][cols[r]])] else cells[r])
  }

  /** The value add_count holds after the first n rows. */
  function EstimateUpTo(cells: seq<seq<u8>>, cols: seq<nat>, n: nat): (e: u8)
    requires IsTable(cells) && ColsFit(cols, |cells|) && n <= |cells|
    ensures n == 0 <==> e == 0
  {
    if n == 0 then 0
    else
      var r := n - 1;
      Max(EstimateUpTo(cells, cols, r), if Reached(cells, cols, r) then Bump(cells[r][cols[r]]) else 0)
  }

  /** The value add_count returns. */
  function Estimate(cells: seq<seq<u8>>, cols: seq<nat>): (e: u8)
    requires IsTable(cells) && ColsFit(cols, |cells|)
    ensures |cells| > 0 <==> e > 0
  {
    EstimateUpTo(cells, cols, |cells|)
  }

  // ---------------------------------------------------------------------
  // Properties of one add_count
  // ---------------------------------------------------------------------

  /**
   * Only the addressed cell of a row changes, by at most one; a reached
   * unsaturated cell goes up by exactly one and a row that is not reached
   * stays as it was.
   */
  lemma AfterAddFrame(cells: seq<seq<u8>>, cols: seq<nat>, r: nat, c: nat)
    requires IsTable(cells) && ColsFit(cols, |cells|) && r < |cells| && c < |cells[r]|
    ensures c != cols[r] ==> AfterAdd(cells, cols)[r][c] == cells[r][c]
    ensures cells[r][c] <= AfterAdd(cells, cols)[r][c] <= Bump(cells[r][c])
    ensures c == cols[r] && Reached(cells, cols, r) && cells[r][c] < 255 ==>
      AfterAdd(cells, cols)[r][c] as int == cells[r][c] as int + 1
    ensures !Reached(cells, cols, r) ==> AfterAdd(cells, cols)[r] == cells[r]
  {
  }

  /**
   * add_count returns the largest post-increment value of the cells it
   * reached (0 for a table without rows); in particular it is at least 1
   * when the table has rows, since the first row is always reached.
   */
  lemma EstimateIsMax(cells: seq<seq<u8>>, cols: seq<nat>, n: nat)
    requires IsTable(cells) && ColsFit(cols, |cells|) && n <= |cells|
    ensures forall r :: 0 <= r < n && Reached(cells, cols, r) ==> Bump(cells[r][cols[r]]) <= EstimateUpTo(cells, cols, n)
    ensures n == 0 ==> EstimateUpTo(cells, cols, n) == 0
    ensures n > 0 ==>
      exists r :: 0 <= r < n && Reached(cells, cols, r) && EstimateUpTo(cells, cols, n) == Bump(cells[r][cols[r]])
    ensures n > 0 ==> EstimateUpTo(cells, cols, n) >= 1
  {
    forall r | 0 <= r < n && Reached(cells, cols, r)
      ensures Bump(cells[r][cols[r]]) <= EstimateUpTo(cells, cols, n)
    {
      EstimateAbove(cells, cols, n, r);
    }
    if n > 0 {
      var w := EstimateAttained(cells, cols, n);
    }
  }

  /** The running value after n rows is at least reached row r's incremented cell. */
  lemma {:induction false} EstimateAbove(cells: seq<seq<u8>>, cols: seq<nat>, n: nat, r: nat)
    requires IsTable(cells) && ColsFit(cols, |cells|) && r < n <= |cells|
    requires Reached(cells, cols, r)
    ensures Bump(cells[r][cols[r]]) <= EstimateUpTo(cells, cols, n)
  {
    if r < n - 1 {
      EstimateAbove(cells, cols, n - 1, r);
    }
  }

  /** After at least one row the running value is some reached row's incremented cell. */
  lemma {:induction false} EstimateAttained(cells: seq<seq<u8>>, cols: seq<nat>, n: nat) returns (w: nat)
    requires IsTable(cells) && ColsFit(cols, |cells|) && 0 < n <= |cells|
    ensures w < n && Reached(cells, cols, w) && EstimateUpTo(cells, cols, n) == Bump(cells[w][cols[w]])
  {
    var r := n - 1;
    var top: u8 := if Reached(cells, cols, r) then Bump(cells[r][cols[r]]) else 0;
    assert EstimateUpTo(cells, cols, n) == Max(EstimateUpTo(cells, cols, r), top);
    if r == 0 {
      assert Reached(cells, cols, 0);
      w := 0;
    } else {
      var w' := EstimateAttained(cells, cols, r);
      if EstimateUpTo(cells, cols, r) >= top {
        w := w';
      } else {
        w := r;
      }
    }
  }



  /**
   * Meeting a saturated cell makes add_count return 255 and skips the
   * remaining rows of the same word only: every row that starts a word is
   * still reached.
   */
  lemma SaturationEndsWord(cells: seq<seq<u8>>, cols: seq<nat>, r: nat)
    requires IsTable(cells) && ColsFit(cols, |cells|) && r < |cells|
    requires Reached(cells, cols, r) && cells[r][cols[r]] == 255
    ensures Estimate(cells, cols) == 255
    ensures forall r' :: r < r' < |cells| && r' / HashPerHash == r / HashPerHash ==> !Reached(cells, cols, r')
    ensures forall r' :: 0 <= r' < |cells| && r' % HashPerHash == 0 ==> Reached(cells, cols, r')
  {
    EstimateIsMax(cells, cols, |cells|);
    forall r' | r < r' < |cells| && r' / HashPerHash == r / HashPerHash
      ensures !Reached(cells, cols, r')
    {
      assert r' - r' % HashPerHash <= r < r';
    }
  }

  /** Rows that are not reached leave the running value as it was. */
  lemma {:induction false} EstimateSkip(cells: seq<seq<u8>>, cols: seq<nat>, from: nat, to: nat)
    requires IsTable(cells) && ColsFit(cols, |cells|) && from <= to <= |cells|
    requires forall r :: from <= r < to ==> !Reached(cells, cols, r)
    ensures EstimateUpTo(cells, cols, to) == EstimateUpTo(cells, cols, from)
  {
    if from < to {
      EstimateSkip(cells, cols, from, to - 1);
    }
  }

  /** The cell of row r at its column after add_count. */
  function NewCell(cells: seq<seq<u8>>, cols: seq<nat>, r: nat): u8
    requires IsTable(cells) && ColsFit(cols, |cells|) && r < |cells|
  {
    if Reached(cells, cols, r) then Bump(cells[r][cols[r]]) else cells[r][cols[r]]
  }

  /** AfterAdd cell by cell: only the addressed cell of a row can change. */
  lemma AfterAddCell(cells: seq<seq<u8>>, cols: seq<nat>, r: nat, c: nat)
    requires IsTable(cells) && ColsFit(cols, |cells|) && r < |cells| && c < |cells[r]|
    ensures AfterAdd(cells, cols)[r][c] == if c == cols[r] then NewCell(cells, cols, r) else cells[r][c]
  {
  }

  /**
   * Row arithmetic of the word starting at row `start`: it lies inside the
   * table, is fed by hash word start / HashPerHash, and its rows have
   * offsets 0 .. HashPerHash - 1 within it.
   */
  lemma WordRows(start: nat, rows: nat, words: nat)
    requires start < rows && start % HashPerHash == 0 && rows % HashPerHash == 0
    requires rows <= words * HashPerHash
    ensures start + HashPerHash <= rows && (start + HashPerHash) % HashPerHash == 0
    ensures start / HashPerHash < words
  {
  }

  /** The first row of every word is reached. */
  lemma WordStartReached(cells: seq<seq<u8>>, cols: seq<nat>, start: nat)
    requires IsTable(cells) && ColsFit(cols, |cells|) && start < |cells| && start % HashPerHash == 0
    ensures Reached(cells, cols, start)
  {
  }

  /**
   * The loop step of add_count on a reached row r of the word starting at
   * row `start`, whose cell is below 255: the running value takes the
   * incremented cell into account and the next row of the word is reached.
   */
  lemma AddStep(cells: seq<seq<u8>>, cols: seq<nat>, start: nat, r: nat)
    requires IsTable(cells) && ColsFit(cols, |cells|) && start % HashPerHash == 0
    requires start <= r < start + HashPerHash && r < |cells|
    requires Reached(cells, cols, r) && cells[r][cols[r]] < 255
    ensures NewCell(cells, cols, r) as int == cells[r][cols[r]] as int + 1
    ensures EstimateUpTo(cells, cols, r + 1) == Max(EstimateUpTo(cells, cols, r), cells[r][cols[r]] + 1)
    ensures r + 1 < start + HashPerHash && r + 1 < |cells| ==> Reached(cells, cols, r + 1)
  {
    if r + 1 < start + HashPerHash && r + 1 < |cells| {
      assert (r + 1) - (r + 1) % HashPerHash == start;
      assert r - r % HashPerHash == start;
    }
  }

  /**
   * The loop step of add_count on a reached row whose cell is saturated:
   * the rest of the word's rows keep their cells and the result is 255.
   */
  lemma SaturatedStep(cells: seq<seq<u8>>, cols: seq<nat>, start: nat, r: nat)
    requires IsTable(cells) && ColsFit(cols, |cells|) && start % HashPerHash == 0
    requires start <= r < start + HashPerHash <= |cells|
    requires Reached(cells, cols, r) && cells[r][cols[r]] == 255
    ensures forall r' :: r <= r' < start + HashPerHash ==> NewCell(cells, cols, r') == cells[r'][cols[r']]
    ensures EstimateUpTo(cells, cols, start + HashPerHash) == 255
  {
    RestNotReached(cells, cols, start, r);
    EstimateSkip(cells, cols, r + 1, start + HashPerHash);
  }

  /** A saturated cell at row r of a word leaves the word's later rows unreached. */
  lemma RestNotReached(cells: seq<seq<u8>>, cols: seq<nat>, start: nat, r: nat)
    requires IsTable(cells) && ColsFit(cols, |cells|) && start % HashPerHash == 0
    requires start <= r < start + HashPerHash <= |cells| && cells[r][cols[r]] == 255
    ensures forall r' :: r < r' < start + HashPerHash ==> !Reached(cells, cols, r')
  {
    forall r' | r < r' < start + HashPerHash ensures !Reached(cells, cols, r') {
      assert r' - r' % HashPerHash == start;
    }
  }

  // ---------------------------------------------------------------------
  // Many add_counts
  // ---------------------------------------------------------------------

  predicate AllFeed(history: seq<seq<u64>>, rows: nat) {
    forall k :: 0 <= k < |history| ==> Feeds(history[k], rows)
  }

  /** The table after adding every k-mer of history, oldest first. */
  function Adds(cells: seq<seq<u8>>, history: seq<seq<u64>>): (out: seq<seq<u8>>)
    requires IsTable(cells) && AllFeed(history, |cells|)
    ensures IsTable(out) && |out| == |cells|
    ensures forall r :: 0 <= r < |cells| ==> |out[r]| == |cells[r]|
  {
    if history == [] then cells
    else AfterAdd(Adds(cells, history[..|history| - 1]), Columns(history[|history| - 1], |cells|))
  }

  /** Adding one more k-mer to the history applies one more AfterAdd. */
  lemma AddsAppend(cells: seq<seq<u8>>, history: seq<seq<u64>>, hashes: seq<u64>)
    requires IsTable(cells) && AllFeed(history, |cells|) && Feeds(hashes, |cells|)
    ensures AllFeed(history + [hashes], |cells|)
    ensures Adds(cells, history + [hashes]) == AfterAdd(Adds(cells, history), Columns(hashes, |cells|))
  {
    assert (history + [hashes])[..|history|] == history;
  }

  /** How many k-mers of history address column c of row r. */
  function Hits(history: seq<seq<u64>>, rows: nat, r: nat, c: nat): nat
    requires AllFeed(history, rows) && r < rows
  {
    if history == [] then 0
    else Hits(history[..|history| - 1], rows, r, c) + (if Columns(history[|history| - 1], rows)[r] == c then 1 else 0)
  }

  /** How many k-mers of history have w as their first hash word. */
  function Occurrences(history: seq<seq<u64>>, w: u64): nat
    requires forall k :: 0 <= k < |history| ==> |history[k]| > 0
  {
    if history == [] then 0
    else Occurrences(history[..|history| - 1], w) + (if history[|history| - 1][0] == w then 1 else 0)
  }

  /**
   * Starting from zeroed cells, a row that starts a word holds exactly the
   * saturated number of hits on each of its columns, and every other row at
   * most that many.
   */
  lemma {:induction false} CellsCountHits(rows: nat, width: nat, history: seq<seq<u64>>, r: nat, c: nat)
    requires rows % HashPerHash == 0 && width > Mask && AllFeed(history, rows)
    requires r < rows && c < width
    ensures r % HashPerHash == 0 ==> Adds(Zero(rows, width), history)[r][c] as int == Cap(Hits(history, rows, r, c))
    ensures Adds(Zero(rows, width), history)[r][c] as int <= Cap(Hits(history, rows, r, c))
  {
    if history != [] {
      var init := history[..|history| - 1];
      assert AllFeed(init, rows);
      CellsCountHits(rows, width, init, r, c);
      var before := Adds(Zero(rows, width), init);
      var cols := Columns(history[|history| - 1], rows);
      AfterAddFrame(before, cols, r, c);
      if r % HashPerHash == 0 {
        assert Reached(before, cols, r);
      }
    }
  }

  /** Equal first words address the same column of row 0. */
  lemma {:induction false} OccurrencesBelowHits(rows: nat, history: seq<seq<u64>>, hashes: seq<u64>)
    requires 0 < rows && AllFeed(history, rows) && Feeds(hashes, rows)
    ensures Occurrences(history, hashes[0]) <= Hits(history, rows, 0, Columns(hashes, rows)[0])
  {
    if history != [] {
      assert AllFeed(history[..|history| - 1], rows);
      OccurrencesBelowHits(rows, history[..|history| - 1], hashes);
      var last := history[|history| - 1];
      if last[0] == hashes[0] {
        assert Columns(last, rows)[0] == Column(last, 0) == Column(hashes, 0) == Columns(hashes, rows)[0];
      }
    }
  }

  /**
   * The count-min estimate never falls below the true count: after the
   * k-mers of history, adding hashes returns at least the saturated number
   * of times its first hash word has now been added.
   */
  lemma NeverUnderestimates(rows: nat, width: nat, history: seq<seq<u64>>, hashes: seq<u64>)
    requires rows % HashPerHash == 0 && width > Mask && rows > 0
    requires AllFeed(history, rows) && Feeds(hashes, rows)
    ensures Estimate(Adds(Zero(rows, width), history), Columns(hashes, rows)) as int >=
      Cap(Occurrences(history + [hashes], hashes[0]))
  {
    var cells := Adds(Zero(rows, width), history);
    var cols := Columns(hashes, rows);
    CellsCountHits(rows, width, history, 0, cols[0]);
    OccurrencesBelowHits(rows, history, hashes);
    EstimateIsMax(cells, cols, rows);
    assert Reached(cells, cols, 0);
    assert (history + [hashes])[..|history|] == history;
  }

  // ---------------------------------------------------------------------
  // CountMin
  // ---------------------------------------------------------------------

  /**
   * The count-min sketch: a table of tableRows x tableWidth 8-bit cells.
   * `cells` mirrors the table as a value and `history` holds the hash words
   * added so far.
   */
  class CountMin {
    const minCount: u8
    const numHashesNeeded: nat
    const tableRows: nat
    const tableWidth: nat
    const table: array2<u8>
    ghost var cells: seq<seq<u8>>
    ghost var history: seq<seq<u64>>

    ghost predicate Valid()
      reads this, table
    {
      && table.Length0 == tableRows && table.Length1 == tableWidth
      && tableRows % HashPerHash == 0 && tableWidth > Mask
      && numHashesNeeded == tableRows / HashPerHash
      && AllFeed(history, tableRows)
      && cells == Adds(Zero(tableRows, tableWidth), history)
      && forall r, c :: 0 <= r < tableRows && 0 <= c < tableWidth ==> table[r, c] == cells[r][c]
    }

    /** A zeroed table; one hash word per HashPerHash rows is needed. */
    constructor(minCount: u8, tableRows: nat, tableWidth: nat)
      requires tableRows % HashPerHash == 0 && tableWidth > Mask
      ensures Valid() && fresh(table)
      ensures this.minCount == minCount && numHashesNeeded == tableRows / HashPerHash
      ensures this.tableRows == tableRows && this.tableWidth == tableWidth
      ensures history == [] && cells == Zero(tableRows, tableWidth)
    {
      this.minCount := minCount;
      this.numHashesNeeded := tableRows / HashPerHash;
      this.tableRows := tableRows;
      this.tableWidth := tableWidth;
      this.table := new u8[tableRows, tableWidth]((_, _) => 0);
      this.cells := Zero(tableRows, tableWidth);
      this.history := [];
    }

    /**
     * Adds one k-mer: bumps the addressed cell of every reached row and
     * returns the largest value seen (255 once a saturated cell is met).
     */
    method AddCount(hashes: seq<u64>) returns (count: u8)
      requires Valid() && |hashes| >= numHashesNeeded
      modifies this, table
      ensures Valid() && history == old(history) + [hashes]
      ensures cells == AfterAdd(old(cells), Columns(hashes, tableRows))
      ensures count == Estimate(old(cells), Columns(hashes, tableRows))
    {
      ghost var before := cells;
      ColumnsAreColumns(hashes, tableRows);
      ghost var cols :| ColumnsAre(hashes, tableRows, cols) && ColsFit(cols, tableRows);
      count := AddRows(hashes, before, cols);
      ColumnsAreOnly(hashes, tableRows, cols);
      AddsAppend(Zero(tableRows, tableWidth), history, hashes);
      UpdatedAll(before, cols);
      cells := AfterAdd(before, cols);
      history := history + [hashes];
    }

    /** `before` has the table's shape and `cols` one column per row. */
    ghost predicate Frame(before: seq<seq<u8>>, cols: seq<nat>) {
      && IsTable(before) && ColsFit(cols, |before|)
      && table.Length0 == |before| && table.Length1 > Mask
      && forall r :: 0 <= r < |before| ==> |before[r]| == table.Length1
    }

    /** The value of cell (r, c) once the first n rows are updated. */
    ghost function Expected(before: seq<seq<u8>>, cols: seq<nat>, n: nat, r: nat, c: nat): u8
      requires Frame(before, cols) && n <= |before| && r < |before| && c < table.Length1
      reads table
    {
      if r < n && c == cols[r] then NewCell(before, cols, r) else before[r][c]
    }

    /**
     * The table agrees with `before` except at the cells add_count has
     * updated in the first n rows.
     */
    ghost predicate UpdatedUpTo(before: seq<seq<u8>>, cols: seq<nat>, n: nat)
      reads table
      requires Frame(before, cols) && n <= |before|
    {
      forall r, c {:trigger table[r, c]} :: 0 <= r < table.Length0 && 0 <= c < table.Length1 ==>
        table[r, c] == Expected(before, cols, n, r, c)
    }

    /**
     * The outer loop of add_count: one hash word per HashPerHash rows;
     * the result is the value add_count returns.
     */
    method AddRows(hashes: seq<u64>, ghost before: seq<seq<u8>>, ghost cols: seq<nat>) returns (count: u8)
      requires Frame(before, cols) && Feeds(hashes, |before|) && ColumnsAre(hashes, |before|, cols)
      requires UpdatedUpTo(before, cols, 0)
      modifies table
      ensures UpdatedUpTo(before, cols, |before|)
      ensures count == Estimate(before, cols)
    {
      count := 0;
      var hashNr := 0;
      while hashNr < table.Length0
        invariant 0 <= hashNr <= table.Length0 && hashNr % HashPerHash == 0
        invariant UpdatedUpTo(before, cols, hashNr)
        invariant count == EstimateUpTo(before, cols, hashNr)
      {
        count := AddWord(hashes, before, cols, hashNr, count);
        hashNr := hashNr + HashPerHash;
      }
    }

    /** Once every row is updated, the table holds AfterAdd of `before`. */
    lemma UpdatedAll(before: seq<seq<u8>>, cols: seq<nat>)
      requires Frame(before, cols) && UpdatedUpTo(before, cols, |before|)
      ensures forall r, c :: 0 <= r < table.Length0 && 0 <= c < table.Length1 ==>
        table[r, c] == AfterAdd(before, cols)[r][c]
    {
      forall r, c | 0 <= r < table.Length0 && 0 <= c < table.Length1
        ensures table[r, c] == AfterAdd(before, cols)[r][c]
      {
        AfterAddCell(before, cols, r, c);
      }
    }

    /**
     * The state of the inner loop of add_count inside the word starting at
     * row `start`: rows up to `row` are done, `count` is the running value
     * and, while the word has rows left, the next one is reached.
     */
    ghost predicate WordState(before: seq<seq<u8>>, cols: seq<nat>, start: nat, row: nat, count: u8)
      reads table
      requires Frame(before, cols)
    {
      && start % HashPerHash == 0 && start <= row <= start + HashPerHash <= |before|
      && UpdatedUpTo(before, cols, row) && count == EstimateUpTo(before, cols, row)
      && (row < start + HashPerHash ==> Reached(before, cols, row))
    }

    /**
     * The inner loop of add_count over the rows fed by one hash word,
     * starting at row hashNr.
     */
    method AddWord(hashes: seq<u64>, ghost before: seq<seq<u8>>, ghost cols: seq<nat>,
                   hashNr: nat, count0: u8) returns (count: u8)
      requires Frame(before, cols) && Feeds(hashes, |before|) && ColumnsAre(hashes, |before|, cols)
      requires hashNr < |before| && hashNr % HashPerHash == 0
      requires UpdatedUpTo(before, cols, hashNr) && count0 == EstimateUpTo(before, cols, hashNr)
      modifies table
      ensures hashNr + HashPerHash <= |before| && (hashNr + HashPerHash) % HashPerHash == 0
      ensures UpdatedUpTo(before, cols, hashNr + HashPerHash)
      ensures count == EstimateUpTo(before, cols, hashNr + HashPerHash)
    {
      count := count0;
      WordRows(hashNr, |before|, |hashes|);
      WordStartReached(before, cols, hashNr);
      var word := hashes[hashNr / HashPerHash];
      var hashVal: nat := word as nat;
      var i, row := 0, hashNr;
      while i < HashPerHash
        invariant 0 <= i <= HashPerHash && row == hashNr + i
        invariant hashVal == Shifted(word as nat, i)
        invariant WordState(before, cols, hashNr, row, count)
      {
        RowColumn(hashes, |before|, cols, hashNr, i);
        var saturated;
        count, saturated := AddRow(before, cols, hashNr, row, BitAnd(hashVal, Mask), count);
        if saturated {
          break;
        }
        ShiftedNext(word as nat, i);
        hashVal := ShiftRight(hashVal, TableWidthBits);
        i, row := i + 1, row + 1;
      }
    }

    /**
     * One row of the inner loop: a cell below 255 is incremented and the
     * running value takes it into account; a saturated cell makes the
     * result 255 and ends the word (`saturated`).
     */
    method AddRow(ghost before: seq<seq<u8>>, ghost cols: seq<nat>, ghost start: nat,
                  row: nat, col: nat, count0: u8) returns (count: u8, saturated: bool)
      requires Frame(before, cols) && row < start + HashPerHash && row < |cols| && col == cols[row]
      requires WordState(before, cols, start, row, count0)
      modifies table
      ensures saturated <==> before[row][col] == 255
      ensures !saturated ==> WordState(before, cols, start, row + 1, count)
      ensures saturated ==> WordState(before, cols, start, start + HashPerHash, count)
    {
      count, saturated := count0, false;
      if table[row, col] < 255 {
        AddStep(before, cols, start, row);
        table[row, col] := table[row, col] + 1;
        if table[row, col] > count {
          count := table[row, col];
        }
      } else {
        SaturatedState(before, cols, start, row, count0);
        count, saturated := 255, true;
      }
    }

    /** A saturated cell finishes the word without changing the table; the result is 255. */
    lemma SaturatedState(before: seq<seq<u8>>, cols: seq<nat>, start: nat, row: nat, count: u8)
      requires Frame(before, cols) && row < start + HashPerHash && row < |cols|
      requires WordState(before, cols, start, row, count) && before[row][cols[row]] == 255
      ensures WordState(before, cols, start, start + HashPerHash, 255)
    {
      SaturatedStep(before, cols, start, row);
    }

    /** add_count followed by the comparison with the minimum count. */
    method AboveMin(hashes: seq<u64>) returns (above: bool)
      requires Valid() && |hashes| >= numHashesNeeded
      modifies this, table
      ensures Valid() && history == old(history) + [hashes]
      ensures cells == AfterAdd(old(cells), Columns(hashes, tableRows))
      ensures above <==> Estimate(old(cells), Columns(hashes, tableRows)) > minCount
    {
      var count := AddCount(hashes);
      above := count > minCount;
    }
  }

  // ---------------------------------------------------------------------
  // HashCounter
  // ---------------------------------------------------------------------

  /** The stored count of key, 0 when it is absent. */
  function Stored(m: map<u64, u8>, key: u64): u8 {
    if key in m then m[key] else 0
  }

  /**
   * HashCounter's add_count on a map: an absent key is inserted with 1, a
   * count below 255 is incremented and returned, and a saturated count is
   * left alone and 0 is returned. No other key is touched.
   */
  function Increment(m: map<u64, u8>, key: u64): (r: (map<u64, u8>, u8))
    ensures key in r.0 && r.0.Keys == m.Keys + {key}
    ensures forall k :: k in m && k != key ==> r.0[k] == m[k]
    ensures r.1 == 0 <==> Stored(m, key) == 255
    ensures r.1 != 0 ==> r.1 == r.0[key] && r.1 as int == Stored(m, key) as int + 1
    ensures r.1 == 0 ==> r.0 == m
  {
    if key !in m then (m[key := 1], 1)
    else if m[key] < 255 then (m[key := m[key] + 1], m[key] + 1)
    else (m, 0)
  }

  /** probe on a map: the key is inserted with 0 when absent. */
  function Probed(m: map<u64, u8>, key: u64): (r: map<u64, u8>)
    ensures key in r && r.Keys == m.Keys + {key}
    ensures forall k :: k in m ==> r[k] == m[k]
    ensures Stored(r, key) == Stored(m, key)
  {
    if key in m then m else m[key := 0]
  }

  /** The map after n add_counts of key. */
  function Repeated(m: map<u64, u8>, key: u64, n: nat): map<u64, u8> {
    if n == 0 then m else Increment(Repeated(m, key, n - 1), key).0
  }

  /**
   * Starting without key, the n-th add_count of key (n counted from 0)
   * returns n + 1 while that is at most 255 and 0 afterwards; the stored
   * count is the saturated number of calls.
   */
  lemma {:induction false} RepeatedAddCount(m: map<u64, u8>, key: u64, n: nat)
    requires key !in m
    ensures Stored(Repeated(m, key, n), key) as int == Cap(n)
    ensures Increment(Repeated(m, key, n), key).1 as int == if n < 255 then n + 1 else 0
  {
    if n > 0 {
      RepeatedAddCount(m, key, n - 1);
    }
  }

  /** probe does not change what later add_counts return. */
  lemma ProbeThenIncrement(m: map<u64, u8>, key: u64)
    ensures Increment(Probed(m, key), key).1 == Increment(m, key).1
    ensures Increment(Probed(m, key), key).0 == Increment(m, key).0
  {
  }

  /** The exact counter: a map from the first hash word to a saturating count. */
  class HashCounter {
    const minCount: u8
    const numHashesNeeded: nat
    var table: map<u64, u8>

    constructor(minCount: u8)
      ensures this.minCount == minCount && numHashesNeeded == 0 && table == map[]
    {
      this.minCount := minCount;
      this.numHashesNeeded := 0;
      this.table := map[];
    }

    method AddCount(hashes: seq<u64>) returns (count: u8)
      requires |hashes| > 0
      modifies this
      ensures (table, count) == Increment(old(table), hashes[0])
    {
      count := 0;
      var key := hashes[0];
      if key !in table {
        table := table[key := 1];
        count := 1;
      } else if table[key] < 255 {
        table := table[key := table[key] + 1];
        count := table[key];
      }
    }

    method Probe(hashes: seq<u64>) returns (count: u8)
      requires |hashes| > 0
      modifies this
      ensures count == Stored(old(table), hashes[0])
      ensures table == Probed(old(table), hashes[0])
    {
      var key := hashes[0];
      if key !in table {
        table := table[key := 0];
      }
      count := table[key];
    }

    method AboveMin(hashes: seq<u64>) returns (above: bool)
      requires |hashes| > 0
      modifies this
      ensures table == Increment(old(table), hashes[0]).0
      ensures above <==> Increment(old(table), hashes[0]).1 > minCount
    {
      var count := AddCount(hashes);
      above := count > minCount;
    }
  }
}
