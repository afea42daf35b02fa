/**
 * Extension and reduction of a sparse k-nearest-neighbour distance graph
 * (src/extend.cpp).
 *
 * A sparse graph is a coordinate list of three parallel vectors (row index,
 * column index, distance), sorted by row. Distances are abstracted to `real`;
 * the "new value" test against the tie tolerance is the predicate IsNew.
 */
module SparseExtend {

  /** Tie tolerance: two distances closer than this count as one value. */
  const Epsilon: real := 0.0000000001

  /** The coordinate list (i, j, dist) of a sparse distance graph. */
  datatype SparseCoo = SparseCoo(iVec: seq<int>, jVec: seq<int>, dists: seq<real>)

  /** A dense matrix with its shape, as Eigen keeps it. */
  datatype Matrix = Matrix(rows: nat, cols: nat, cells: seq<seq<real>>)
  {
    predicate Valid() {
      |cells| == rows && forall r :: 0 <= r < rows ==> |cells[r]| == cols
    }

    /** Column c of the matrix. */
    function Col(c: nat): (col: seq<real>)
      requires Valid() && c < cols
      ensures |col| == rows
      ensures forall r :: 0 <= r < rows ==> col[r] == cells[r][c]
    {
      seq(rows, r requires 0 <= r < rows => cells[r][c])
    }
  }

  /** One candidate neighbour of the row being built: its column and distance. */
  datatype Candidate = Candidate(j: int, dist: real)

  predicate Sorted(s: seq<int>) {
    forall a, b :: 0 <= a < b < |s| ==> s[a] <= s[b]
  }

  predicate SortedByDist(cs: seq<Candidate>) {
    forall a, b :: 0 <= a < b < |cs| ==> cs[a].dist <= cs[b].dist
  }

  /**
   * The graph's three vectors have one entry per triple, the rows are sorted
   * ascending and every row index is in [0, n).
   */
  predicate WellFormed(g: SparseCoo, n: nat) {
    && |g.jVec| == |g.iVec|
    && |g.dists| == |g.iVec|
    && Sorted(g.iVec)
    && forall k :: 0 <= k < |g.iVec| ==> 0 <= g.iVec[k] < n
  }

  /**
   * What the unguarded cursor scan of row_start_indices needs to stay inside
   * the row vector: when it looks for row n-1, some entry has a row >= n-1.
   */
  predicate RowStartSafe(iVec: seq<int>, n: nat) {
    n >= 2 ==> exists k :: 0 <= k < |iVec| && iVec[k] >= n - 1
  }

  function Abs(x: real): real {
    if x < 0.0 then -x else x
  }

  /** A distance is a new value when it differs from the last new one by at least Epsilon. */
  predicate IsNew(dist: real, prev: real): (b: bool)
    ensures b <==> dist >= prev + Epsilon || dist <= prev - Epsilon
  {
    Abs(dist - prev) >= Epsilon
  }

  // ---------------------------------------------------------------------
  // Concatenation of per-row vectors (combine_vectors)
  // ---------------------------------------------------------------------

  /** The sum of the sizes of the vectors. */
  function TotalLength<T>(vec: seq<seq<T>>): nat {
    if vec == [] then 0 else TotalLength(vec[..|vec| - 1]) + |vec[|vec| - 1]|
  }

  /** The in-order concatenation of the vectors. */
  function Concat<T>(vec: seq<seq<T>>): (all: seq<T>)
    ensures |all| == TotalLength(vec)
  {
    if vec == [] then [] else Concat(vec[..|vec| - 1]) + vec[|vec| - 1]
  }

  lemma {:induction false} TotalLengthPrefix<T>(vec: seq<seq<T>>, r: nat)
    requires r <= |vec|
    ensures TotalLength(vec[..r]) <= TotalLength(vec)
    decreases |vec|
  {
    if r < |vec| {
      var init := vec[..|vec| - 1];
      assert vec[..r] == init[..r];
      TotalLengthPrefix(init, r);
    } else {
      assert vec[..r] == vec;
    }
  }

  /**
   * Element k of vector r sits in the concatenation right after the
   * elements of the vectors before r.
   */
  lemma {:induction false} ConcatAt<T>(vec: seq<seq<T>>, r: nat, k: nat)
    requires r < |vec| && k < |vec[r]|
    ensures TotalLength(vec[..r]) + k < |Concat(vec)|
    ensures Concat(vec)[TotalLength(vec[..r]) + k] == vec[r][k]
    decreases |vec|
  {
    var init := vec[..|vec| - 1];
    if r == |vec| - 1 {
      assert vec[..r] == init;
    } else {
      assert vec[..r] == init[..r];
      ConcatAt(init, r, k);
    }
  }

  /**
   * combine_vectors: copies the per-row vectors one after the other to the
   * front of a new vector of length len.
   */
  method CombineVectors<T(0)>(vec: seq<seq<T>>, len: nat) returns (all: seq<T>)
    requires TotalLength(vec) <= len
    ensures |all| == len && all[..TotalLength(vec)] == Concat(vec)
  {
    var a := new T[len];
    var pos := 0;
    for r := 0 to |vec|
      invariant pos == TotalLength(vec[..r]) <= len
      invariant a[..pos] == Concat(vec[..r])
    {
      assert vec[..r + 1][..r] == vec[..r];
      TotalLengthPrefix(vec, r + 1);
      CopyAt(a, pos, vec[r]);
      pos := pos + |vec[r]|;
    }
    assert vec[..|vec|] == vec;
    all := a[..];
  }

  /** The std::copy of combine_vectors: v is written into a from offset pos on. */
  method CopyAt<T>(a: array<T>, pos: nat, v: seq<T>)
    requires pos + |v| <= a.Length
    modifies a
    ensures a[..pos + |v|] == old(a[..pos]) + v
    ensures a[pos + |v|..] == old(a[pos + |v|..])
  {
    ghost var prefix := a[..pos];
    for k := 0 to |v|
      invariant a[..pos + k] == prefix + v[..k]
      invariant a[pos + |v|..] == old(a[pos + |v|..])
    {
      a[pos + k] := v[k];
      assert a[..pos + k + 1] == a[..pos + k] + [v[k]];
      assert v[..k + 1] == v[..k] + [v[k]];
    }
    assert v[..|v|] == v;
  }

  lemma WholePrefix<T>(s: seq<T>, n: nat)
    requires |s| == n
    ensures s[..n] == s
  {
  }

  // ---------------------------------------------------------------------
  // Row-start index (row_start_indices)
  // ---------------------------------------------------------------------

  /** The number of entries whose row index is below r. */
  function CountBelow(iVec: seq<int>, r: int): (c: nat)
    ensures c <= |iVec|
  {
    if iVec == [] then 0
    else (if iVec[0] < r then 1 else 0) + CountBelow(iVec[1..], r)
  }

  /** In a row-sorted list, the entries below row r are exactly the first p ones. */
  lemma {:induction false} CountBelowIsCut(iVec: seq<int>, r: int, p: nat)
    requires Sorted(iVec) && p <= |iVec|
    requires forall k :: 0 <= k < p ==> iVec[k] < r
    requires forall k :: p <= k < |iVec| ==> iVec[k] >= r
    ensures CountBelow(iVec, r) == p
  {
    if iVec != [] {
      if p == 0 {
        CountBelowIsCut(iVec[1..], r, 0);
      } else {
        CountBelowIsCut(iVec[1..], r, p - 1);
      }
    }
  }

  /** The offset of row r's first entry in a well-formed graph. */
  function RowStart(g: SparseCoo, r: int): (s: nat)
    ensures s <= |g.iVec|
  {
    CountBelow(g.iVec, r)
  }

  /**
   * In a row-sorted graph over n rows, the entries of row r are exactly
   * those at offsets [RowStart(r), RowStart(r + 1)).
   */
  lemma RowSlice(g: SparseCoo, n: nat, r: int)
    requires WellFormed(g, n)
    ensures RowStart(g, r) <= RowStart(g, r + 1)
    ensures forall k :: 0 <= k < |g.iVec| ==>
      (RowStart(g, r) <= k < RowStart(g, r + 1) <==> g.iVec[k] == r)
  {
    var lo := FirstAtLeast(g.iVec, r);
    var hi := FirstAtLeast(g.iVec, r + 1);
    CountBelowIsCut(g.iVec, r, lo);
    CountBelowIsCut(g.iVec, r + 1, hi);
    CountBelowMonotone(g.iVec, r, r + 1);
  }

  /** More rows below a higher bound. */
  lemma {:induction false} CountBelowMonotone(iVec: seq<int>, r: int, r': int)
    requires r <= r'
    ensures CountBelow(iVec, r) <= CountBelow(iVec, r')
  {
    if iVec != [] {
      CountBelowMonotone(iVec[1..], r, r');
    }
  }

  /** The first offset whose row index is at least r (|iVec| if none). */
  lemma FirstAtLeast(iVec: seq<int>, r: int) returns (p: nat)
    requires Sorted(iVec)
    ensures p <= |iVec|
    ensures forall k :: 0 <= k < p ==> iVec[k] < r
    ensures forall k :: p <= k < |iVec| ==> iVec[k] >= r
  {
    p := 0;
    while p < |iVec| && iVec[p] < r
      invariant p <= |iVec|
      invariant forall k :: 0 <= k < p ==> iVec[k] < r
    {
      p := p + 1;
    }
  }

  /**
   * row_start_indices: offsets of the first entry of every row, found by one
   * cursor that advances while the current entry's row is below the row
   * sought. The scan has no bound check, hence RowStartSafe.
   */
  method RowStartIndices(g: SparseCoo, n: nat) returns (start: seq<int>)
    requires WellFormed(g, n) && RowStartSafe(g.iVec, n)
    ensures |start| == n + 1
    ensures start[0] == 0 && start[n] == |g.iVec|
    ensures forall r :: 0 <= r <= n ==> start[r] == RowStart(g, r)
    ensures forall r, r' :: 0 <= r <= r' <= n ==> 0 <= start[r] <= start[r'] <= |g.iVec|
    ensures forall r, k :: 0 <= r < n && 0 <= k < |g.iVec| ==>
      (start[r] <= k < start[r + 1] <==> g.iVec[k] == r)
  {
    var iVec := g.iVec;
    if |iVec| > 0 {
      assert 0 <= iVec[0] < n;
    }
    ghost var last := 0;
    if n >= 2 {
      last :| 0 <= last < |iVec| && iVec[last] >= n - 1;
    }
    start := FillRowStarts(iVec, n, last);
    CountBelowIsCut(iVec, n, |iVec|);
    CountBelowIsCut(iVec, 0, 0);
    RowStartsSlice(g, n, start);
  }

  /**
   * The loop of row_start_indices: entry r of the result, for 0 < r < n,
   * is where the cursor stops for row r, the number of entries with a row
   * below r.
   */
  method FillRowStarts(iVec: seq<int>, n: nat, ghost last: nat) returns (rowStartIdx: seq<int>)
    requires Sorted(iVec) && (n == 0 ==> |iVec| == 0)
    requires n >= 2 ==> last < |iVec| && iVec[last] >= n - 1
    ensures |rowStartIdx| == n + 1
    ensures rowStartIdx[0] == 0 && rowStartIdx[n] == |iVec|
    ensures forall r :: 1 <= r < n ==> rowStartIdx[r] == CountBelow(iVec, r)
  {
    rowStartIdx := seq(n + 1, _ => 0);
    var iIdx := 0;
    rowStartIdx := rowStartIdx[0 := 0];
    rowStartIdx := rowStartIdx[n := |iVec|];
    var i := 1;
    while i < n
      invariant 1 <= i <= n || n == 0
      invariant 0 <= iIdx <= |iVec|
      invariant forall k :: 0 <= k < iIdx ==> iVec[k] < i
      invariant i < n ==> 0 <= last < |iVec| && iVec[last] >= i
      invariant |rowStartIdx| == n + 1
      invariant rowStartIdx[0] == 0 && rowStartIdx[n] == |iVec|
      invariant forall r :: 1 <= r < i && r < n ==> rowStartIdx[r] == CountBelow(iVec, r)
    {
      iIdx := SkipBelow(iVec, i, iIdx, last);
      CountBelowIsCut(iVec, i, iIdx);
      rowStartIdx := rowStartIdx[i := iIdx];
      i := i + 1;
    }
  }

  /**
   * The cursor walk of row_start_indices: advances past entries whose row
   * is below i. It relies on an entry at offset `last` with row >= i to
   * stop; there is no bound check.
   */
  method SkipBelow(iVec: seq<int>, i: int, from: nat, ghost last: nat) returns (iIdx: nat)
    requires Sorted(iVec) && from <= last < |iVec| && iVec[last] >= i
    requires forall k :: 0 <= k < from ==> iVec[k] < i
    ensures from <= iIdx <= last
    ensures forall k :: 0 <= k < iIdx ==> iVec[k] < i
    ensures forall k :: iIdx <= k < |iVec| ==> iVec[k] >= i
  {
    iIdx := from;
    while iVec[iIdx] < i
      invariant from <= iIdx <= last
      invariant forall k :: 0 <= k < iIdx ==> iVec[k] < i
      decreases |iVec| - iIdx
    {
      iIdx := iIdx + 1;
    }
  }

  /** Row offsets as RowStart gives them are ordered and delimit the rows. */
  lemma RowStartsSlice(g: SparseCoo, n: nat, start: seq<int>)
    requires WellFormed(g, n) && |start| == n + 1
    requires forall r :: 0 <= r <= n ==> start[r] == RowStart(g, r)
    ensures forall r, r' :: 0 <= r <= r' <= n ==> 0 <= start[r] <= start[r'] <= |g.iVec|
    ensures forall r, k :: 0 <= r < n && 0 <= k < |g.iVec| ==>
      (start[r] <= k < start[r + 1] <==> g.iVec[k] == r)
  {
    forall r, r' | 0 <= r <= r' <= n
      ensures start[r] <= start[r']
    {
      CountBelowMonotone(g.iVec, r, r');
    }
    forall r, k | 0 <= r < n && 0 <= k < |g.iVec|
      ensures start[r] <= k < start[r + 1] <==> g.iVec[k] == r
    {
      RowSlice(g, n, r);
    }
  }

  // ---------------------------------------------------------------------
  // Sorting index vectors (sort_indexes, declared in extend.hpp)
  // ---------------------------------------------------------------------

  /**
   * ord lists every position of d exactly once, in ascending order of
   * distance. Nothing is said about the order of equal distances.
   */
  predicate SortedOrder(d: seq<real>, ord: seq<int>) {
    && |ord| == |d|
    && (forall k :: 0 <= k < |ord| ==> 0 <= ord[k] < |d|)
    && (forall a, b :: 0 <= a < b < |ord| ==> ord[a] != ord[b])
    && (forall a, b :: 0 <= a < b < |ord| ==> d[ord[a]] <= d[ord[b]])
  }

  /**
   * sort_indexes: the positions of d in ascending order of distance. Its
   * callers rely on this contract only; the body is one way to meet it.
   */
  method SortIndexes(d: seq<real>) returns (ord: seq<int>)
    ensures SortedOrder(d, ord)
  {
    ord := [];
    for x := 0 to |d|
      invariant SortedPrefix(d, ord, x)
    {
      var p := 0;
      while p < |ord| && d[ord[p]] <= d[x]
        invariant p <= |ord|
        invariant forall k :: 0 <= k < p ==> d[ord[k]] <= d[x]
      {
        p := p + 1;
      }
      InsertSorted(d, ord, x, p);
      ord := ord[..p] + [x] + ord[p..];
    }
  }

  /** ord orders the positions [0, x) of d by ascending distance. */
  predicate SortedPrefix(d: seq<real>, ord: seq<int>, x: nat) {
    && x <= |d| && |ord| == x
    && (forall k :: 0 <= k < |ord| ==> 0 <= ord[k] < x)
    && (forall a, b :: 0 <= a < b < |ord| ==> ord[a] != ord[b])
    && (forall a, b :: 0 <= a < b < |ord| ==> d[ord[a]] <= d[ord[b]])
  }

  /**
   * Inserting position x after the entries no farther than d[x] keeps the
   * order sorted. Whether it is also before every farther entry follows
   * from the sortedness of ord.
   */
  lemma InsertSorted(d: seq<real>, ord: seq<int>, x: nat, p: nat)
    requires SortedPrefix(d, ord, x) && x < |d| && p <= |ord|
    requires forall k :: 0 <= k < p ==> d[ord[k]] <= d[x]
    requires p < |ord| ==> d[x] < d[ord[p]]
    ensures SortedPrefix(d, ord[..p] + [x] + ord[p..], x + 1)
  {
    var o := ord[..p] + [x] + ord[p..];
    assert forall k :: 0 <= k < |o| ==> o[k] == if k < p then ord[k] else if k == p then x else ord[k - 1];
    forall a, b | 0 <= a < b < |o| ensures o[a] != o[b] && d[o[a]] <= d[o[b]] {
      if b == p {
        assert o[a] == ord[a];
      } else if a == p {
        assert o[b] == ord[b - 1] && d[ord[p]] <= d[ord[b - 1]];
      }
    }
  }

  // ---------------------------------------------------------------------
  // Candidate lists of a row
  // ---------------------------------------------------------------------

  /**
   * The qr list in sorted order: position idx of the list stands for column
   * idx + nr (a query sample).
   */
  function QrCandidates(nr: nat, d: seq<real>, ord: seq<int>): (cs: seq<Candidate>)
    requires SortedOrder(d, ord)
    ensures |cs| == |d|
    ensures forall k :: 0 <= k < |cs| ==> nr <= cs[k].j < nr + |d|
    ensures SortedByDist(cs)
  {
    seq(|ord|, k requires 0 <= k < |ord| => Candidate(ord[k] + nr, d[ord[k]]))
  }

  /**
   * The rr list in sorted order: for a reference row (i < nr) position idx
   * stands for the stored column jSparse[s + idx], for a query row for
   * column idx (a reference sample).
   */
  function RrCandidates(i: int, nr: nat, jSparse: seq<int>, s: nat, d: seq<real>, ord: seq<int>): (cs: seq<Candidate>)
    requires SortedOrder(d, ord)
    requires i < nr ==> s + |d| <= |jSparse|
    ensures |cs| == |d|
    ensures SortedByDist(cs)
  {
    seq(|ord|, k requires 0 <= k < |ord| =>
      Candidate(if i < nr then jSparse[s + ord[k]] else ord[k], d[ord[k]]))
  }

  /**
   * Column mapping of the rr list: a reference row keeps the stored columns
   * of its own entries, a query row gets reference columns in [0, nr).
   */
  lemma RrColumns(i: int, nr: nat, jSparse: seq<int>, s: nat, d: seq<real>, ord: seq<int>)
    requires SortedOrder(d, ord)
    requires i < nr ==> s + |d| <= |jSparse|
    ensures var cs := RrCandidates(i, nr, jSparse, s, d, ord);
      && (i < nr ==> forall k :: 0 <= k < |cs| ==> cs[k].j in jSparse[s..s + |d|])
      && (i >= nr ==> forall k :: 0 <= k < |cs| ==> 0 <= cs[k].j < |d|)
  {
    var cs := RrCandidates(i, nr, jSparse, s, d, ord);
    if i < nr {
      forall k | 0 <= k < |cs| ensures cs[k].j in jSparse[s..s + |d|] {
        assert jSparse[s..s + |d|][ord[k]] == cs[k].j;
      }
    }
  }

  // ---------------------------------------------------------------------
  // The merge of two sorted lists and the kNN cap
  // ---------------------------------------------------------------------

  /**
   * The merge loop of extend: takes the smaller head, the qr head on a tie,
   * and stops as soon as EITHER list is exhausted; what is left of the other
   * list is never emitted.
   */
  function Merge(qc: seq<Candidate>, rc: seq<Candidate>): (m: seq<Candidate>)
    ensures |m| == 0 <==> (|qc| == 0 || |rc| == 0)
    ensures |m| < |qc| + |rc| || m == []
  {
    if qc == [] || rc == [] then []
    else if qc[0].dist <= rc[0].dist then [qc[0]] + Merge(qc[1..], rc)
    else [rc[0]] + Merge(qc, rc[1..])
  }

  /**
   * The kNN cap of one row (as in sparsify_dists): skips self pairs, accepts
   * a candidate while fewer than kNN distinct values were accepted or while
   * it ties the last new value, and ends the row at the first new value
   * once the cap is reached. `unique` and `prev` are unique_neighbors and
   * prev_value.
   */
  function Sparsify(i: int, s: seq<Candidate>, kNN: nat, unique: nat, prev: real): (out: seq<Candidate>)
    ensures |out| <= |s|
    ensures forall k :: 0 <= k < |out| ==> out[k].j != i
  {
    if s == [] then []
    else if s[0].j == i then Sparsify(i, s[1..], kNN, unique, prev)
    else if unique < kNN || !IsNew(s[0].dist, prev) then
      if IsNew(s[0].dist, prev) then [s[0]] + Sparsify(i, s[1..], kNN, unique + 1, s[0].dist)
      else [s[0]] + Sparsify(i, s[1..], kNN, unique, prev)
    else []
  }

  /** The candidates of s that are not the self pair of row i, in order. */
  function DropSelf(i: int, s: seq<Candidate>): seq<Candidate> {
    if s == [] then []
    else (if s[0].j == i then [] else [s[0]]) + DropSelf(i, s[1..])
  }

  /** How many of the accepted values are new, counting from prev. */
  function UniqueCount(out: seq<Candidate>, prev: real): nat {
    if out == [] then 0
    else if IsNew(out[0].dist, prev) then 1 + UniqueCount(out[1..], out[0].dist)
    else UniqueCount(out[1..], prev)
  }

  /** The last new value after the accepted values, starting from prev. */
  function LastNew(out: seq<Candidate>, prev: real): real {
    if out == [] then prev
    else if IsNew(out[0].dist, prev) then LastNew(out[1..], out[0].dist)
    else LastNew(out[1..], prev)
  }

  // ---------------------------------------------------------------------
  // Properties of the merge and of the cap
  // ---------------------------------------------------------------------

  /** Every merged candidate comes from one of the two lists. */
  lemma {:induction false} MergeFrom(qc: seq<Candidate>, rc: seq<Candidate>)
    ensures forall c :: c in Merge(qc, rc) ==> c in qc || c in rc
    decreases |qc| + |rc|
  {
    if qc != [] && rc != [] {
      if qc[0].dist <= rc[0].dist {
        MergeFrom(qc[1..], rc);
      } else {
        MergeFrom(qc, rc[1..]);
      }
    }
  }

  /** Merging two lists sorted by distance gives a list sorted by distance. */
  lemma {:induction false} MergeSorted(qc: seq<Candidate>, rc: seq<Candidate>)
    requires SortedByDist(qc) && SortedByDist(rc)
    ensures SortedByDist(Merge(qc, rc))
    decreases |qc| + |rc|
  {
    if qc != [] && rc != [] {
      var m := Merge(qc, rc);
      var head, tail;
      if qc[0].dist <= rc[0].dist {
        head, tail := qc[0], Merge(qc[1..], rc);
        MergeSorted(qc[1..], rc);
        MergeFrom(qc[1..], rc);
      } else {
        head, tail := rc[0], Merge(qc, rc[1..]);
        MergeSorted(qc, rc[1..]);
        MergeFrom(qc, rc[1..]);
      }
      assert m == [head] + tail;
      forall b | 0 <= b < |tail| ensures head.dist <= tail[b].dist {
        assert tail[b] in tail;
      }
    }
  }

  /**
   * How many entries of the qr and of the rr list the merge emits: one of
   * the two is the whole list.
   */
  function MergeCut(qc: seq<Candidate>, rc: seq<Candidate>): (cut: (nat, nat))
    ensures cut.0 <= |qc| && cut.1 <= |rc|
    ensures cut.0 == |qc| || cut.1 == |rc|
  {
    if qc == [] || rc == [] then (0, 0)
    else if qc[0].dist <= rc[0].dist then (MergeCut(qc[1..], rc).0 + 1, MergeCut(qc[1..], rc).1)
    else (MergeCut(qc, rc[1..]).0, MergeCut(qc, rc[1..]).1 + 1)
  }

  /**
   * The merge emits exactly the first MergeCut entries of each list, so the
   * rest of the other list is dropped.
   */
  lemma {:induction false} MergeTakesPrefixes(qc: seq<Candidate>, rc: seq<Candidate>)
    ensures multiset(Merge(qc, rc)) == multiset(qc[..MergeCut(qc, rc).0]) + multiset(rc[..MergeCut(qc, rc).1])
    decreases |qc| + |rc|, 1
  {
    if qc != [] && rc != [] {
      if qc[0].dist <= rc[0].dist {
        TakeQrHead(qc, rc);
      } else {
        TakeRrHead(qc, rc);
      }
    }
  }

  /** MergeTakesPrefixes when the merge starts with the qr head. */
  lemma {:induction false} TakeQrHead(qc: seq<Candidate>, rc: seq<Candidate>)
    requires qc != [] && rc != [] && qc[0].dist <= rc[0].dist
    ensures multiset(Merge(qc, rc)) == multiset(qc[..MergeCut(qc, rc).0]) + multiset(rc[..MergeCut(qc, rc).1])
    decreases |qc| + |rc|, 0
  {
    MergeTakesPrefixes(qc[1..], rc);
    assert qc[..MergeCut(qc, rc).0] == [qc[0]] + qc[1..][..MergeCut(qc[1..], rc).0];
  }

  /** MergeTakesPrefixes when the merge starts with the rr head. */
  lemma {:induction false} TakeRrHead(qc: seq<Candidate>, rc: seq<Candidate>)
    requires qc != [] && rc != [] && qc[0].dist > rc[0].dist
    ensures multiset(Merge(qc, rc)) == multiset(qc[..MergeCut(qc, rc).0]) + multiset(rc[..MergeCut(qc, rc).1])
    decreases |qc| + |rc|, 0
  {
    MergeTakesPrefixes(qc, rc[1..]);
    assert rc[..MergeCut(qc, rc).1] == [rc[0]] + rc[1..][..MergeCut(qc, rc[1..]).1];
  }

  /**
   * The merge of two sorted lists emits the smallest candidates: nothing it
   * emits is larger than a candidate it leaves in either list, an rr
   * candidate is emitted only when it is strictly smaller than every qr
   * candidate left (the qr_dists list wins ties; for a query row that is
   * the qq row), and the first candidate is the qr head exactly when that
   * head is not larger than the rr head.
   */
  lemma {:induction false} MergeEmitsSmallest(qc: seq<Candidate>, rc: seq<Candidate>)
    requires SortedByDist(qc) && SortedByDist(rc)
    ensures forall k, x :: 0 <= k < |Merge(qc, rc)| && MergeCut(qc, rc).0 <= x < |qc| ==>
      Merge(qc, rc)[k].dist <= qc[x].dist
    ensures forall k, y :: 0 <= k < |Merge(qc, rc)| && MergeCut(qc, rc).1 <= y < |rc| ==>
      Merge(qc, rc)[k].dist <= rc[y].dist
    ensures forall y, x :: 0 <= y < MergeCut(qc, rc).1 && MergeCut(qc, rc).0 <= x < |qc| ==>
      rc[y].dist < qc[x].dist
    ensures qc != [] && rc != [] ==> (Merge(qc, rc)[0] == qc[0] <==> qc[0].dist <= rc[0].dist)
  {
    BelowQrRest(qc, rc);
    BelowRrRest(qc, rc);
    RrBeforeQrRest(qc, rc);
  }

  /** Nothing the merge emits is larger than a qr candidate it leaves. */
  lemma {:induction false} BelowQrRest(qc: seq<Candidate>, rc: seq<Candidate>)
    requires SortedByDist(qc) && SortedByDist(rc)
    ensures forall k, x :: 0 <= k < |Merge(qc, rc)| && MergeCut(qc, rc).0 <= x < |qc| ==>
      Merge(qc, rc)[k].dist <= qc[x].dist
    decreases |qc| + |rc|
  {
    if qc != [] && rc != [] {
      var m, cut := Merge(qc, rc), MergeCut(qc, rc);
      if qc[0].dist <= rc[0].dist {
        var m' := Merge(qc[1..], rc);
        BelowQrRest(qc[1..], rc);
        assert m == [qc[0]] + m' && cut.0 == MergeCut(qc[1..], rc).0 + 1;
        forall k, x | 0 <= k < |m| && cut.0 <= x < |qc|
          ensures m[k].dist <= qc[x].dist
        {
          assert qc[x] == qc[1..][x - 1];
          if k > 0 {
            assert m[k] == m'[k - 1];
          }
        }
      } else {
        var m' := Merge(qc, rc[1..]);
        BelowQrRest(qc, rc[1..]);
        assert m == [rc[0]] + m' && cut.0 == MergeCut(qc, rc[1..]).0;
        forall k, x | 0 <= k < |m| && cut.0 <= x < |qc|
          ensures m[k].dist <= qc[x].dist
        {
          if k > 0 {
            assert m[k] == m'[k - 1];
          }
        }
      }
    }
  }

  /** Nothing the merge emits is larger than an rr candidate it leaves. */
  lemma {:induction false} BelowRrRest(qc: seq<Candidate>, rc: seq<Candidate>)
    requires SortedByDist(qc) && SortedByDist(rc)
    ensures forall k, y :: 0 <= k < |Merge(qc, rc)| && MergeCut(qc, rc).1 <= y < |rc| ==>
      Merge(qc, rc)[k].dist <= rc[y].dist
    decreases |qc| + |rc|
  {
    if qc != [] && rc != [] {
      var m, cut := Merge(qc, rc), MergeCut(qc, rc);
      if qc[0].dist <= rc[0].dist {
        var m' := Merge(qc[1..], rc);
        BelowRrRest(qc[1..], rc);
        assert m == [qc[0]] + m' && cut.1 == MergeCut(qc[1..], rc).1;
        forall k, y | 0 <= k < |m| && cut.1 <= y < |rc|
          ensures m[k].dist <= rc[y].dist
        {
          if k > 0 {
            assert m[k] == m'[k - 1];
          }
        }
      } else {
        var m' := Merge(qc, rc[1..]);
        BelowRrRest(qc, rc[1..]);
        assert m == [rc[0]] + m' && cut.1 == MergeCut(qc, rc[1..]).1 + 1;
        forall k, y | 0 <= k < |m| && cut.1 <= y < |rc|
          ensures m[k].dist <= rc[y].dist
        {
          assert rc[y] == rc[1..][y - 1];
          if k > 0 {
            assert m[k] == m'[k - 1];
          }
        }
      }
    }
  }

  /** An emitted rr candidate is strictly smaller than every qr candidate left. */
  lemma {:induction false} RrBeforeQrRest(qc: seq<Candidate>, rc: seq<Candidate>)
    requires SortedByDist(qc) && SortedByDist(rc)
    ensures forall y, x :: 0 <= y < MergeCut(qc, rc).1 && MergeCut(qc, rc).0 <= x < |qc| ==>
      rc[y].dist < qc[x].dist
    decreases |qc| + |rc|
  {
    if qc != [] && rc != [] {
      var cut := MergeCut(qc, rc);
      if qc[0].dist <= rc[0].dist {
        RrBeforeQrRest(qc[1..], rc);
        assert cut == (MergeCut(qc[1..], rc).0 + 1, MergeCut(qc[1..], rc).1);
        forall y, x | 0 <= y < cut.1 && cut.0 <= x < |qc|
          ensures rc[y].dist < qc[x].dist
        {
          assert qc[x] == qc[1..][x - 1];
        }
      } else {
        RrBeforeQrRest(qc, rc[1..]);
        assert cut == (MergeCut(qc, rc[1..]).0, MergeCut(qc, rc[1..]).1 + 1);
        forall y, x | 0 <= y < cut.1 && cut.0 <= x < |qc|
          ensures rc[y].dist < qc[x].dist
        {
          if y > 0 {
            assert rc[y] == rc[1..][y - 1];
          }
        }
      }
    }
  }

  /** Every accepted candidate is a candidate of the stream. */
  lemma {:induction false} SparsifyFrom(i: int, s: seq<Candidate>, kNN: nat, unique: nat, prev: real)
    ensures forall c :: c in Sparsify(i, s, kNN, unique, prev) ==> c in s
    decreases |s|
  {
    if s != [] {
      SparsifyFrom(i, s[1..], kNN, unique, prev);
      SparsifyFrom(i, s[1..], kNN, unique + 1, s[0].dist);
    }
  }

  /** The accepted candidates are in the order of the stream, so sorted when it is. */
  lemma {:induction false} SparsifySorted(i: int, s: seq<Candidate>, kNN: nat, unique: nat, prev: real)
    requires SortedByDist(s)
    ensures SortedByDist(Sparsify(i, s, kNN, unique, prev))
    decreases |s|
  {
    if s != [] {
      var out := Sparsify(i, s, kNN, unique, prev);
      if s[0].j == i {
        SparsifySorted(i, s[1..], kNN, unique, prev);
      } else if unique < kNN || !IsNew(s[0].dist, prev) {
        var rest := if IsNew(s[0].dist, prev) then Sparsify(i, s[1..], kNN, unique + 1, s[0].dist)
                    else Sparsify(i, s[1..], kNN, unique, prev);
        if IsNew(s[0].dist, prev) {
          SparsifySorted(i, s[1..], kNN, unique + 1, s[0].dist);
        } else {
          SparsifySorted(i, s[1..], kNN, unique, prev);
        }
        assert out == [s[0]] + rest;
        SparsifyFrom(i, s[1..], kNN, unique, prev);
        SparsifyFrom(i, s[1..], kNN, unique + 1, s[0].dist);
        forall b | 0 <= b < |rest| ensures s[0].dist <= rest[b].dist {
          assert rest[b] in rest;
          var x :| 0 <= x < |s[1..]| && s[1..][x] == rest[b];
          assert s[x + 1] == rest[b];
        }
      }
    }
  }

  /**
   * What the cap keeps: the non-self candidates of a prefix s[..p] of the
   * stream. When the row ends early (p < |s|), it ends at a non-self
   * candidate that is a new value while the cap is already reached.
   */
  lemma {:induction false} SparsifyIsCutPrefix(i: int, s: seq<Candidate>, kNN: nat, unique: nat, prev: real) returns (p: nat)
    ensures p <= |s|
    ensures Sparsify(i, s, kNN, unique, prev) == DropSelf(i, s[..p])
    ensures p < |s| ==>
      var out := Sparsify(i, s, kNN, unique, prev);
      && s[p].j != i
      && IsNew(s[p].dist, LastNew(out, prev))
      && unique + UniqueCount(out, prev) >= kNN
    decreases |s|
  {
    if s == [] {
      p := 0;
    } else if s[0].j == i {
      var p' := SparsifyIsCutPrefix(i, s[1..], kNN, unique, prev);
      p := p' + 1;
      assert s[..p][1..] == s[1..][..p'];
    } else if unique < kNN || !IsNew(s[0].dist, prev) {
      var isNew := IsNew(s[0].dist, prev);
      var unique', prev' := if isNew then unique + 1 else unique, if isNew then s[0].dist else prev;
      var p' := SparsifyIsCutPrefix(i, s[1..], kNN, unique', prev');
      p := p' + 1;
      var out := Sparsify(i, s, kNN, unique, prev);
      var rest := Sparsify(i, s[1..], kNN, unique', prev');
      assert out == [s[0]] + rest;
      assert out[1..] == rest;
      assert LastNew(out, prev) == LastNew(rest, prev');
      assert UniqueCount(out, prev) == (if isNew then 1 else 0) + UniqueCount(rest, prev');
      assert s[..p][1..] == s[1..][..p'];
      if p < |s| {
        assert s[p] == s[1..][p'];
      }
    } else {
      p := 0;
    }
  }

  /**
   * The cap: starting below it, the number of new values accepted never
   * takes the count past kNN.
   */
  lemma {:induction false} SparsifyCap(i: int, s: seq<Candidate>, kNN: nat, unique: nat, prev: real)
    requires unique <= kNN
    ensures unique + UniqueCount(Sparsify(i, s, kNN, unique, prev), prev) <= kNN
    decreases |s|
  {
    if s != [] {
      var out := Sparsify(i, s, kNN, unique, prev);
      if s[0].j == i {
        SparsifyCap(i, s[1..], kNN, unique, prev);
      } else if unique < kNN || !IsNew(s[0].dist, prev) {
        if IsNew(s[0].dist, prev) {
          SparsifyCap(i, s[1..], kNN, unique + 1, s[0].dist);
          assert out[1..] == Sparsify(i, s[1..], kNN, unique + 1, s[0].dist);
        } else {
          SparsifyCap(i, s[1..], kNN, unique, prev);
          assert out[1..] == Sparsify(i, s[1..], kNN, unique, prev);
        }
      }
    }
  }

  /**
   * With kNN = 0 and non-negative distances nothing is kept: every distance
   * is a new value against the initial prev_value of -1.
   */
  lemma {:induction false} SparsifyZeroCap(i: int, s: seq<Candidate>)
    requires forall k :: 0 <= k < |s| ==> s[k].dist >= 0.0
    ensures Sparsify(i, s, 0, 0, -1.0) == []
    decreases |s|
  {
    if s != [] && s[0].j == i {
      SparsifyZeroCap(i, s[1..]);
    }
  }

  /**
   * The tie rule on a row with distances 0.50000000001, 0.5, 0.5, 0.9 and
   * kNN = 1: the first value is new, the two 0.5 values lie within epsilon
   * of it and are kept, 0.9 is a new value beyond the cap and ends the row.
   */
  lemma TieExample()
    ensures var s := [Candidate(1, 0.50000000001), Candidate(2, 0.5), Candidate(3, 0.5), Candidate(4, 0.9)];
      Sparsify(0, s, 1, 0, -1.0) == s[..3]
  {
    var s := [Candidate(1, 0.50000000001), Candidate(2, 0.5), Candidate(3, 0.5), Candidate(4, 0.9)];
    SparsifyStep(0, s[0], s[1..], 1, 0, -1.0);
    assert s == [s[0]] + s[1..];
  }

  /** Capping an already capped row again keeps it as it is. */
  lemma {:induction false} SparsifyIdempotent(i: int, s: seq<Candidate>, kNN: nat, unique: nat, prev: real)
    ensures Sparsify(i, Sparsify(i, s, kNN, unique, prev), kNN, unique, prev) == Sparsify(i, s, kNN, unique, prev)
    decreases |s|
  {
    if s != [] {
      var out := Sparsify(i, s, kNN, unique, prev);
      if s[0].j == i {
        SparsifyIdempotent(i, s[1..], kNN, unique, prev);
      } else if unique < kNN || !IsNew(s[0].dist, prev) {
        var u', p' := if IsNew(s[0].dist, prev) then unique + 1 else unique,
                      if IsNew(s[0].dist, prev) then s[0].dist else prev;
        SparsifyIdempotent(i, s[1..], kNN, u', p');
        assert out == [s[0]] + Sparsify(i, s[1..], kNN, u', p');
        assert out[1..] == Sparsify(i, s[1..], kNN, u', p');
      }
    }
  }

  // ---------------------------------------------------------------------
  // One row of extend
  // ---------------------------------------------------------------------

  function Dists(cs: seq<Candidate>): (d: seq<real>)
    ensures |d| == |cs| && forall k :: 0 <= k < |cs| ==> d[k] == cs[k].dist
  {
    seq(|cs|, k requires 0 <= k < |cs| => cs[k].dist)
  }

  function Cols(cs: seq<Candidate>): (js: seq<int>)
    ensures |js| == |cs| && forall k :: 0 <= k < |cs| ==> js[k] == cs[k].j
  {
    seq(|cs|, k requires 0 <= k < |cs| => cs[k].j)
  }

  /** The row index vector of a row with the given entries. */
  function RowOf(i: int, cs: seq<Candidate>): (rowIdx: seq<int>)
    ensures |rowIdx| == |cs| && forall k :: 0 <= k < |cs| ==> rowIdx[k] == i
  {
    seq(|cs|, _ => i)
  }

  /** One step of the merge from positions qi and ri. */
  lemma MergeStep(qc: seq<Candidate>, rc: seq<Candidate>, qi: nat, ri: nat)
    requires qi < |qc| && ri < |rc|
    ensures Merge(qc[qi..], rc[ri..]) ==
      if qc[qi].dist <= rc[ri].dist then [qc[qi]] + Merge(qc[qi + 1..], rc[ri..])
      else [rc[ri]] + Merge(qc[qi..], rc[ri + 1..])
  {
    assert qc[qi..][1..] == qc[qi + 1..];
    assert rc[ri..][1..] == rc[ri + 1..];
  }

  /** One step of the cap on a stream that starts with c. */
  lemma SparsifyStep(i: int, c: Candidate, rest: seq<Candidate>, kNN: nat, unique: nat, prev: real)
    ensures Sparsify(i, [c] + rest, kNN, unique, prev) ==
      if c.j == i then Sparsify(i, rest, kNN, unique, prev)
      else if unique < kNN || !IsNew(c.dist, prev) then
        if IsNew(c.dist, prev) then [c] + Sparsify(i, rest, kNN, unique + 1, c.dist)
        else [c] + Sparsify(i, rest, kNN, unique, prev)
      else []
  {
    assert ([c] + rest)[1..] == rest;
  }

  /**
   * The loop of a row, one candidate c at a time: what is still to be
   * accepted after c, given what was accepted before it.
   */
  lemma CapAdvance(i: int, c: Candidate, rest: seq<Candidate>, kNN: nat, unique: nat, prev: real,
                   acc: seq<Candidate>, row: seq<Candidate>)
    requires acc + Sparsify(i, [c] + rest, kNN, unique, prev) == row
    ensures c.j == i ==> acc + Sparsify(i, rest, kNN, unique, prev) == row
    ensures c.j != i && unique < kNN && IsNew(c.dist, prev) ==>
      (acc + [c]) + Sparsify(i, rest, kNN, unique + 1, c.dist) == row
    ensures c.j != i && !IsNew(c.dist, prev) ==> (acc + [c]) + Sparsify(i, rest, kNN, unique, prev) == row
    ensures c.j != i && unique >= kNN && IsNew(c.dist, prev) ==> acc == row
  {
    SparsifyStep(i, c, rest, kNN, unique, prev);
  }

  /** A suffix of a sequence is its first element followed by the rest. */
  lemma SplitHead<T>(s: seq<T>, k: nat)
    requires k < |s|
    ensures s[k..] == [s[k]] + s[k + 1..]
  {
  }

  /** Appending one accepted candidate appends to each of the row's vectors. */
  lemma ProjectAppend(i: int, acc: seq<Candidate>, c: Candidate)
    ensures Dists(acc + [c]) == Dists(acc) + [c.dist]
    ensures RowOf(i, acc + [c]) == RowOf(i, acc) + [i]
    ensures Cols(acc + [c]) == Cols(acc) + [c.j]
  {
  }

  /**
   * The head of the merge of the remaining qr and rr lists: the qr
   * candidate wins ties. Returns its column and distance and the advanced
   * cursors.
   */
  method NextCandidate(i: int, nr: nat, qrDists: seq<real>, qrOrd: seq<int>, rrDists: seq<real>, rrOrd: seq<int>,
                       jSparse: seq<int>, s: nat, qrIt: nat, rrIt: nat)
    returns (j: int, dist: real, qrNext: nat, rrNext: nat)
    requires SortedOrder(qrDists, qrOrd) && SortedOrder(rrDists, rrOrd)
    requires i < nr ==> s + |rrDists| <= |jSparse|
    requires qrIt < |qrOrd| && rrIt < |rrOrd|
    ensures qrNext <= |qrOrd| && rrNext <= |rrOrd| && qrNext + rrNext == qrIt + rrIt + 1
    ensures var qc := QrCandidates(nr, qrDists, qrOrd);
      var rc := RrCandidates(i, nr, jSparse, s, rrDists, rrOrd);
      Merge(qc[qrIt..], rc[rrIt..]) == [Candidate(j, dist)] + Merge(qc[qrNext..], rc[rrNext..])
  {
    ghost var qc := QrCandidates(nr, qrDists, qrOrd);
    ghost var rc := RrCandidates(i, nr, jSparse, s, rrDists, rrOrd);
    MergeStep(qc, rc, qrIt, rrIt);
    if rrIt == |rrOrd| || (qrIt != |qrOrd| && qrDists[qrOrd[qrIt]] <= rrDists[rrOrd[rrIt]]) {
      j := qrOrd[qrIt] + nr;
      dist := qrDists[qrOrd[qrIt]];
      assert qc[qrIt] == Candidate(j, dist) && rc[rrIt].dist == rrDists[rrOrd[rrIt]];
      qrNext, rrNext := qrIt + 1, rrIt;
    } else {
      if i < nr {
        j := jSparse[s + rrOrd[rrIt]];
      } else {
        j := rrOrd[rrIt];
      }
      dist := rrDists[rrOrd[rrIt]];
      assert rc[rrIt] == Candidate(j, dist) && qc[qrIt].dist == qrDists[qrOrd[qrIt]];
      qrNext, rrNext := qrIt, rrIt + 1;
    }
  }

  /**
   * The body of extend's row loop for combined row i: merges the sorted qr
   * and rr lists, skips the self pair and applies the kNN cap, pushing the
   * accepted (dist, i, j) onto the row's own vectors.
   */
  method MergeRow(i: int, nr: nat, qrDists: seq<real>, qrOrd: seq<int>, rrDists: seq<real>, rrOrd: seq<int>,
                  jSparse: seq<int>, s: nat, kNN: nat)
    returns (dists: seq<real>, iVec: seq<int>, jVec: seq<int>)
    requires SortedOrder(qrDists, qrOrd) && SortedOrder(rrDists, rrOrd)
    requires i < nr ==> s + |rrDists| <= |jSparse|
    ensures var row := Sparsify(i, Merge(QrCandidates(nr, qrDists, qrOrd),
                                         RrCandidates(i, nr, jSparse, s, rrDists, rrOrd)), kNN, 0, -1.0);
            dists == Dists(row) && iVec == RowOf(i, row) && jVec == Cols(row)
  {
    ghost var qc := QrCandidates(nr, qrDists, qrOrd);
    ghost var rc := RrCandidates(i, nr, jSparse, s, rrDists, rrOrd);
    ghost var row := Sparsify(i, Merge(qc, rc), kNN, 0, -1.0);
    ghost var acc: seq<Candidate> := [];
    dists, iVec, jVec := [], [], [];
    var uniqueNeighbors: nat := 0;
    var prevValue: real := -1.0;
    var rrIt, qrIt := 0, 0;
    while qrIt != |qrOrd| && rrIt != |rrOrd|
      invariant 0 <= qrIt <= |qrOrd| && 0 <= rrIt <= |rrOrd|
      invariant acc + Sparsify(i, Merge(qc[qrIt..], rc[rrIt..]), kNN, uniqueNeighbors, prevValue) == row
      invariant dists == Dists(acc) && iVec == RowOf(i, acc) && jVec == Cols(acc)
      decreases |qrOrd| - qrIt + |rrOrd| - rrIt
    {
      var j: int, dist: real;
      j, dist, qrIt, rrIt := NextCandidate(i, nr, qrDists, qrOrd, rrDists, rrOrd, jSparse, s, qrIt, rrIt);
      CapAdvance(i, Candidate(j, dist), Merge(qc[qrIt..], rc[rrIt..]), kNN, uniqueNeighbors, prevValue, acc, row);

      if j == i {
        continue;
      }
      var newVal := Abs(dist - prevValue) >= Epsilon;
      if uniqueNeighbors < kNN || !newVal {
        ProjectAppend(i, acc, Candidate(j, dist));
        dists := dists + [dist];
        iVec := iVec + [i];
        jVec := jVec + [j];
        acc := acc + [Candidate(j, dist)];
        if newVal {
          uniqueNeighbors := uniqueNeighbors + 1;
          prevValue := dist;
        }
      } else {
        break;
      }
    }
  }

  // ---------------------------------------------------------------------
  // Assembling the rows into a coordinate list
  // ---------------------------------------------------------------------

  /**
   * The coordinate list of the rows, row 0 first: entry (r, c.j, c.dist) for
   * every accepted candidate c of row r.
   */
  function Assemble(rows: seq<seq<Candidate>>): (g: SparseCoo)
    ensures |g.iVec| == |g.jVec| == |g.dists|
  {
    if rows == [] then SparseCoo([], [], [])
    else
      var init := Assemble(rows[..|rows| - 1]);
      var r := |rows| - 1;
      SparseCoo(init.iVec + RowOf(r, rows[r]), init.jVec + Cols(rows[r]), init.dists + Dists(rows[r]))
  }

  lemma AssembleAppend(rows: seq<seq<Candidate>>, row: seq<Candidate>)
    ensures var g := Assemble(rows);
      Assemble(rows + [row]) == SparseCoo(g.iVec + RowOf(|rows|, row), g.jVec + Cols(row), g.dists + Dists(row))
  {
    assert (rows + [row])[..|rows|] == rows;
  }

  lemma ConcatAppend<T>(vec: seq<seq<T>>, v: seq<T>)
    ensures Concat(vec + [v]) == Concat(vec) + v
    ensures TotalLength(vec + [v]) == TotalLength(vec) + |v|
  {
    assert (vec + [v])[..|vec|] == vec;
  }

  /**
   * Rows without self pairs assemble into a well-formed graph over |rows|
   * rows: grouped by row in ascending order, with no entry on the diagonal.
   */
  lemma {:induction false} AssembleWellFormed(rows: seq<seq<Candidate>>)
    requires forall r, k :: 0 <= r < |rows| && 0 <= k < |rows[r]| ==> rows[r][k].j != r
    ensures WellFormed(Assemble(rows), |rows|)
    ensures forall k :: 0 <= k < |Assemble(rows).iVec| ==> Assemble(rows).iVec[k] != Assemble(rows).jVec[k]
    decreases |rows|
  {
    if rows != [] {
      var n := |rows| - 1;
      var init := rows[..n];
      AssembleWellFormed(init);
      var a := Assemble(init);
      var g := Assemble(rows);
      assert g.iVec == a.iVec + RowOf(n, rows[n]);
      forall x, y | 0 <= x < y < |g.iVec| ensures g.iVec[x] <= g.iVec[y] {
        if y >= |a.iVec| {
          assert g.iVec[y] == n;
        }
      }
      forall k | 0 <= k < |g.iVec| ensures g.iVec[k] != g.jVec[k] {
        assert g.jVec == a.jVec + Cols(rows[n]);
        if k >= |a.iVec| {
          var x := k - |a.iVec|;
          assert x < |rows[n]|;
          assert g.iVec[k] == n && g.jVec[k] == rows[n][x].j;
          assert rows[n][x].j != n;
        } else {
          assert g.iVec[k] == a.iVec[k] && g.jVec[k] == a.jVec[k];
          assert a.iVec[k] != a.jVec[k];
        }
      }
    }
  }

  /** Rows that are all empty assemble into the empty graph. */
  lemma {:induction false} AssembleEmpty(rows: seq<seq<Candidate>>)
    requires forall r :: 0 <= r < |rows| ==> rows[r] == []
    ensures Assemble(rows) == SparseCoo([], [], [])
    decreases |rows|
  {
    if rows != [] {
      AssembleEmpty(rows[..|rows| - 1]);
    }
  }

  // ---------------------------------------------------------------------
  // The candidate lists of a combined row
  // ---------------------------------------------------------------------

  /**
   * The shapes extend expects: qr_mat_rect is nr x nq, qq_mat_square is
   * nq x nq and the sparse graph is over the nr reference rows.
   */
  predicate Shapes(g: SparseCoo, qq: Matrix, qr: Matrix) {
    && qr.Valid() && qq.Valid()
    && qq.rows == qr.cols && qq.cols == qr.cols
    && WellFormed(g, qr.rows)
  }

  /** The distances of row i of a well-formed graph. */
  function RowDists(g: SparseCoo, i: int): (d: seq<real>)
    requires |g.dists| == |g.iVec| == |g.jVec|
    ensures RowStart(g, i) + |d| == RowStart(g, i + 1)
  {
    CountBelowMonotone(g.iVec, i, i + 1);
    g.dists[RowStart(g, i)..RowStart(g, i + 1)]
  }

  /** qr_dists of combined row i: qr row i, or qq row i - nr. */
  function QrList(qq: Matrix, qr: Matrix, i: int): (d: seq<real>)
    requires qr.Valid() && qq.Valid() && qq.rows == qr.cols && qq.cols == qr.cols
    requires 0 <= i < qr.rows + qr.cols
    ensures |d| == qr.cols
  {
    if i < qr.rows then qr.cells[i] else qq.cells[i - qr.rows]
  }

  /** rr_dists of combined row i: the sparse row i, or qr column i - nr. */
  function RrList(g: SparseCoo, qr: Matrix, i: int): (d: seq<real>)
    requires qr.Valid() && WellFormed(g, qr.rows)
    requires 0 <= i < qr.rows + qr.cols
    ensures i < qr.rows ==> RowStart(g, i) + |d| == RowStart(g, i + 1)
    ensures i >= qr.rows ==> |d| == qr.rows
  {
    if i < qr.rows then RowDists(g, i) else qr.Col(i - qr.rows)
  }

  /** The offset of row i's sparse entries; unused for a query row. */
  function RowOffset(g: SparseCoo, nr: nat, i: int): nat {
    if i < nr then RowStart(g, i) else 0
  }

  /**
   * The output row i of extend, given the sort orders sort_indexes chose for
   * its two lists.
   */
  function ExtendRow(g: SparseCoo, qq: Matrix, qr: Matrix, kNN: nat, i: int, qrOrd: seq<int>, rrOrd: seq<int>): (row: seq<Candidate>)
    requires Shapes(g, qq, qr) && 0 <= i < qr.rows + qr.cols
    requires SortedOrder(QrList(qq, qr, i), qrOrd) && SortedOrder(RrList(g, qr, i), rrOrd)
    ensures (|QrList(qq, qr, i)| == 0 || |RrList(g, qr, i)| == 0) ==> row == []
    ensures |row| < |QrList(qq, qr, i)| + |RrList(g, qr, i)| || row == []
    ensures forall k :: 0 <= k < |row| ==> row[k].j != i
  {
    Sparsify(i, Merge(QrCandidates(qr.rows, QrList(qq, qr, i), qrOrd),
                      RrCandidates(i, qr.rows, g.jVec, RowOffset(g, qr.rows, i), RrList(g, qr, i), rrOrd)),
             kNN, 0, -1.0)
  }

  /**
   * What every output row of extend satisfies: no self pair, ascending
   * distances, and columns mapped as the source maps them (see
   * ExtendRowColumns). When either list is empty the row is empty.
   */
  lemma ExtendRowProperties(g: SparseCoo, qq: Matrix, qr: Matrix, kNN: nat, i: int, qrOrd: seq<int>, rrOrd: seq<int>)
    requires Shapes(g, qq, qr) && 0 <= i < qr.rows + qr.cols
    requires SortedOrder(QrList(qq, qr, i), qrOrd) && SortedOrder(RrList(g, qr, i), rrOrd)
    ensures var row := ExtendRow(g, qq, qr, kNN, i, qrOrd, rrOrd);
      && (forall k :: 0 <= k < |row| ==> row[k].j != i)
      && SortedByDist(row)
      && UniqueCount(row, -1.0) <= kNN
      && (forall k :: 0 <= k < |row| ==> ColumnOk(g, qr.rows, qr.cols, i, row[k].j))
      && (|QrList(qq, qr, i)| == 0 || |RrList(g, qr, i)| == 0 ==> row == [])
  {
    var nr := qr.rows;
    var qc := QrCandidates(nr, QrList(qq, qr, i), qrOrd);
    var rc := RrCandidates(i, nr, g.jVec, RowOffset(g, nr, i), RrList(g, qr, i), rrOrd);
    var m := Merge(qc, rc);
    MergeSorted(qc, rc);
    SparsifySorted(i, m, kNN, 0, -1.0);
    SparsifyCap(i, m, kNN, 0, -1.0);
    ExtendRowColumns(g, qq, qr, kNN, i, qrOrd, rrOrd);
  }

  /**
   * Column j may appear in output row i of extend: a query sample in
   * [nr, nr + nq), one of the stored columns of reference row i, or, for a
   * query row, a reference sample in [0, nr).
   */
  predicate ColumnOk(g: SparseCoo, nr: nat, nq: nat, i: int, j: int) {
    || nr <= j < nr + nq
    || (&& i < nr && RowStart(g, i) <= RowStart(g, i + 1) <= |g.jVec|
        && j in g.jVec[RowStart(g, i)..RowStart(g, i + 1)])
    || (i >= nr && 0 <= j < nr)
  }

  /**
   * The columns of an output row of extend: qr candidates map to
   * [nr, nr + nq), rr candidates to the row's stored columns for a
   * reference row and to [0, nr) for a query row.
   */
  lemma ExtendRowColumns(g: SparseCoo, qq: Matrix, qr: Matrix, kNN: nat, i: int, qrOrd: seq<int>, rrOrd: seq<int>)
    requires Shapes(g, qq, qr) && 0 <= i < qr.rows + qr.cols
    requires SortedOrder(QrList(qq, qr, i), qrOrd) && SortedOrder(RrList(g, qr, i), rrOrd)
    ensures forall k :: 0 <= k < |ExtendRow(g, qq, qr, kNN, i, qrOrd, rrOrd)| ==>
      ColumnOk(g, qr.rows, qr.cols, i, ExtendRow(g, qq, qr, kNN, i, qrOrd, rrOrd)[k].j)
  {
    var nr := qr.rows;
    var qc := QrCandidates(nr, QrList(qq, qr, i), qrOrd);
    var rc := RrCandidates(i, nr, g.jVec, RowOffset(g, nr, i), RrList(g, qr, i), rrOrd);
    QrColumnsOk(g, qq, qr, i, qrOrd);
    RrColumnsOk(g, qr, i, rrOrd);
    var ok := j => ColumnOk(g, nr, qr.cols, i, j);
    CappedColumns(i, qc, rc, kNN, ok);
    var row := Sparsify(i, Merge(qc, rc), kNN, 0, -1.0);
    assert row == ExtendRow(g, qq, qr, kNN, i, qrOrd, rrOrd);
    forall k | 0 <= k < |row| ensures ColumnOk(g, nr, qr.cols, i, row[k].j) {
      assert ok(row[k].j);
    }
  }

  /** The qr list of row i holds query samples only. */
  lemma QrColumnsOk(g: SparseCoo, qq: Matrix, qr: Matrix, i: int, qrOrd: seq<int>)
    requires Shapes(g, qq, qr) && 0 <= i < qr.rows + qr.cols
    requires SortedOrder(QrList(qq, qr, i), qrOrd)
    ensures forall x :: 0 <= x < |QrCandidates(qr.rows, QrList(qq, qr, i), qrOrd)| ==>
      ColumnOk(g, qr.rows, qr.cols, i, QrCandidates(qr.rows, QrList(qq, qr, i), qrOrd)[x].j)
  {
  }

  /** The rr list of row i holds its stored columns, or reference samples for a query row. */
  lemma RrColumnsOk(g: SparseCoo, qr: Matrix, i: int, rrOrd: seq<int>)
    requires qr.Valid() && WellFormed(g, qr.rows) && 0 <= i < qr.rows + qr.cols
    requires SortedOrder(RrList(g, qr, i), rrOrd)
    ensures forall x :: 0 <= x < |RrCandidates(i, qr.rows, g.jVec, RowOffset(g, qr.rows, i), RrList(g, qr, i), rrOrd)| ==>
      ColumnOk(g, qr.rows, qr.cols, i, RrCandidates(i, qr.rows, g.jVec, RowOffset(g, qr.rows, i), RrList(g, qr, i), rrOrd)[x].j)
  {
    var nr := qr.rows;
    var rc := RrCandidates(i, nr, g.jVec, RowOffset(g, nr, i), RrList(g, qr, i), rrOrd);
    RrColumns(i, nr, g.jVec, RowOffset(g, nr, i), RrList(g, qr, i), rrOrd);
    CountBelowMonotone(g.iVec, i, i + 1);
    if i < nr {
      assert RowOffset(g, nr, i) + |RrList(g, qr, i)| == RowStart(g, i + 1);
    }
    forall x | 0 <= x < |rc| ensures ColumnOk(g, nr, qr.cols, i, rc[x].j) {
    }
  }

  /** A capped merged row only holds columns that its two lists hold. */
  lemma CappedColumns(i: int, qc: seq<Candidate>, rc: seq<Candidate>, kNN: nat, ok: int -> bool)
    requires forall x :: 0 <= x < |qc| ==> ok(qc[x].j)
    requires forall x :: 0 <= x < |rc| ==> ok(rc[x].j)
    ensures forall k :: 0 <= k < |Sparsify(i, Merge(qc, rc), kNN, 0, -1.0)| ==>
      ok(Sparsify(i, Merge(qc, rc), kNN, 0, -1.0)[k].j)
  {
    var row := Sparsify(i, Merge(qc, rc), kNN, 0, -1.0);
    MergeFrom(qc, rc);
    SparsifyFrom(i, Merge(qc, rc), kNN, 0, -1.0);
    forall k | 0 <= k < |row| ensures ok(row[k].j) {
      assert row[k] in Merge(qc, rc);
      if row[k] in qc {
        var x :| 0 <= x < |qc| && qc[x] == row[k];
      } else {
        var x :| 0 <= x < |rc| && rc[x] == row[k];
      }
    }
  }

  // ---------------------------------------------------------------------
  // extend
  // ---------------------------------------------------------------------

  /**
   * rows are the first |rows| rows of extend, built with the sort orders in
   * orders.
   */
  predicate ExtendRows(g: SparseCoo, qq: Matrix, qr: Matrix, kNN: nat,
                       orders: seq<(seq<int>, seq<int>)>, rows: seq<seq<Candidate>>)
  {
    && Shapes(g, qq, qr)
    && |orders| == |rows| <= qr.rows + qr.cols
    && forall i :: 0 <= i < |rows| ==>
      && SortedOrder(QrList(qq, qr, i), orders[i].0)
      && SortedOrder(RrList(g, qr, i), orders[i].1)
      && rows[i] == ExtendRow(g, qq, qr, kNN, i, orders[i].0, orders[i].1)
  }

  lemma ExtendRowsAppend(g: SparseCoo, qq: Matrix, qr: Matrix, kNN: nat,
                         orders: seq<(seq<int>, seq<int>)>, rows: seq<seq<Candidate>>,
                         qrOrd: seq<int>, rrOrd: seq<int>, row: seq<Candidate>)
    requires ExtendRows(g, qq, qr, kNN, orders, rows) && |rows| < qr.rows + qr.cols
    requires SortedOrder(QrList(qq, qr, |rows|), qrOrd) && SortedOrder(RrList(g, qr, |rows|), rrOrd)
    requires row == ExtendRow(g, qq, qr, kNN, |rows|, qrOrd, rrOrd)
    ensures ExtendRows(g, qq, qr, kNN, orders + [(qrOrd, rrOrd)], rows + [row])
  {
    var orders', rows' := orders + [(qrOrd, rrOrd)], rows + [row];
    forall i | 0 <= i < |rows'|
      ensures && SortedOrder(QrList(qq, qr, i), orders'[i].0)
              && SortedOrder(RrList(g, qr, i), orders'[i].1)
              && rows'[i] == ExtendRow(g, qq, qr, kNN, i, orders'[i].0, orders'[i].1)
    {
      if i < |rows| {
        assert orders'[i] == orders[i] && rows'[i] == rows[i];
      }
    }
  }

  /**
   * The per-row vectors extend has filled so far hold, once concatenated,
   * the coordinate list of rows; len is their total length.
   */
  predicate Gathered(rows: seq<seq<Candidate>>, dists: seq<seq<real>>, iVec: seq<seq<int>>,
                     jVec: seq<seq<int>>, len: nat)
  {
    && |dists| == |iVec| == |jVec| == |rows|
    && len == TotalLength(dists) == TotalLength(iVec) == TotalLength(jVec)
    && Assemble(rows) == SparseCoo(Concat(iVec), Concat(jVec), Concat(dists))
  }

  lemma GatheredAppend(rows: seq<seq<Candidate>>, dists: seq<seq<real>>, iVec: seq<seq<int>>,
                       jVec: seq<seq<int>>, len: nat, row: seq<Candidate>,
                       rowDists: seq<real>, rowI: seq<int>, rowJ: seq<int>)
    requires Gathered(rows, dists, iVec, jVec, len)
    requires rowDists == Dists(row) && rowI == RowOf(|rows|, row) && rowJ == Cols(row)
    ensures Gathered(rows + [row], dists + [rowDists], iVec + [rowI], jVec + [rowJ], len + |rowDists|)
  {
    AssembleAppend(rows, row);
    ConcatAppend(dists, Dists(row));
    ConcatAppend(iVec, RowOf(|rows|, row));
    ConcatAppend(jVec, Cols(row));
  }

  /**
   * Rows built by extend assemble into a well-formed graph over all
   * nr + nq samples with no self pair; with no query samples every row
   * is empty.
   */
  lemma ExtendGraph(g: SparseCoo, qq: Matrix, qr: Matrix, kNN: nat,
                    orders: seq<(seq<int>, seq<int>)>, rows: seq<seq<Candidate>>)
    requires Shapes(g, qq, qr)
    requires ExtendRows(g, qq, qr, kNN, orders, rows) && |rows| == qr.rows + qr.cols
    ensures WellFormed(Assemble(rows), qr.rows + qr.cols)
    ensures forall k :: 0 <= k < |Assemble(rows).iVec| ==> Assemble(rows).iVec[k] != Assemble(rows).jVec[k]
    ensures qr.cols == 0 ==> Assemble(rows) == SparseCoo([], [], [])
  {
    forall r, k | 0 <= r < |rows| && 0 <= k < |rows[r]| ensures rows[r][k].j != r {
      ExtendRowProperties(g, qq, qr, kNN, r, orders[r].0, orders[r].1);
    }
    AssembleWellFormed(rows);
    if qr.cols == 0 {
      forall r | 0 <= r < |rows| ensures rows[r] == [] {
        ExtendRowProperties(g, qq, qr, kNN, r, orders[r].0, orders[r].1);
      }
      AssembleEmpty(rows);
    }
  }

  /**
   * One pass of extend's row loop: gather the two distance lists of row i,
   * sort each with sort_indexes, and merge them into the row's vectors.
   */
  method ExtendOneRow(g: SparseCoo, qq: Matrix, qr: Matrix, kNN: nat, rowStartIdx: seq<int>, i: nat)
    returns (rowDists: seq<real>, rowI: seq<int>, rowJ: seq<int>,
             ghost qrOrd: seq<int>, ghost rrOrd: seq<int>, ghost row: seq<Candidate>)
    requires Shapes(g, qq, qr) && i < qr.rows + qr.cols
    requires |rowStartIdx| == qr.rows + 1
    requires forall r :: 0 <= r <= qr.rows ==> rowStartIdx[r] == RowStart(g, r)
    ensures SortedOrder(QrList(qq, qr, i), qrOrd) && SortedOrder(RrList(g, qr, i), rrOrd)
    ensures row == ExtendRow(g, qq, qr, kNN, i, qrOrd, rrOrd)
    ensures rowDists == Dists(row) && rowI == RowOf(i, row) && rowJ == Cols(row)
  {
    var nrSamples := qr.rows;
    var qrDists: seq<real>;
    var rrDists: seq<real>;
    if i < nrSamples {
      qrDists := qr.cells[i];
      CountBelowMonotone(g.iVec, i, i + 1);
      rrDists := g.dists[rowStartIdx[i]..rowStartIdx[i + 1]];
    } else {
      rrDists := qr.Col(i - nrSamples);
      qrDists := qq.cells[i - nrSamples];
    }
    assert qrDists == QrList(qq, qr, i) && rrDists == RrList(g, qr, i);
    var qrOrderedIdx := SortIndexes(qrDists);
    var rrOrderedIdx := SortIndexes(rrDists);
    var offset := if i < nrSamples then rowStartIdx[i] else 0;
    assert offset == RowOffset(g, nrSamples, i);
    rowDists, rowI, rowJ := MergeRow(i, nrSamples, qrDists, qrOrderedIdx, rrDists, rrOrderedIdx, g.jVec, offset, kNN);
    qrOrd, rrOrd := qrOrderedIdx, rrOrderedIdx;
    row := ExtendRow(g, qq, qr, kNN, i, qrOrd, rrOrd);
  }

  /**
   * extend: the sparse graph over nr + nq combined rows, where reference row
   * i merges its sparse entries with its qr_mat_rect row and query row
   * nr + q merges qr_mat_rect column q with qq_mat_square row q. Each row
   * goes to its own vectors, which are then concatenated in row order.
   * `orders` are the orders sort_indexes returned for the two lists of
   * every row, `rows` the rows as candidate lists.
   */
  method Extend(g: SparseCoo, qq: Matrix, qr: Matrix, kNN: nat)
    returns (out: SparseCoo, ghost orders: seq<(seq<int>, seq<int>)>, ghost rows: seq<seq<Candidate>>)
    requires Shapes(g, qq, qr) && RowStartSafe(g.iVec, qr.rows)
    ensures ExtendRows(g, qq, qr, kNN, orders, rows) && |rows| == qr.rows + qr.cols
    ensures out == Assemble(rows)
    ensures WellFormed(out, qr.rows + qr.cols)
    ensures forall k :: 0 <= k < |out.iVec| ==> out.iVec[k] != out.jVec[k]
    ensures qr.cols == 0 ==> out == SparseCoo([], [], [])
  {
    var rowStartIdx := RowStartIndices(g, qr.rows);
    var dists, iVec, jVec, len;
    dists, iVec, jVec, len, orders, rows := GatherRows(g, qq, qr, kNN, rowStartIdx);
    out := CombineRows(dists, iVec, jVec, len, rows);
    ExtendGraph(g, qq, qr, kNN, orders, rows);
  }

  /**
   * The row loop of extend: each row's output vectors, in row order, with
   * the running total of their lengths.
   */
  method GatherRows(g: SparseCoo, qq: Matrix, qr: Matrix, kNN: nat, rowStartIdx: seq<int>)
    returns (dists: seq<seq<real>>, iVec: seq<seq<int>>, jVec: seq<seq<int>>, len: nat,
             ghost orders: seq<(seq<int>, seq<int>)>, ghost rows: seq<seq<Candidate>>)
    requires Shapes(g, qq, qr) && |rowStartIdx| == qr.rows + 1
    requires forall r :: 0 <= r <= qr.rows ==> rowStartIdx[r] == RowStart(g, r)
    ensures ExtendRows(g, qq, qr, kNN, orders, rows) && |rows| == qr.rows + qr.cols
    ensures Gathered(rows, dists, iVec, jVec, len)
  {
    dists, iVec, jVec, len := [], [], [], 0;
    orders, rows := [], [];

    for i := 0 to qr.rows + qr.cols
      invariant |rows| == i && ExtendRows(g, qq, qr, kNN, orders, rows)
      invariant Gathered(rows, dists, iVec, jVec, len)
    {
      var rowDists, rowI, rowJ, qrOrd, rrOrd, row := ExtendOneRow(g, qq, qr, kNN, rowStartIdx, i);
      ExtendRowsAppend(g, qq, qr, kNN, orders, rows, qrOrd, rrOrd, row);
      GatheredAppend(rows, dists, iVec, jVec, len, row, rowDists, rowI, rowJ);
      dists := dists + [rowDists];
      iVec := iVec + [rowI];
      jVec := jVec + [rowJ];
      orders := orders + [(qrOrd, rrOrd)];
      rows := rows + [row];
      len := len + |rowDists|;
    }

  }

  /** The end of extend: the per-row vectors combined into one coordinate list. */
  method CombineRows(dists: seq<seq<real>>, iVec: seq<seq<int>>, jVec: seq<seq<int>>, len: nat,
                     ghost rows: seq<seq<Candidate>>)
    returns (out: SparseCoo)
    requires Gathered(rows, dists, iVec, jVec, len)
    ensures out == Assemble(rows)
  {
    var distsAll := CombineVectors(dists, len);
    var iVecAll := CombineVectors(iVec, len);
    var jVecAll := CombineVectors(jVec, len);
    WholePrefix(distsAll, len);
    WholePrefix(iVecAll, len);
    WholePrefix(jVecAll, len);
    out := SparseCoo(iVecAll, jVecAll, distsAll);
  }

  // ---------------------------------------------------------------------
  // lower_rank
  // ---------------------------------------------------------------------

  /**
   * Row i of lower_rank: the entries of row i of g in the order ord of
   * their distances, capped like a row of extend.
   */
  function LowerRankRow(g: SparseCoo, n: nat, kNN: nat, i: int, ord: seq<int>): (row: seq<Candidate>)
    requires WellFormed(g, n) && 0 <= i < n
    requires SortedOrder(RowDists(g, i), ord)
    ensures |row| <= |RowDists(g, i)|
    ensures forall k :: 0 <= k < |row| ==> row[k].j != i
  {
    Sparsify(i, RrCandidates(i, n, g.jVec, RowStart(g, i), RowDists(g, i), ord), kNN, 0, -1.0)
  }

  /**
   * A row of lower_rank keeps only entries of the input row i, in ascending
   * distance, without the self pair, with at most kNN new values, and never
   * more entries than the input row had; with kNN = 0 and non-negative
   * distances it is empty, because the first value is always new against
   * the starting prev_value of -1.
   */
  lemma LowerRankRowProperties(g: SparseCoo, n: nat, kNN: nat, i: int, ord: seq<int>)
    requires WellFormed(g, n) && 0 <= i < n
    requires SortedOrder(RowDists(g, i), ord)
    ensures var row := LowerRankRow(g, n, kNN, i, ord);
      && (forall k :: 0 <= k < |row| ==> row[k].j != i)
      && SortedByDist(row)
      && UniqueCount(row, -1.0) <= kNN
      && |row| <= RowStart(g, i + 1) - RowStart(g, i)
      && (forall k :: 0 <= k < |row| ==>
            (exists e :: RowStart(g, i) <= e < RowStart(g, i + 1) && g.jVec[e] == row[k].j && g.dists[e] == row[k].dist))
    ensures kNN == 0 && (forall e :: 0 <= e < |g.dists| ==> g.dists[e] >= 0.0) ==>
      LowerRankRow(g, n, kNN, i, ord) == []
  {
    var s := RowStart(g, i);
    var d := RowDists(g, i);
    var rc := RrCandidates(i, n, g.jVec, s, d, ord);
    var row := LowerRankRow(g, n, kNN, i, ord);
    SparsifySorted(i, rc, kNN, 0, -1.0);
    SparsifyCap(i, rc, kNN, 0, -1.0);
    forall k | 0 <= k < |row| ensures exists e :: s <= e < s + |d| && g.jVec[e] == row[k].j && g.dists[e] == row[k].dist {
      var e := LowerRankRowEntry(g, n, kNN, i, ord, k);
    }
    if kNN == 0 && (forall e :: 0 <= e < |g.dists| ==> g.dists[e] >= 0.0) {
      forall k | 0 <= k < |rc| ensures rc[k].dist >= 0.0 {
        assert rc[k].dist == g.dists[s + ord[k]];
      }
      SparsifyZeroCap(i, rc);
    }
  }

  /** Entry k of row i of lower_rank is the entry at offset e of the input graph. */
  lemma LowerRankRowEntry(g: SparseCoo, n: nat, kNN: nat, i: int, ord: seq<int>, k: nat) returns (e: nat)
    requires WellFormed(g, n) && 0 <= i < n
    requires SortedOrder(RowDists(g, i), ord) && k < |LowerRankRow(g, n, kNN, i, ord)|
    ensures RowStart(g, i) <= e < RowStart(g, i) + |RowDists(g, i)|
    ensures g.jVec[e] == LowerRankRow(g, n, kNN, i, ord)[k].j && g.dists[e] == LowerRankRow(g, n, kNN, i, ord)[k].dist
  {
    var s := RowStart(g, i);
    var d := RowDists(g, i);
    var rc := RrCandidates(i, n, g.jVec, s, d, ord);
    var row := LowerRankRow(g, n, kNN, i, ord);
    SparsifyFrom(i, rc, kNN, 0, -1.0);
    assert row[k] in rc;
    var m :| 0 <= m < |rc| && rc[m] == row[k];
    e := s + ord[m];
  }

  /** rows are the first |rows| rows of lower_rank, built with the orders in orders. */
  predicate LowerRankRows(g: SparseCoo, n: nat, kNN: nat, orders: seq<seq<int>>, rows: seq<seq<Candidate>>)
  {
    && WellFormed(g, n)
    && |orders| == |rows| <= n
    && forall i :: 0 <= i < |rows| ==>
      && SortedOrder(RowDists(g, i), orders[i])
      && rows[i] == LowerRankRow(g, n, kNN, i, orders[i])
  }

  lemma LowerRankRowsAppend(g: SparseCoo, n: nat, kNN: nat, orders: seq<seq<int>>, rows: seq<seq<Candidate>>,
                            ord: seq<int>, row: seq<Candidate>)
    requires LowerRankRows(g, n, kNN, orders, rows) && |rows| < n
    requires SortedOrder(RowDists(g, |rows|), ord) && row == LowerRankRow(g, n, kNN, |rows|, ord)
    ensures LowerRankRows(g, n, kNN, orders + [ord], rows + [row])
  {
  }

  /** The graph lower_rank returns: rows that all satisfy LowerRankRowProperties. */
  lemma LowerRankGraph(g: SparseCoo, n: nat, kNN: nat, orders: seq<seq<int>>, rows: seq<seq<Candidate>>)
    requires LowerRankRows(g, n, kNN, orders, rows) && |rows| == n
    ensures WellFormed(Assemble(rows), n)
    ensures forall k :: 0 <= k < |Assemble(rows).iVec| ==> Assemble(rows).iVec[k] != Assemble(rows).jVec[k]
    ensures |Assemble(rows).iVec| <= |g.iVec|
  {
    forall r, k | 0 <= r < |rows| && 0 <= k < |rows[r]| ensures rows[r][k].j != r {
      LowerRankRowProperties(g, n, kNN, r, orders[r]);
    }
    AssembleWellFormed(rows);
    forall r | 0 <= r < |rows| ensures |rows[r]| <= RowStart(g, r + 1) - RowStart(g, r) {
      LowerRankRowProperties(g, n, kNN, r, orders[r]);
    }
    AssembleShorter(g, rows);
  }

  /**
   * Rows no longer than the rows of g assemble into no more entries than g
   * has.
   */
  lemma {:induction false} AssembleShorter(g: SparseCoo, rows: seq<seq<Candidate>>)
    requires forall r :: 0 <= r < |rows| ==> |rows[r]| <= RowStart(g, r + 1) - RowStart(g, r)
    ensures |Assemble(rows).iVec| <= RowStart(g, |rows|)
  {
    if rows != [] {
      var r := |rows| - 1;
      AssembleShorter(g, rows[..r]);
    }
  }

  /**
   * The inner loop of lower_rank for row i: walks the row's entries in the
   * order ord, skips the self pair and applies the kNN cap, appending each
   * accepted (dist, i, j) to the shared vectors.
   */
  method CapRow(i: int, n: nat, rrDists: seq<real>, rrOrd: seq<int>, jSparse: seq<int>, s: nat, kNN: nat,
                dists0: seq<real>, iVec0: seq<int>, jVec0: seq<int>)
    returns (dists: seq<real>, iVec: seq<int>, jVec: seq<int>)
    requires SortedOrder(rrDists, rrOrd) && i < n && s + |rrDists| <= |jSparse|
    ensures var row := Sparsify(i, RrCandidates(i, n, jSparse, s, rrDists, rrOrd), kNN, 0, -1.0);
      dists == dists0 + Dists(row) && iVec == iVec0 + RowOf(i, row) && jVec == jVec0 + Cols(row)
  {
    ghost var rc := RrCandidates(i, n, jSparse, s, rrDists, rrOrd);
    ghost var row := Sparsify(i, rc, kNN, 0, -1.0);
    ghost var acc: seq<Candidate> := [];
    dists, iVec, jVec := dists0, iVec0, jVec0;
    var uniqueNeighbors: nat := 0;
    var prevValue: real := -1.0;
    var rrIt := 0;
    while rrIt != |rrOrd|
      invariant 0 <= rrIt <= |rrOrd|
      invariant acc + Sparsify(i, rc[rrIt..], kNN, uniqueNeighbors, prevValue) == row
      invariant dists == dists0 + Dists(acc) && iVec == iVec0 + RowOf(i, acc) && jVec == jVec0 + Cols(acc)
    {
      var j: int, dist: real;
      j, dist := NextEntry(i, n, rrDists, rrOrd, jSparse, s, rrIt);
      rrIt := rrIt + 1;
      CapAdvance(i, Candidate(j, dist), rc[rrIt..], kNN, uniqueNeighbors, prevValue, acc, row);
      if j == i {
        continue;
      }
      var newVal := Abs(dist - prevValue) >= Epsilon;
      if uniqueNeighbors < kNN || !newVal {
        ProjectAppend(i, acc, Candidate(j, dist));
        AppendAssoc(dists0, Dists(acc), dist);
        AppendAssoc(iVec0, RowOf(i, acc), i);
        AppendAssoc(jVec0, Cols(acc), j);
        dists := dists + [dist];
        iVec := iVec + [i];
        jVec := jVec + [j];
        acc := acc + [Candidate(j, dist)];
        if newVal {
          uniqueNeighbors := uniqueNeighbors + 1;
          prevValue := dist;
        }
      } else {
        break;
      }
    }
  }

  /** Appending to a concatenation appends to its second part. */
  lemma AppendAssoc<T>(a: seq<T>, b: seq<T>, x: T)
    ensures (a + b) + [x] == a + (b + [x])
  {
  }

  /** Entry rrIt of row i in sorted order: its stored column and its distance. */
  method NextEntry(i: int, n: nat, rrDists: seq<real>, rrOrd: seq<int>, jSparse: seq<int>, s: nat, rrIt: nat)
    returns (j: int, dist: real)
    requires SortedOrder(rrDists, rrOrd) && i < n && s + |rrDists| <= |jSparse| && rrIt < |rrOrd|
    ensures var rc := RrCandidates(i, n, jSparse, s, rrDists, rrOrd);
      rc[rrIt..] == [Candidate(j, dist)] + rc[rrIt + 1..]
  {
    j := jSparse[s + rrOrd[rrIt]];
    dist := rrDists[rrOrd[rrIt]];
    ghost var rc := RrCandidates(i, n, jSparse, s, rrDists, rrOrd);
    assert rc[rrIt] == Candidate(j, dist);
    SplitHead(rc, rrIt);
  }

  /**
   * lower_rank: applies the cap of extend to every row of one sparse graph,
   * appending the accepted entries of row after row to shared vectors.
   */
  method LowerRank(g: SparseCoo, n: nat, kNN: nat)
    returns (out: SparseCoo, ghost orders: seq<seq<int>>, ghost rows: seq<seq<Candidate>>)
    requires WellFormed(g, n) && RowStartSafe(g.iVec, n)
    ensures LowerRankRows(g, n, kNN, orders, rows) && |rows| == n
    ensures out == Assemble(rows)
    ensures WellFormed(out, n) && |out.iVec| <= |g.iVec|
    ensures forall k :: 0 <= k < |out.iVec| ==> out.iVec[k] != out.jVec[k]
  {
    var rowStartIdx := RowStartIndices(g, n);
    var dists: seq<real> := [];
    var iVec: seq<int> := [];
    var jVec: seq<int> := [];
    var distVec := g.dists;
    var jSparse := g.jVec;
    orders, rows := [], [];
    for i := 0 to n
      invariant |rows| == i && LowerRankRows(g, n, kNN, orders, rows)
      invariant SparseCoo(iVec, jVec, dists) == Assemble(rows)
    {
      CountBelowMonotone(g.iVec, i, i + 1);
      var rrDists := distVec[rowStartIdx[i]..rowStartIdx[i + 1]];
      assert rrDists == RowDists(g, i);
      var rrOrderedIdx := SortIndexes(rrDists);
      dists, iVec, jVec := CapRow(i, n, rrDists, rrOrderedIdx, jSparse, rowStartIdx[i], kNN, dists, iVec, jVec);
      ghost var row := LowerRankRow(g, n, kNN, i, rrOrderedIdx);
      LowerRankRowsAppend(g, n, kNN, orders, rows, rrOrderedIdx, row);
      AssembleAppend(rows, row);
      orders := orders + [rrOrderedIdx];
      rows := rows + [row];
    }
    out := SparseCoo(iVec, jVec, dists);
    LowerRankGraph(g, n, kNN, orders, rows);
  }


  // ---------------------------------------------------------------------
  // Reducing a reduced graph again
  // ---------------------------------------------------------------------

  /** |Assemble(rows)| is the number of candidates in all rows. */
  lemma {:induction false} AssembleLength(rows: seq<seq<Candidate>>)
    ensures |Assemble(rows).iVec| == TotalLength(rows)
    decreases |rows|
  {
    if rows != [] {
      AssembleLength(rows[..|rows| - 1]);
    }
  }

  lemma {:induction false} CountBelowAppend(a: seq<int>, b: seq<int>, r: int)
    ensures CountBelow(a + b, r) == CountBelow(a, r) + CountBelow(b, r)
    decreases |a|
  {
    if a == [] {
      assert a + b == b;
    } else {
      assert (a + b)[0] == a[0] && (a + b)[1..] == a[1..] + b;
      CountBelowAppend(a[1..], b, r);
    }
  }

  /** All entries of one output row lie below r exactly when the row does. */
  lemma {:induction false} CountBelowRowOf(row: int, cs: seq<Candidate>, r: int)
    ensures CountBelow(RowOf(row, cs), r) == if row < r then |cs| else 0
    decreases |cs|
  {
    if cs != [] {
      assert RowOf(row, cs)[1..] == RowOf(row, cs[1..]);
      CountBelowRowOf(row, cs[1..], r);
    }
  }

  /** In an assembled graph, row i starts after the candidates of rows 0..i-1. */
  lemma {:induction false} AssembleRowStart(rows: seq<seq<Candidate>>, i: nat)
    requires i <= |rows|
    ensures RowStart(Assemble(rows), i) == TotalLength(rows[..i])
    decreases |rows|
  {
    if rows != [] {
      var r := |rows| - 1;
      var init := rows[..r];
      var a := Assemble(init);
      assert Assemble(rows).iVec == a.iVec + RowOf(r, rows[r]);
      CountBelowAppend(a.iVec, RowOf(r, rows[r]), i);
      CountBelowRowOf(r, rows[r], i);
      if i <= r {
        AssembleRowStart(init, i);
        assert init[..i] == rows[..i];
      } else {
        AssembleRowStart(init, r);
        assert init[..r] == init;
        AssembleLength(init);
        CountBelowMonotone(a.iVec, r, i);
        assert rows[..i] == rows;
      }
    }
  }

  /** Candidate k of row i sits at offset TotalLength(rows[..i]) + k of the assembled graph. */
  lemma {:induction false} AssembleEntry(rows: seq<seq<Candidate>>, i: nat, k: nat)
    requires i < |rows| && k < |rows[i]|
    ensures TotalLength(rows[..i]) + k < |Assemble(rows).iVec|
    ensures Assemble(rows).jVec[TotalLength(rows[..i]) + k] == rows[i][k].j
    ensures Assemble(rows).dists[TotalLength(rows[..i]) + k] == rows[i][k].dist
    decreases |rows|
  {
    var r := |rows| - 1;
    var init := rows[..r];
    var a := Assemble(init);
    assert Assemble(rows) == SparseCoo(a.iVec + RowOf(r, rows[r]), a.jVec + Cols(rows[r]), a.dists + Dists(rows[r]));
    AssembleLength(init);
    if i < r {
      AssembleEntry(init, i, k);
      assert init[..i] == rows[..i];
    } else {
      assert rows[..i] == init;
    }
  }

  /** Row i of an assembled graph holds exactly the candidates of rows[i], in order. */
  lemma AssembleRow(rows: seq<seq<Candidate>>, i: nat)
    requires i < |rows|
    ensures RowStart(Assemble(rows), i) + |rows[i]| == RowStart(Assemble(rows), i + 1)
    ensures RowDists(Assemble(rows), i) == Dists(rows[i])
    ensures forall k :: 0 <= k < |rows[i]| ==>
      Assemble(rows).jVec[RowStart(Assemble(rows), i) + k] == rows[i][k].j
  {
    AssembleRowStart(rows, i);
    AssembleRowStart(rows, i + 1);
    assert rows[..i + 1][..i] == rows[..i];
    forall k | 0 <= k < |rows[i]|
      ensures Assemble(rows).jVec[TotalLength(rows[..i]) + k] == rows[i][k].j
      ensures Assemble(rows).dists[TotalLength(rows[..i]) + k] == rows[i][k].dist
    {
      AssembleEntry(rows, i, k);
    }
  }

  /** The order of a row that is already sorted: every position stays where it is. */
  function KeepOrder(m: nat): (ord: seq<int>)
    ensures |ord| == m && forall k :: 0 <= k < m ==> ord[k] == k
  {
    seq(m, k => k)
  }

  /** The orders that keep every row of rows as it is. */
  function KeepOrders(rows: seq<seq<Candidate>>): (orders: seq<seq<int>>)
    ensures |orders| == |rows| && forall i :: 0 <= i < |rows| ==> orders[i] == KeepOrder(|rows[i]|)
  {
    seq(|rows|, i requires 0 <= i < |rows| => KeepOrder(|rows[i]|))
  }

  /**
   * Reducing row i of the reduced graph again, with the order that keeps
   * the already sorted row as it is, gives back the same row.
   */
  lemma LowerRankRowAgain(g: SparseCoo, n: nat, kNN: nat, orders: seq<seq<int>>, rows: seq<seq<Candidate>>, i: nat)
    requires LowerRankRows(g, n, kNN, orders, rows) && |rows| == n && i < n
    ensures WellFormed(Assemble(rows), n)
    ensures SortedOrder(RowDists(Assemble(rows), i), KeepOrder(|rows[i]|))
    ensures LowerRankRow(Assemble(rows), n, kNN, i, KeepOrder(|rows[i]|)) == rows[i]
  {
    LowerRankGraph(g, n, kNN, orders, rows);
    var x := RrCandidates(i, n, g.jVec, RowStart(g, i), RowDists(g, i), orders[i]);
    assert rows[i] == Sparsify(i, x, kNN, 0, -1.0);
    SparsifySorted(i, x, kNN, 0, -1.0);
    AssembleCandidates(rows, i);
    SparsifyIdempotent(i, x, kNN, 0, -1.0);
  }

  /**
   * The sorted row i of an assembled graph, read back with the order that
   * keeps it, gives exactly the candidates of rows[i].
   */
  lemma AssembleCandidates(rows: seq<seq<Candidate>>, i: nat)
    requires i < |rows| && SortedByDist(rows[i])
    ensures SortedOrder(RowDists(Assemble(rows), i), KeepOrder(|rows[i]|))
    ensures RowStart(Assemble(rows), i) + |RowDists(Assemble(rows), i)| <= |Assemble(rows).jVec|
    ensures RrCandidates(i, |rows|, Assemble(rows).jVec, RowStart(Assemble(rows), i),
                         RowDists(Assemble(rows), i), KeepOrder(|rows[i]|)) == rows[i]
  {
    var a := Assemble(rows);
    var id := KeepOrder(|rows[i]|);
    AssembleRow(rows, i);
    KeepOrderSorts(rows[i]);
    var rc := RrCandidates(i, |rows|, a.jVec, RowStart(a, i), RowDists(a, i), id);
    forall k | 0 <= k < |rows[i]| ensures rc[k] == rows[i][k] {
      assert rc[k] == Candidate(a.jVec[RowStart(a, i) + k], RowDists(a, i)[k]);
    }
  }

  /** Sorted candidates are sorted by the order that keeps every position. */
  lemma KeepOrderSorts(cs: seq<Candidate>)
    requires SortedByDist(cs)
    ensures SortedOrder(Dists(cs), KeepOrder(|cs|))
  {
  }

  /**
   * lower_rank is idempotent: the rows it produced are again the rows of
   * lower_rank over its own output, when each already sorted row is sorted
   * to itself.
   */
  lemma LowerRankIdempotent(g: SparseCoo, n: nat, kNN: nat, orders: seq<seq<int>>, rows: seq<seq<Candidate>>)
    requires LowerRankRows(g, n, kNN, orders, rows) && |rows| == n
    ensures LowerRankRows(Assemble(rows), n, kNN, KeepOrders(rows), rows)
  {
    LowerRankGraph(g, n, kNN, orders, rows);
    forall i | 0 <= i < n
      ensures SortedOrder(RowDists(Assemble(rows), i), KeepOrders(rows)[i])
      ensures rows[i] == LowerRankRow(Assemble(rows), n, kNN, i, KeepOrders(rows)[i])
    {
      LowerRankRowAgain(g, n, kNN, orders, rows, i);
    }
  }
}
