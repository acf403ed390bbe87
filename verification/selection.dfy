/**
 Selection decoding of the library tab (`ApolloTabFunctions` in
 apollo/app/tab_manager.py).

 A table view reports its selection as one flat sequence of cells, which
 the code assumes is row-major. The decoder knows only the row width `n`, the number of declared
 database fields, and recovers either whole rows (`_GetSelectionIndexes`)
 or the values of one named column (`_ColumnSelection`). Neither operation
 checks that the selection is rectangular: a trailing partial row is
 silently dropped by the row decoder, and the strided column slice may pick
 one value out of it.
 */
module Selection {
  import opened Wrappers

  /** The only error the decoder raises: the column name is not a declared field
      (Python's `list.index` raising `ValueError`). */
  datatype SelectionError = ColumnNotFound(name: string)

  /** `k * n`, written as repeated addition so that the solver reasons about
      positions linearly; `TimesIsMultiplication` ties it to `*`. */
  function Times(k: nat, n: nat): nat
  {
    if k == 0 then 0 else Times(k - 1, n) + n
  }

  /** The position of element `i` of the slice `s[start::step]`. */
  function SlicePos(start: nat, step: nat, i: nat): nat
  {
    start + Times(i, step)
  }

  /** The position of the first cell of row `k` when rows are `n` cells wide. */
  function RowStart(n: nat, k: nat): nat
  {
    Times(k, n)
  }

  // ---------------------------------------------------------------------------
  // Arithmetic facts about positions and floor division
  // ---------------------------------------------------------------------------

  lemma {:induction false} TimesIsMultiplication(k: nat, n: nat)
    ensures Times(k, n) == k * n
  {
    if k > 0 {
      TimesIsMultiplication(k - 1, n);
      assert k * n == (k - 1) * n + n;
    }
  }

  lemma SlicePosShift(start: nat, step: nat, i: nat)
    ensures SlicePos(start + step, step, i) == SlicePos(start, step, i + 1)
  {
  }

  lemma {:induction false} SlicePosMonotone(start: nat, step: nat, i: nat, j: nat)
    requires i <= j
    ensures SlicePos(start, step, i) <= SlicePos(start, step, j)
    decreases j - i
  {
    if i < j {
      SlicePosMonotone(start, step, i, j - 1);
    }
  }

  /** A quotient and remainder of `x` by `n` are unique. */
  lemma QuotientUnique(x: nat, n: nat, d: nat, m: nat, q: nat)
    requires x == Times(d, n) + m && m < n
    requires Times(q, n) <= x < Times(q, n) + n
    ensures d == q
  {
    if d < q {
      SlicePosMonotone(0, n, d + 1, q);
    } else if d > q {
      SlicePosMonotone(0, n, q + 1, d);
    }
  }

  /** The bracket that characterises `x / n`, and the remainder it leaves. */
  lemma FloorDivBracket(x: nat, n: nat)
    requires n > 0
    ensures Times(x / n, n) <= x < Times(x / n, n) + n
    ensures x == Times(x / n, n) + x % n
  {
    TimesIsMultiplication(x / n, n);
  }

  /** Floor division is pinned down by the bracket `q*n <= x < q*n + n`. */
  lemma FloorDivUnique(x: nat, n: nat, q: nat)
    requires n > 0
    requires Times(q, n) <= x < Times(q, n) + n
    ensures x / n == q
  {
    FloorDivBracket(x, n);
    QuotientUnique(x, n, x / n, x % n, q);
  }

  /** The number of whole rows of `n` cells in `x` cells: Python's
      `int(x / n)` for the non-negative lengths it is applied to. */
  function WholeRows(x: nat, n: nat): nat
    requires n > 0
    decreases x
  {
    if x < n then 0 else WholeRows(x - n, n) + 1
  }

  /** `WholeRows(x, n)` is the `q` with `q*n <= x < q*n + n`. */
  lemma {:induction false} WholeRowsBracket(x: nat, n: nat)
    requires n > 0
    ensures RowStart(n, WholeRows(x, n)) <= x < RowStart(n, WholeRows(x, n)) + n
    decreases x
  {
    if x >= n {
      WholeRowsBracket(x - n, n);
    }
  }

  /** The number of cells in the trailing partial row of `x` cells. */
  function PartialRow(x: nat, n: nat): (m: nat)
    requires n > 0
    ensures m < n
  {
    WholeRowsBracket(x, n);
    x - RowStart(n, WholeRows(x, n))
  }

  /** `WholeRows` and `PartialRow` are floor division and its remainder. */
  lemma WholeRowsIsDivision(x: nat, n: nat)
    requires n > 0
    ensures WholeRows(x, n) == x / n
    ensures PartialRow(x, n) == x % n
  {
    WholeRowsBracket(x, n);
    FloorDivUnique(x, n, WholeRows(x, n));
    FloorDivBracket(x, n);
  }

  // ---------------------------------------------------------------------------
  // Python's `list.index`
  // ---------------------------------------------------------------------------

  /** The first position of `x` in `xs`, or `None` when `x` does not occur. */
  function IndexOf<T(==)>(xs: seq<T>, x: T): (r: Option<nat>)
    ensures r.None? <==> x !in xs
    ensures r.Some? ==> r.value < |xs| && xs[r.value] == x
    ensures r.Some? ==> forall j :: 0 <= j < r.value ==> xs[j] != x
  {
    if |xs| == 0 then None
    else if xs[0] == x then Some(0)
    else
      match IndexOf(xs[1..], x)
      case None => None
      case Some(k) => Some(k + 1)
  }

  // ---------------------------------------------------------------------------
  // The strided slice `s[start::step]`
  // ---------------------------------------------------------------------------

  /** Python's extended slice `s[start::step]` for a non-negative start and a
      positive step: the cells at `start`, `start + step`, `start + 2*step`, ...
      that lie inside `s`. */
  function Stride<T>(s: seq<T>, start: nat, step: nat): (r: seq<T>)
    requires step > 0
    ensures |r| == 0 <==> start >= |s|
    ensures forall i :: 0 <= i < |r| ==>
              SlicePos(start, step, i) < |s| && r[i] == s[SlicePos(start, step, i)]
    ensures SlicePos(start, step, |r|) >= |s|
    decreases |s| - start
  {
    if start >= |s| then []
    else
      var next := start + step;
      var rest := Stride(s, next, step);
      var r := [s[start]] + rest;
      assert forall i :: 0 < i < |r| ==> r[i] == rest[i - 1];
      forall i | 0 < i < |r|
        ensures SlicePos(start, step, i) == SlicePos(next, step, i - 1)
      {
        SlicePosShift(start, step, i - 1);
      }
      SlicePosShift(start, step, |rest|);
      r
  }

  /** The slice holds exactly the positions `start + i*step` that lie below `|s|`. */
  lemma StrideIndices<T>(s: seq<T>, start: nat, step: nat)
    requires step > 0
    ensures forall i: nat :: i < |Stride(s, start, step)| <==> SlicePos(start, step, i) < |s|
  {
    var r := Stride(s, start, step);
    forall i: nat
      ensures i < |r| <==> SlicePos(start, step, i) < |s|
    {
      if i >= |r| {
        SlicePosMonotone(start, step, |r|, i);
      }
    }
  }

  /** The number of cells the slice picks: `ceil((|s| - start) / step)`, and none
      when `start` lies at or beyond the end. */
  lemma StrideLength<T>(s: seq<T>, start: nat, step: nat)
    requires step > 0
    ensures |Stride(s, start, step)| == if start < |s| then (|s| - start - 1) / step + 1 else 0
  {
    var r := |Stride(s, start, step)|;
    if start < |s| {
      assert SlicePos(start, step, r - 1) < |s|;
      FloorDivUnique(|s| - start - 1, step, r - 1);
    }
  }

  // ---------------------------------------------------------------------------
  // Cutting the selection into rows
  // ---------------------------------------------------------------------------

  /** The selection cut into consecutive rows of `n` cells; a trailing partial
      row is dropped. */
  function Rows<T>(s: seq<T>, n: nat): (r: seq<seq<T>>)
    requires n > 0
    ensures |r| == WholeRows(|s|, n)
    ensures forall k :: 0 <= k < |r| ==> |r[k]| == n
    decreases |s|
  {
    if |s| < n then [] else [s[..n]] + Rows(s[n..], n)
  }

  /** Row `k` is the contiguous slice `s[k*n .. (k+1)*n]`. */
  lemma {:induction false} RowIsSlice<T>(s: seq<T>, n: nat, k: nat)
    requires n > 0 && k < |Rows(s, n)|
    ensures RowStart(n, k) + n <= |s|
    ensures Rows(s, n)[k] == s[RowStart(n, k) .. RowStart(n, k) + n]
    decreases k
  {
    RowsUnfold(s, n);
    if k > 0 {
      var tail := s[n..];
      RowIsSlice(tail, n, k - 1);
      DropThenSlice(s, n, RowStart(n, k - 1), n);
    }
  }

  /** One step of the chunking: the first row, then the rows of the rest. */
  lemma RowsUnfold<T>(s: seq<T>, n: nat)
    requires n > 0 && n <= |s|
    ensures Rows(s, n) == [s[..n]] + Rows(s[n..], n)
  {
  }

  lemma DropThenSlice<T>(s: seq<T>, d: nat, b: nat, len: nat)
    requires d + b + len <= |s|
    ensures s[d..][b .. b + len] == s[d + b .. d + b + len]
  {
  }

  /** The rows laid end to end again. */
  function Flatten<T>(rows: seq<seq<T>>): seq<T>
  {
    if |rows| == 0 then [] else rows[0] + Flatten(rows[1..])
  }

  /** Laying the decoded rows end to end gives back the selection up to its last
      whole row; only the cells of a trailing partial row are left over. */
  lemma {:induction false} RowsCoverWholeRows<T>(s: seq<T>, n: nat)
    requires n > 0
    ensures RowStart(n, WholeRows(|s|, n)) <= |s|
    ensures Flatten(Rows(s, n)) == s[..RowStart(n, WholeRows(|s|, n))]
    decreases |s|
  {
    if |s| >= n {
      var tail := s[n..];
      var rows := Rows(s, n);
      assert rows[1..] == Rows(tail, n);
      RowsCoverWholeRows(tail, n);
      var m := RowStart(n, WholeRows(|tail|, n));
      assert RowStart(n, WholeRows(|s|, n)) == n + m;
      calc {
        Flatten(rows);
        rows[0] + Flatten(rows[1..]);
        s[..n] + tail[..m];
        s[..n + m];
      }
    }
  }

  /** The decoder drops exactly the partial row: the rows laid end to end,
      followed by the last `len % n` cells, are the whole selection. */
  lemma RowsDropOnlyPartialRow<T>(s: seq<T>, n: nat)
    requires n > 0
    ensures RowStart(n, WholeRows(|s|, n)) <= |s|
    ensures var rest := s[RowStart(n, WholeRows(|s|, n))..];
            Flatten(Rows(s, n)) + rest == s && |rest| == PartialRow(|s|, n)
  {
    RowsCoverWholeRows(s, n);
    var p := RowStart(n, WholeRows(|s|, n));
    assert s[..p] + s[p..] == s;
  }

  /** `_GetSelectionIndexes`: walk the selection one row width at a time, keeping
      `int(len(selected) / offset)` rows. */
  method GetSelectionIndexes<T>(fields: seq<string>, selected: seq<T>) returns (table: seq<seq<T>>)
    requires |fields| > 0
    ensures |table| == WholeRows(|selected|, |fields|)
    ensures forall k :: 0 <= k < |table| ==>
              RowStart(|fields|, k) + |fields| <= |selected|
              && table[k] == selected[RowStart(|fields|, k) .. RowStart(|fields|, k) + |fields|]
    ensures table == Rows(selected, |fields|)
  {
    var start := 0;
    var end := |fields|;
    var offset := |fields|;
    table := [];
    var count := |selected| / offset;
    WholeRowsIsDivision(|selected|, offset);
    var i := 0;
    while i < count
      invariant i <= count
      invariant start == RowStart(offset, i) && end == start + offset
      invariant |table| == i
      invariant forall k :: 0 <= k < i ==>
                  RowStart(offset, k) + offset <= |selected|
                  && table[k] == selected[RowStart(offset, k) .. RowStart(offset, k) + offset]
    {
      SlicePosMonotone(0, offset, i + 1, count);
      var data := selected[start..end];
      start := start + offset;
      end := end + offset;
      table := table + [data];
      i := i + 1;
    }
    RowsUnique(selected, offset, table);
  }

  /** A table of `WholeRows(|s|, n)` rows whose row `k` is the slice
      `s[k*n .. (k+1)*n]` is the recursive chunking `Rows(s, n)`: the loop of
      `_GetSelectionIndexes` and the recursion decode the same rows. */
  lemma RowsUnique<T>(s: seq<T>, n: nat, table: seq<seq<T>>)
    requires n > 0
    requires |table| == WholeRows(|s|, n)
    requires forall k :: 0 <= k < |table| ==>
               RowStart(n, k) + n <= |s| && table[k] == s[RowStart(n, k) .. RowStart(n, k) + n]
    ensures table == Rows(s, n)
  {
    forall k | 0 <= k < |table|
      ensures table[k] == Rows(s, n)[k]
    {
      RowIsSlice(s, n, k);
    }
  }

  // ---------------------------------------------------------------------------
  // Selecting one column
  // ---------------------------------------------------------------------------

  /** Column `c` of every row. */
  function Column<T>(rows: seq<seq<T>>, c: nat): seq<T>
    requires forall k :: 0 <= k < |rows| ==> c < |rows[k]|
  {
    seq(|rows|, k requires 0 <= k < |rows| => rows[k][c])
  }

  /** The strided slice for a column `c < n` has one cell per whole row, plus
      one when the trailing partial row reaches column `c`. */
  lemma StrideCountVsRows<T>(s: seq<T>, n: nat, c: nat)
    requires c < n
    ensures |Stride(s, c, n)| == if PartialRow(|s|, n) <= c then WholeRows(|s|, n) else WholeRows(|s|, n) + 1
  {
    var q := WholeRows(|s|, n);
    var st := Stride(s, c, n);
    WholeRowsBracket(|s|, n);
    StrideIndices(s, c, n);
    if q > 0 {
      SlicePosShift(c, n, q - 1);
      assert SlicePos(c, n, q - 1) < |s|;
    }
    if PartialRow(|s|, n) <= c {
      assert SlicePos(c, n, q) >= |s|;
    } else {
      assert SlicePos(c, n, q) < |s|;
      SlicePosShift(c, n, q);
      assert SlicePos(c, n, q + 1) >= |s|;
    }
  }

  /** Cell `k` of the strided slice is cell `c` of row `k`. */
  lemma StrideCellIsRowCell<T>(s: seq<T>, n: nat, c: nat, k: nat)
    requires c < n && k < |Rows(s, n)|
    ensures k < |Stride(s, c, n)| && Stride(s, c, n)[k] == Rows(s, n)[k][c]
  {
    var b := RowStart(n, k);
    RowIsSlice(s, n, k);
    assert Rows(s, n)[k][c] == s[b + c];
    assert SlicePos(c, n, k) == b + c;
    StrideIndices(s, c, n);
    assert k < |Stride(s, c, n)|;
  }

  /** The strided slice is the projection of the decoded rows onto column `c`,
      except when the trailing partial row reaches column `c`: then the slice
      carries that one extra cell. */
  lemma StrideIsColumnOfRows<T>(s: seq<T>, n: nat, c: nat)
    requires c < n
    ensures PartialRow(|s|, n) <= c ==> Stride(s, c, n) == Column(Rows(s, n), c)
    ensures PartialRow(|s|, n) > c ==>
              RowStart(n, WholeRows(|s|, n)) + c < |s|
              && Stride(s, c, n) == Column(Rows(s, n), c) + [s[RowStart(n, WholeRows(|s|, n)) + c]]
  {
    var q := WholeRows(|s|, n);
    var st := Stride(s, c, n);
    var col := Column(Rows(s, n), c);
    StrideCountVsRows(s, n, c);
    forall k | 0 <= k < q
      ensures st[k] == col[k]
    {
      StrideCellIsRowCell(s, n, c, k);
    }
    if PartialRow(|s|, n) > c {
      assert st[q] == s[SlicePos(c, n, q)];
    }
  }

  /** The index `_ColumnSelection` uses: the first position of `name` in `fields`. */
  function ColumnIndex(fields: seq<string>, name: string): (c: nat)
    requires name in fields
    ensures c < |fields| && fields[c] == name
    ensures forall j :: 0 <= j < c ==> fields[j] != name
  {
    IndexOf(fields, name).value
  }

  /** `_ColumnSelection`: the values of column `name` taken from the flat
      selection with a stride of `|fields|`, or the error `fields.index(name)`
      raises when `name` is not a declared field. */
  function ColumnSelection<T>(fields: seq<string>, cells: seq<T>, name: string)
    : (r: Result<seq<T>, SelectionError>)
    ensures r.Failure? <==> name !in fields
    ensures r.Failure? ==> r.error == ColumnNotFound(name)
    ensures r.Success? ==>
              forall i :: 0 <= i < |r.value| ==>
                SlicePos(ColumnIndex(fields, name), |fields|, i) < |cells|
                && r.value[i] == cells[SlicePos(ColumnIndex(fields, name), |fields|, i)]
    ensures r.Success? ==> SlicePos(ColumnIndex(fields, name), |fields|, |r.value|) >= |cells|
  {
    match IndexOf(fields, name)
    case None => Failure(ColumnNotFound(name))
    case Some(c) => Success(Stride(cells, c, |fields|))
  }

  /** On a rectangular selection, `_ColumnSelection` agrees with decoding the rows
      with `_GetSelectionIndexes` and reading the named column of each. */
  lemma ColumnSelectionIsColumnOfRows<T>(fields: seq<string>, cells: seq<T>, name: string)
    requires name in fields
    requires PartialRow(|cells|, |fields|) == 0
    ensures ColumnSelection(fields, cells, name)
            == Success(Column(Rows(cells, |fields|), ColumnIndex(fields, name)))
  {
    StrideIsColumnOfRows(cells, |fields|, ColumnIndex(fields, name));
  }

  /** The column selection with positions written as plain arithmetic: value
      `i` is `cells[c + i*n]` for the first index `c` of the name. */
  lemma ColumnSelectionAtMultiples<T>(fields: seq<string>, cells: seq<T>, name: string)
    requires name in fields
    ensures var c := ColumnIndex(fields, name);
            var r := ColumnSelection(fields, cells, name);
            && r.Success?
            && (forall i :: 0 <= i < |r.value| ==>
                  c + i * |fields| < |cells| && r.value[i] == cells[c + i * |fields|])
            && c + |r.value| * |fields| >= |cells|
  {
    var c := ColumnIndex(fields, name);
    var r := ColumnSelection(fields, cells, name);
    forall i | 0 <= i < |r.value|
      ensures c + i * |fields| < |cells| && r.value[i] == cells[c + i * |fields|]
    {
      TimesIsMultiplication(i, |fields|);
      assert SlicePos(c, |fields|, i) == c + i * |fields|;
      assert r.value[i] == cells[SlicePos(c, |fields|, i)];
    }
    TimesIsMultiplication(|r.value|, |fields|);
  }

  /** The decoded rows with positions written as plain arithmetic: there are
      `len / n` of them and row `k` is `s[k*n .. k*n + n]`. */
  lemma RowsAtMultiples<T>(s: seq<T>, n: nat)
    requires n > 0
    ensures |Rows(s, n)| == |s| / n
    ensures forall k :: 0 <= k < |Rows(s, n)| ==>
              k * n + n <= |s| && Rows(s, n)[k] == s[k * n .. k * n + n]
  {
    WholeRowsIsDivision(|s|, n);
    forall k | 0 <= k < |Rows(s, n)|
      ensures k * n + n <= |s| && Rows(s, n)[k] == s[k * n .. k * n + n]
    {
      RowIsSlice(s, n, k);
      TimesIsMultiplication(k, n);
    }
  }
}
