/** Removal of completed rows (script.js clearRows, the scan part). The scan
    is modelled step by step and proved equal to a direct description: the
    full rows are dropped, the others keep their order, and as many empty
    rows as were dropped are added on top. */
module Rows {
  import opened Matrix
  import opened Field

  /** Every cell of the row is occupied. */
  predicate Full(row: seq<int>) {
    forall c :: 0 <= c < |row| ==> row[c] != 0
  }

  predicate NoFullRow(g: Grid) {
    forall r :: 0 <= r < |g| ==> !Full(g[r])
  }

  /** Number of full rows. */
  function FullCount(rows: Grid): (n: nat)
    ensures n <= |rows|
  {
    if |rows| == 0 then 0 else (if Full(rows[0]) then 1 else 0) + FullCount(rows[1..])
  }

  /** The rows that are not full, in their original order. */
  function Survivors(rows: Grid): (s: Grid)
    ensures |s| + FullCount(rows) == |rows|
    ensures NoFullRow(s)
  {
    if |rows| == 0 then []
    else (if Full(rows[0]) then [] else [rows[0]]) + Survivors(rows[1..])
  }

  /** An empty row of the field's width. */
  function ZeroRow(): (row: seq<int>)
    ensures |row| == COLS && !Full(row)
  {
    assert seq(COLS, _ => 0)[0] == 0;
    seq(COLS, _ => 0)
  }

  function ZeroRows(n: nat): (z: Grid)
    ensures |z| == n && forall k :: 0 <= k < n ==> z[k] == ZeroRow()
  {
    seq(n, _ => ZeroRow())
  }

  /** The field after its full rows are removed: as many empty rows on top as
      there were full rows, then the surviving rows in order. */
  function Compacted(g: Grid): Grid {
    ZeroRows(FullCount(g)) + Survivors(g)
  }

  lemma {:induction false} FullCountConcat(a: Grid, b: Grid)
    ensures FullCount(a + b) == FullCount(a) + FullCount(b)
    ensures Survivors(a + b) == Survivors(a) + Survivors(b)
    decreases |a|
  {
    if |a| == 0 {
      assert a + b == b;
    } else {
      assert (a + b)[1..] == a[1..] + b;
      FullCountConcat(a[1..], b);
    }
  }

  /** A grid of COLS-wide rows. */
  predicate Wide(g: Grid) {
    IsRect(g, COLS, |g|)
  }

  /** `grid.splice(y, 1)[0].fill(0)` followed by `grid.unshift(row)`: row y
      is taken out, emptied and put back on top. */
  function Splice(g: Grid, y: int): (r: Grid)
    requires 0 <= y < |g|
    ensures |r| == |g| && r[0] == ZeroRow()
    ensures forall k :: 0 <= k < y ==> r[k + 1] == g[k]
    ensures r[y + 1..] == g[y + 1..]
  {
    [ZeroRow()] + g[..y] + g[y + 1..]
  }

  /** The `for (y = grid.length - 1; y >= 0; y--)` loop of clearRows, from
      row y upward with `cleared` rows counted so far. A full row at y is
      spliced out, emptied and put back on top, and y is examined again. */
  function ClearScan(g: Grid, y: int, cleared: nat): (res: (Grid, nat))
    requires Wide(g) && -1 <= y < |g|
    ensures |res.0| == |g| && Wide(res.0)
    ensures res.0[y + 1..] == g[y + 1..]
    ensures res.1 >= cleared
    decreases y + 1, FullCount(g[..y + 1])
  {
    if y < 0 then (g, cleared)
    else if Full(g[y]) then
      FullStep(g, y);
      ClearScan(Splice(g, y), y, cleared + 1)
    else
      var res := ClearScan(g, y - 1, cleared);
      assert res.0[y + 1..] == res.0[y..][1..];
      res
  }

  /** Compacting rows that end in a full row is compacting the rows above it
      with an empty row put on top, plus one. */
  lemma {:induction false} CompactFullLast(a: Grid, row: seq<int>)
    requires Full(row)
    ensures FullCount(a + [row]) == FullCount([ZeroRow()] + a) + 1
    ensures Compacted(a + [row]) == Compacted([ZeroRow()] + a)
  {
    FullCountConcat([ZeroRow()], a);
    FullCountConcat(a, [row]);
    assert [row][1..] == [] && [ZeroRow()][1..] == [];
    assert FullCount([row]) == 1 && Survivors([row]) == [];
    assert FullCount([ZeroRow()]) == 0 && Survivors([ZeroRow()]) == [ZeroRow()];
    var n := FullCount(a);
    assert ZeroRows(n) + [ZeroRow()] == ZeroRows(n + 1);
  }

  /** Compacting rows that end in a row that is not full keeps that row last. */
  lemma {:induction false} CompactKeepLast(a: Grid, row: seq<int>)
    requires !Full(row)
    ensures FullCount(a + [row]) == FullCount(a)
    ensures Compacted(a + [row]) == Compacted(a) + [row]
  {
    FullCountConcat(a, [row]);
    assert [row][1..] == [];
    assert FullCount([row]) == 0 && Survivors([row]) == [row];
  }

  /** One step of the scan at a full row y: the spliced field is still
      COLS wide and its rows 0..y compact to what rows 0..y compacted to. */
  lemma {:induction false} FullStep(g: Grid, y: int)
    requires Wide(g) && 0 <= y < |g| && Full(g[y])
    ensures Wide(Splice(g, y))
    ensures Splice(g, y)[y + 1..] == g[y + 1..]
    ensures Compacted(Splice(g, y)[..y + 1]) == Compacted(g[..y + 1])
    ensures FullCount(Splice(g, y)[..y + 1]) + 1 == FullCount(g[..y + 1])
  {
    var g' := Splice(g, y);
    assert g'[..y + 1] == [ZeroRow()] + g[..y];
    assert g[..y + 1] == g[..y] + [g[y]];
    CompactFullLast(g[..y], g[y]);
  }

  /** One step of the scan at a row y that is not full. */
  lemma {:induction false} KeepStep(g: Grid, y: int)
    requires 0 <= y < |g| && !Full(g[y])
    ensures Compacted(g[..y]) + g[y..] == Compacted(g[..y + 1]) + g[y + 1..]
    ensures FullCount(g[..y]) == FullCount(g[..y + 1])
  {
    assert g[..y + 1] == g[..y] + [g[y]];
    assert g[y..] == [g[y]] + g[y + 1..];
    CompactKeepLast(g[..y], g[y]);
    var c := Compacted(g[..y]);
    assert (c + [g[y]]) + g[y + 1..] == c + ([g[y]] + g[y + 1..]);
  }

  /** The scan from row y upward compacts rows 0..y and leaves the rows below
      y as they are. */
  lemma {:induction false} ClearScanCompacts(g: Grid, y: int, cleared: nat)
    requires Wide(g) && -1 <= y < |g|
    ensures ClearScan(g, y, cleared) == (Compacted(g[..y + 1]) + g[y + 1..], cleared + FullCount(g[..y + 1]))
    decreases y + 1, FullCount(g[..y + 1])
  {
    if y < 0 {
      assert g[..y + 1] == [];
      assert g[y + 1..] == g;
      assert Compacted([]) == ZeroRows(0) + Survivors([]) == [];
      assert FullCount([]) == 0;
      assert ClearScan(g, y, cleared) == (g, cleared);
      assert Compacted(g[..y + 1]) + g[y + 1..] == g;
    } else if Full(g[y]) {
      FullStep(g, y);
      ClearScanCompacts(Splice(g, y), y, cleared + 1);
    } else {
      KeepStep(g, y);
      ClearScanCompacts(g, y - 1, cleared);
    }
  }

  /** `clearRows`' scan over a field of COLS-wide rows: the compacted field
      and the number of rows removed. */
  function ClearRows(g: Grid): (res: (Grid, nat))
    requires Wide(g)
    ensures res.0 == Compacted(g) && res.1 == FullCount(g)
  {
    ClearScanCompacts(g, |g| - 1, 0);
    assert g[..|g|] == g;
    ClearScan(g, |g| - 1, 0)
  }

  /** What compaction promises: the row count and row width are kept, no full
      row remains, the top rows (one per removed row) are empty, and below
      them come the rows that were not full, in their original order. Cell
      values are kept. */
  lemma CompactedShape(g: Grid)
    requires Wide(g)
    ensures |Compacted(g)| == |g| && Wide(Compacted(g))
    ensures NoFullRow(Compacted(g)) && FullCount(Compacted(g)) == 0
    ensures forall r :: 0 <= r < FullCount(g) ==> Compacted(g)[r] == ZeroRow()
    ensures Compacted(g)[FullCount(g)..] == Survivors(g)
    ensures forall lo, hi :: CellsIn(g, lo, hi) && lo <= 0 <= hi ==> CellsIn(Compacted(g), lo, hi)
    ensures NoFullRow(g) ==> Compacted(g) == g
  {
    SurvivorsAreRows(g);
    NoFullRowCount(Compacted(g));
    if NoFullRow(g) {
      NoFullRowSurvive(g);
    }
  }

  /** Each surviving row is a row of the input. */
  lemma {:induction false} SurvivorsAreRows(g: Grid)
    ensures forall k :: 0 <= k < |Survivors(g)| ==> exists r :: 0 <= r < |g| && Survivors(g)[k] == g[r]
    decreases |g|
  {
    if |g| > 0 {
      SurvivorsAreRows(g[1..]);
      var s := Survivors(g);
      var t := Survivors(g[1..]);
      assert Full(g[0]) ==> s == t;
      assert !Full(g[0]) ==> s == [g[0]] + t;
      forall k | 0 <= k < |s|
        ensures exists r :: 0 <= r < |g| && s[k] == g[r]
      {
        if Full(g[0]) {
          var r :| 0 <= r < |g[1..]| && t[k] == g[1..][r];
          assert s[k] == g[r + 1];
        } else if k == 0 {
          assert s[k] == g[0];
        } else {
          assert k - 1 < |t|;
          var r :| 0 <= r < |g[1..]| && t[k - 1] == g[1..][r];
          assert s[k] == g[r + 1];
        }
      }
    } else {
      assert Survivors(g) == [];
    }
  }

  lemma {:induction false} NoFullRowCount(g: Grid)
    requires NoFullRow(g)
    ensures FullCount(g) == 0
    decreases |g|
  {
    if |g| > 0 {
      NoFullRowCount(g[1..]);
    }
  }

  lemma {:induction false} NoFullRowSurvive(g: Grid)
    requires NoFullRow(g)
    ensures Survivors(g) == g && FullCount(g) == 0
    decreases |g|
  {
    if |g| > 0 {
      NoFullRowSurvive(g[1..]);
      assert g == [g[0]] + g[1..];
    }
  }

  /** If every full row has its index in lo..hi-1, at most that many rows of
      the range that exist can be full. */
  lemma {:induction false} FullCountInRange(g: Grid, lo: int, hi: int)
    requires forall r :: 0 <= r < |g| && Full(g[r]) ==> lo <= r < hi
    ensures FullCount(g) <= if hi <= lo || hi <= 0 then 0 else hi - (if lo < 0 then 0 else lo)
    decreases |g|
  {
    if |g| > 0 {
      forall r | 0 <= r < |g[1..]| && Full(g[1..][r])
        ensures lo - 1 <= r < hi - 1
      {
        assert g[1..][r] == g[r + 1];
      }
      FullCountInRange(g[1..], lo - 1, hi - 1);
    }
  }

  /** A full row anywhere makes the count positive. */
  lemma {:induction false} FullCountPositive(g: Grid, r: int)
    requires 0 <= r < |g| && Full(g[r])
    ensures FullCount(g) >= 1
    decreases r
  {
    if r > 0 && !Full(g[0]) {
      assert g[1..][r - 1] == g[r];
      FullCountPositive(g[1..], r - 1);
    }
  }

  /** No row is removed exactly when no row is full. */
  lemma {:induction false} FullCountZero(g: Grid)
    ensures FullCount(g) == 0 <==> NoFullRow(g)
  {
    if NoFullRow(g) {
      NoFullRowCount(g);
    } else {
      var r :| 0 <= r < |g| && Full(g[r]);
      FullCountPositive(g, r);
    }
  }
}
