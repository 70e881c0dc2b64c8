/** The kernel part that every address space starts with. */
module KernelMap {
  import opened PageTable
  import opened PageRange

  /** A row of kmap, counted in pages. */
  datatype Row = Row(first: nat, n: nat, frame: nat, perm: set<nat>)

  /** kmap: I/O space, kernel text, kernel data and free memory, devices.
      data is the physical page where the kernel's data starts. */
  function Kmap(data: nat): (rows: seq<Row>)
    requires 0x100 < data < 0xE000
    ensures |rows| == 4
  {
    [Row(0x80000, 0x100, 0, {W}),
     Row(0x80100, data - 0x100, 0x100, {}),
     Row(0x80000 + data, 0xE000 - data, data, {W}),
     Row(0xFE000, 0x2000, 0xFE000, {W})]
  }

  ghost function RowWrites(r: Row): seq<Write>
    requires r.first + r.n <= NPAGES
  {
    Maps(r.first, r.n, r.frame, r.perm)
  }

  ghost function EmptyView(): seq<Table> {
    seq(N, _ => ZeroTable())
  }

  /** The view after the first k rows. */
  ghost function KernelView(data: nat, k: nat): (v: seq<Table>)
    requires 0x100 < data < 0xE000 && k <= 4
    ensures |v| == N
  {
    if k == 0 then EmptyView() else Wrote(KernelView(data, k - 1), RowWrites(Kmap(data)[k - 1]))
  }

  /** The page tables that the first k rows need. */
  ghost function KernelTables(data: nat, k: nat): set<nat>
    requires 0x100 < data < 0xE000 && k <= 4
  {
    if k == 0 then {} else KernelTables(data, k - 1) + Touched(RowWrites(Kmap(data)[k - 1]))
  }

  ghost predicate Between(lo: nat, i: nat, hi: nat) {
    lo <= i < hi
  }

  ghost function Span(lo: nat, hi: nat): (r: set<nat>)
    ensures forall i :: i in r <==> lo <= i < hi
  {
    set i: nat | lo <= i < hi && Between(lo, i, hi)
  }

  lemma {:induction false} SpanSize(lo: nat, hi: nat)
    requires lo <= hi
    ensures |Span(lo, hi)| == hi - lo
    decreases hi
  {
    if lo < hi {
      SpanSize(lo, hi - 1);
      assert Span(lo, hi) == Span(lo, hi - 1) + {hi - 1};
    }
  }

  lemma TouchedSpan(ws: seq<Write>, first: nat, lo: nat, hi: nat)
    requires Consecutive(ws, first) && ws != [] && N * lo <= first < N * (lo + 1)
        && N * (hi - 1) < first + |ws| <= N * hi
    ensures Touched(ws) == Span(lo, hi)
  {
    forall i | i in Touched(ws)
      ensures lo <= i < hi
    {
      var k := TouchedOnly(ws, i);
    }
    forall i | lo <= i < hi
      ensures i in Touched(ws)
    {
      var k := if N * i <= first then 0 else N * i - first;
      TouchedAll(ws, k);
    }
  }

  /** The pages of row k. */
  ghost predicate InRow(data: nat, k: nat, vp: nat)
    requires 0x100 < data < 0xE000 && k < 4
  {
    Kmap(data)[k].first <= vp < Kmap(data)[k].first + Kmap(data)[k].n
  }

  ghost predicate InNoRow(data: nat, k: nat, vp: nat)
    requires 0x100 < data < 0xE000 && k <= 4
  {
    forall r: nat :: r < k ==> !InRow(data, r, vp)
  }

  ghost function RowEntry(r: Row, vp: nat): Pte
    requires r.first <= vp
  {
    Pte(r.frame + (vp - r.first), r.perm + {P})
  }

  lemma RowAt(v: seq<Table>, row: Row, i: nat, j: nat, vp: nat)
    requires |v| == N && row.first + row.n <= NPAGES && i < N && j < N && vp == N * i + j
    ensures Wrote(v, RowWrites(row))[i][j] == if row.first <= vp < row.first + row.n then RowEntry(row, vp) else v[i][j]
  {
    WroteAt(v, RowWrites(row), row.first, i, j);
    if row.first <= vp < row.first + row.n {
      MapsAt(row.first, row.n, row.frame, row.perm, vp - row.first, row.frame + (vp - row.first));
    }
  }

  /** What the kernel part maps: each page of a row to its frame with the row's
      permissions, and nothing else. */
  lemma {:induction false} KernelViewAt(data: nat, k: nat, i: nat, j: nat, vp: nat)
    requires 0x100 < data < 0xE000 && k <= 4 && i < N && j < N && vp == N * i + j
    ensures InNoRow(data, k, vp) ==> KernelView(data, k)[i][j] == ZERO
    ensures forall r: nat :: r < k && InRow(data, r, vp) ==> KernelView(data, k)[i][j] == RowEntry(Kmap(data)[r], vp)
  {
    if k > 0 {
      KernelViewAt(data, k - 1, i, j, vp);
      RowAt(KernelView(data, k - 1), Kmap(data)[k - 1], i, j, vp);
      RowsApart(data, k, vp);
      assert KernelView(data, k) == Wrote(KernelView(data, k - 1), RowWrites(Kmap(data)[k - 1]));
      assert InRow(data, k - 1, vp) ==> KernelView(data, k)[i][j] == RowEntry(Kmap(data)[k - 1], vp);
      assert !InRow(data, k - 1, vp) ==> KernelView(data, k)[i][j] == KernelView(data, k - 1)[i][j];
      forall r: nat | r < k && InRow(data, r, vp)
        ensures KernelView(data, k)[i][j] == RowEntry(Kmap(data)[r], vp)
      {
        assert r < k - 1 ==> !InRow(data, k - 1, vp);
      }
      assert InNoRow(data, k, vp) ==> !InRow(data, k - 1, vp) && InNoRow(data, k - 1, vp);
    }
  }

  lemma RowsApart(data: nat, k: nat, vp: nat)
    requires 0x100 < data < 0xE000 && 0 < k <= 4
    ensures InRow(data, k - 1, vp) ==> InNoRow(data, k - 1, vp)
  {
  }

  lemma RowTables(row: Row, lo: nat, hi: nat)
    requires row.n > 0 && row.first + row.n <= NPAGES && N * lo <= row.first < N * (lo + 1)
        && N * (hi - 1) < row.first + row.n <= N * hi
    ensures Touched(RowWrites(row)) == Span(lo, hi)
  {
    TouchedSpan(RowWrites(row), row.first, lo, hi);
  }

  lemma ThreeSpans(a: nat, b: nat)
    requires 512 <= a <= b <= 568 && 513 <= b
    ensures Span(512, 513) + Span(512, b) + Span(a, 568) == Span(512, 568)
  {
  }

  /** 64 page tables: 56 for the memory from KERNBASE on, 8 for the devices. */
  lemma KernelTablesAre(data: nat)
    requires 0x100 < data < 0xE000
    ensures KernelTables(data, 4) == Span(512, 568) + Span(1016, 1024) && |KernelTables(data, 4)| == 64
  {
    var a, b := 512 + data / N, 512 + (data + N - 1) / N;
    RowTables(Kmap(data)[0], 512, 513);
    RowTables(Kmap(data)[1], 512, b);
    RowTables(Kmap(data)[2], a, 568);
    RowTables(Kmap(data)[3], 1016, 1024);
    FourTables(data);
    ThreeSpans(a, b);
    SpanSize(512, 568);
    SpanSize(1016, 1024);
    assert Span(512, 568) !! Span(1016, 1024);
  }

  lemma FourTables(data: nat)
    requires 0x100 < data < 0xE000
    ensures KernelTables(data, 4) == Touched(RowWrites(Kmap(data)[0])) + Touched(RowWrites(Kmap(data)[1]))
        + Touched(RowWrites(Kmap(data)[2])) + Touched(RowWrites(Kmap(data)[3]))
  {
    assert KernelTables(data, 1) == Touched(RowWrites(Kmap(data)[0]));
    assert KernelTables(data, 2) == KernelTables(data, 1) + Touched(RowWrites(Kmap(data)[1]));
    assert KernelTables(data, 3) == KernelTables(data, 2) + Touched(RowWrites(Kmap(data)[2]));
  }

  lemma {:induction false} KernelTablesGrow(data: nat, k: nat, l: nat)
    requires 0x100 < data < 0xE000 && k <= l <= 4
    ensures KernelTables(data, k) <= KernelTables(data, l)
    decreases l
  {
    if k < l {
      KernelTablesGrow(data, k, l - 1);
      assert KernelTables(data, l) == KernelTables(data, l - 1) + Touched(RowWrites(Kmap(data)[l - 1]));
    }
  }
}
