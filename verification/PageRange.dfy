/** Runs of page table writes: what a list of writes leaves in a view, which
    page tables it needs and which frames it hands over. */
module PageRange {
  import opened PageTable

  const NPAGES := 0x10_0000

  datatype Write = Write(i: nat, j: nat, e: Pte)

  ghost predicate InRange(ws: seq<Write>) {
    forall k :: 0 <= k < |ws| ==> ws[k].i < N && ws[k].j < N
  }

  /** No entry is written twice. */
  ghost predicate Apart(ws: seq<Write>) {
    forall k, l :: 0 <= k < l < |ws| ==> ws[k].i != ws[l].i || ws[k].j != ws[l].j
  }

  ghost function Wrote(v: seq<Table>, ws: seq<Write>): (r: seq<Table>)
    requires |v| == N && InRange(ws)
    ensures |r| == N
  {
    if ws == [] then v else
      var w := ws[|ws| - 1];
      With(Wrote(v, ws[..|ws| - 1]), w.i, w.j, w.e)
  }

  /** The page tables that the writes go to. */
  ghost function Touched(ws: seq<Write>): set<nat> {
    if ws == [] then {} else Touched(ws[..|ws| - 1]) + {ws[|ws| - 1].i}
  }

  /** The frame that a write hands to the address space: that of a user page. */
  ghost function GivenBy(w: Write): set<nat> {
    if w.i < NUSER then {w.e.frame} else {}
  }

  ghost function Given(ws: seq<Write>): set<nat> {
    if ws == [] then {} else Given(ws[..|ws| - 1]) + GivenBy(ws[|ws| - 1])
  }

  lemma OneMore(v: seq<Table>, ws: seq<Write>, m: nat, w: Write)
    requires |v| == N && InRange(ws) && m < |ws| && w == ws[m]
    ensures Wrote(v, ws[..m + 1]) == With(Wrote(v, ws[..m]), w.i, w.j, w.e)
    ensures Touched(ws[..m + 1]) == Touched(ws[..m]) + {w.i}
    ensures Given(ws[..m + 1]) == Given(ws[..m]) + GivenBy(w)
  {
    assert ws[..m + 1][..m] == ws[..m];
  }

  lemma {:induction false} WroteElsewhere(v: seq<Table>, ws: seq<Write>, i: nat, j: nat)
    requires |v| == N && InRange(ws) && i < N && j < N
    requires forall k :: 0 <= k < |ws| ==> ws[k].i != i || ws[k].j != j
    ensures Wrote(v, ws)[i][j] == v[i][j]
  {
    if ws != [] {
      WroteElsewhere(v, ws[..|ws| - 1], i, j);
    }
  }

  lemma {:induction false} WroteHere(v: seq<Table>, ws: seq<Write>, k: nat)
    requires |v| == N && InRange(ws) && Apart(ws) && k < |ws|
    ensures Wrote(v, ws)[ws[k].i][ws[k].j] == ws[k].e
  {
    if k < |ws| - 1 {
      WroteHere(v, ws[..|ws| - 1], k);
    }
  }

  lemma {:induction false} TouchedAll(ws: seq<Write>, k: nat)
    requires k < |ws|
    ensures ws[k].i in Touched(ws)
  {
    if k < |ws| - 1 {
      TouchedAll(ws[..|ws| - 1], k);
    }
  }

  lemma {:induction false} TouchedOnly(ws: seq<Write>, i: nat) returns (k: nat)
    requires i in Touched(ws)
    ensures k < |ws| && ws[k].i == i
  {
    if ws[|ws| - 1].i == i {
      k := |ws| - 1;
    } else {
      k := TouchedOnly(ws[..|ws| - 1], i);
    }
  }

  lemma TouchedGrows(ws: seq<Write>, m: nat)
    requires m <= |ws|
    ensures Touched(ws[..m]) <= Touched(ws)
  {
    forall i | i in Touched(ws[..m])
      ensures i in Touched(ws)
    {
      var k := TouchedOnly(ws[..m], i);
      TouchedAll(ws, k);
    }
  }

  /** Write k goes to page first + k. */
  ghost predicate Consecutive(ws: seq<Write>, first: nat) {
    InRange(ws) && forall k :: 0 <= k < |ws| ==> N * ws[k].i + ws[k].j == first + k
  }

  lemma SameCell(i: nat, j: nat, a: nat, b: nat)
    requires j < N && b < N && N * i + j == N * a + b
    ensures i == a && j == b
  {
  }

  lemma ConsecutiveApart(ws: seq<Write>, first: nat)
    requires Consecutive(ws, first)
    ensures Apart(ws)
  {
    forall k, l | 0 <= k < l < |ws|
      ensures ws[k].i != ws[l].i || ws[k].j != ws[l].j
    {
      assert N * ws[k].i + ws[k].j != N * ws[l].i + ws[l].j;
    }
  }

  /** What consecutive writes amount to: the pages in the range have their new
      entries, every other page is as it was. */
  lemma WroteAt(v: seq<Table>, ws: seq<Write>, first: nat, i: nat, j: nat)
    requires |v| == N && Consecutive(ws, first) && i < N && j < N
    ensures Wrote(v, ws)[i][j] == if first <= N * i + j < first + |ws| then ws[N * i + j - first].e else v[i][j]
  {
    if first <= N * i + j < first + |ws| {
      var k := N * i + j - first;
      SameCell(i, j, ws[k].i, ws[k].j);
      ConsecutiveApart(ws, first);
      WroteHere(v, ws, k);
    } else {
      WroteElsewhere(v, ws, i, j);
    }
  }

  function WriteTo(vp: nat, e: Pte): (w: Write)
    requires vp < NPAGES
    ensures w.i < N && w.j < N && N * w.i + w.j == vp && w.e == e
  {
    Write(vp / N, vp % N, e)
  }

  /** The writes that map n pages from page first on to consecutive frames. */
  ghost function Maps(first: nat, n: nat, frame: nat, flags: set<nat>): (ws: seq<Write>)
    requires first + n <= NPAGES
    ensures |ws| == n && Consecutive(ws, first)
    ensures forall k :: 0 <= k < n ==> ws[k].e == Pte(frame + k, flags + {P})
  {
    if n == 0 then [] else Maps(first, n - 1, frame, flags) + [WriteTo(first + n - 1, Pte(frame + n - 1, flags + {P}))]
  }

  lemma {:induction false} MapsAt(first: nat, n: nat, frame: nat, flags: set<nat>, k: nat, f: nat)
    requires first + n <= NPAGES && k < n && f == frame + k
    ensures Maps(first, n, frame, flags)[k] == WriteTo(first + k, Pte(f, flags + {P}))
  {
    if k < n - 1 {
      MapsAt(first, n - 1, frame, flags, k, f);
    }
  }

  /** The writes that clear the pages from lo to hi. */
  ghost function Clears(lo: nat, hi: nat): (ws: seq<Write>)
    requires lo <= hi <= NPAGES
    ensures |ws| == hi - lo && Consecutive(ws, lo) && forall k :: 0 <= k < |ws| ==> ws[k].e == ZERO
  {
    if lo == hi then [] else Clears(lo, hi - 1) + [WriteTo(hi - 1, ZERO)]
  }

  /** Zeroes over zeroes: clearing entries that are zero already. */
  lemma {:induction false} ClearsNothing(v: seq<Table>, ws: seq<Write>, m: nat, n: nat)
    requires |v| == N && InRange(ws) && m <= n <= |ws|
    requires forall k :: m <= k < n ==> ws[k].e == ZERO && Wrote(v, ws[..m])[ws[k].i][ws[k].j] == ZERO
    ensures Wrote(v, ws[..n]) == Wrote(v, ws[..m])
  {
    if m < n {
      ClearsNothing(v, ws, m, n - 1);
      OneMore(v, ws, n - 1, ws[n - 1]);
      var u := Wrote(v, ws[..m]);
      var w := ws[n - 1];
      assert u[w.i][w.j := ZERO] == u[w.i];
      assert With(u, w.i, w.j, ZERO) == u;
    }
  }

  /** The writes from m on up to the end of page table i all go there. */
  lemma SameTable(ws: seq<Write>, first: nat, m: nat, n: nat, k: nat)
    requires Consecutive(ws, first) && m <= k < n <= |ws| && first + n <= N * (ws[m].i + 1)
    ensures ws[k].i == ws[m].i
  {
    assert N * ws[m].i + ws[m].j == first + m && N * ws[k].i + ws[k].j == first + k;
  }

  /** Clearing the rest of a page table that reads as zero changes nothing. */
  lemma ClearsAbsent(v: seq<Table>, ws: seq<Write>, first: nat, m: nat, n: nat)
    requires |v| == N && Consecutive(ws, first) && m < n <= |ws| && first + n <= N * (ws[m].i + 1)
    requires (forall k :: 0 <= k < |ws| ==> ws[k].e == ZERO) && Wrote(v, ws[..m])[ws[m].i] == ZeroTable()
    ensures Wrote(v, ws[..n]) == Wrote(v, ws[..m])
  {
    forall k | m <= k < n
      ensures ws[k].e == ZERO && Wrote(v, ws[..m])[ws[k].i][ws[k].j] == ZERO
    {
      SameTable(ws, first, m, n, k);
    }
    ClearsNothing(v, ws, m, n);
  }
}
