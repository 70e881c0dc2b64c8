/** Runs in which memory is short: a failed allocuvm that keeps a page table, and
    a failed copyuvm that loses a frame. */
module FrameRuns {
  import opened PageTable
  import opened PageRange
  import opened KernelMap
  import opened VirtualMemory

  /** The first pages of a space have one page table. */
  lemma FirstTable(ws: seq<Write>, n: nat)
    requires Consecutive(ws, 0) && |ws| == n <= N
    ensures (forall k :: 0 <= k < n ==> ws[k].i == 0 && ws[k].j == k) && Touched(ws) == if n == 0 then {} else {0}
  {
    forall k | 0 <= k < n
      ensures ws[k].i == 0 && ws[k].j == k
    {
      SameCell(ws[k].i, ws[k].j, 0, k);
    }
    if n > 0 {
      FirstTable(ws[..n - 1], n - 1);
    }
  }

  lemma BelowKernel(data: nat, vp: nat)
    requires 0x100 < data < 0xE000 && vp < N
    ensures KernelView(data, 4)[0][vp] == ZERO
  {
    assert InNoRow(data, 4, vp);
    KernelViewAt(data, 4, 0, vp, vp);
  }

  /** The kernel part leaves them unmapped. */
  lemma FirstBlank(data: nat, n: nat)
    requires 0x100 < data < 0xE000 && n <= N
    ensures Blank(KernelView(data, 4), Clears(0, n)) && 0 !in KernelTables(data, 4)
  {
    var v, cl := KernelView(data, 4), Clears(0, n);
    FirstTable(cl, n);
    KernelTablesAre(data);
    forall k: nat | k < n
      ensures v[cl[k].i][cl[k].j] == ZERO
    {
      BelowKernel(data, k);
    }
  }

  function Numbers(n: nat): (r: set<nat>)
    ensures |r| == n && forall f: nat :: f in r <==> f < n
  {
    if n == 0 then {} else Numbers(n - 1) + {n - 1}
  }

  lemma AllFree(owner: Owners, n: nat)
    requires owner == Freed(map f | f in Numbers(n) :: Held, 0, n)
    ensures FreeFrames(owner) == Numbers(n)
  {
  }

  /** A machine with n free frames. */
  method Boot(n: nat) returns (k: Kernel)
    ensures fresh(k) && k.Valid() && |k.freelist| == n
  {
    k := new Kernel(n, Numbers(n), 0x200);
    k.Freerange(0, PGSIZE * n, 0, n);
    AllFree(k.owner, n);
    FreeCount(k.freelist, k.owner);
  }

  /** A space with the kernel part alone. */
  method NewProcess(k: Kernel) returns (d: nat)
    requires k.Valid() && |k.freelist| >= 65
    modifies k`freelist, k`tab, k`page, k`owner
    ensures k.Valid() && IsDir(k.owner, d) && View(k.tab, d) == KernelView(k.data, 4)
    ensures Pdes(k.tab[d]) == KernelTables(k.data, 4) && |k.freelist| == old(|k.freelist|) - 65
  {
    var ok;
    ok, d := k.Setupkvm();
    KernelTablesAre(k.data);
  }

  lemma TooFew(pdes: set<nat>)
    requires |pdes| == 64 && 0 !in pdes
    ensures Cost(pdes, 0, 2) == 67 && Cost(pdes, 0, 1) == 66 && !AllReturned(pdes, 0, 2, 2)
  {
    FirstTable(Clears(0, 1), 1);
    FirstTable(Clears(0, 2), 2);
  }

  /** Two pages where there is no page table, and two free frames: allocuvm takes
      a page and its table, fails on the second page, and keeps the table. */
  method KeepsTable() returns (k: Kernel, d: nat, r: nat)
    ensures k.Valid() && r == 0 && |k.freelist| < 2
    ensures IsDir(k.owner, d) && View(k.tab, d) == KernelView(k.data, 4)
  {
    k := Boot(67);
    d := NewProcess(k);
    FirstBlank(k.data, 2);
    KernelTablesAre(k.data);
    TooFew(Pdes(k.tab[d]));
    ghost var before := Pdes(k.tab[d]);
    ghost var ok, ws;
    r, ok, ws := k.Allocuvm(d, 0, 2 * PGSIZE, 0, 2);
    SubsetSize(before, Pdes(k.tab[d]));
  }

  lemma FirstPresent(v: seq<Table>, ws: seq<Write>, flags: set<nat>)
    requires |v| == N && Consecutive(ws, 0) && |ws| == 1 && AllWith(ws, flags + {P})
    ensures AllPresent(Wrote(v, ws), Clears(0, 1)) && Touched(ws) == {0}
  {
    FirstTable(ws, 1);
    FirstTable(Clears(0, 1), 1);
    WroteAt(v, ws, 0, 0, 0);
  }

  /** The first page of a space. */
  method AddPage(k: Kernel, d: nat)
    requires k.Valid() && IsDir(k.owner, d) && View(k.tab, d) == KernelView(k.data, 4)
    requires Pdes(k.tab[d]) == KernelTables(k.data, 4) && |k.freelist| >= 2
    modifies k`freelist, k`tab, k`page, k`owner
    ensures k.Valid() && IsDir(k.owner, d) && |k.freelist| == old(|k.freelist|) - 2
    ensures AllPresent(View(k.tab, d), Clears(0, 1))
  {
    FirstBlank(k.data, 1);
    KernelTablesAre(k.data);
    TooFew(Pdes(k.tab[d]));
    var size;
    ghost var ok, ws;
    size, ok, ws := k.Allocuvm(d, 0, PGSIZE, 0, 1);
    FirstPresent(old(View(k.tab, d)), ws, UserWritable());
  }

  /** A space of one page, and frames left for the kernel part of a child and one
      more. */
  method OnePageParent() returns (k: Kernel, p: nat)
    ensures fresh(k) && k.Valid() && IsDir(k.owner, p) && |k.freelist| == 66
    ensures AllPresent(View(k.tab, p), Clears(0, 1))
  {
    k := Boot(133);
    p := NewProcess(k);
    AddPage(k, p);
  }

  /** copyuvm takes the page of the child, finds no frame for its page table, and
      fails; the page is never free again. */
  method LosesFrame() returns (k: Kernel, lost: nat)
    ensures k.Valid() && |k.freelist| == 65 && lost in k.owner && k.owner[lost] == Held
  {
    var p;
    k, p := OnePageParent();
    ghost var before := k.owner;
    FreeCount(k.freelist, k.owner);
    var ok, d;
    ghost var ws, cs;
    ok, d, lost, ws, cs := k.Copyuvm(p, PGSIZE, 1);
    assert FreeFrames(k.owner) == FreeFrames(before) - {lost};
    FreeCount(k.freelist, k.owner);
  }
}
