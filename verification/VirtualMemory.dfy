/** vm.c and kalloc.c: page allocation, and address spaces that are built,
    grown, shrunk, copied and freed. Addresses are 32-bit numbers. */
module VirtualMemory {
  import opened PageTable
  import opened PageRange
  import opened KernelMap

  const PGSIZE := 4096
  const KERNBASE := 0x8000_0000
  const TOP := 0x1_0000_0000

  type byte = x: int | 0 <= x < 256
  type Page = seq<byte>
  /** Frames with their owner and contents, under both readings. */
  type Estate = map<nat, (Owner, Table, Page)>

  function Fill(b: byte): Page {
    seq(PGSIZE, _ => b)
  }

  /** What a freed frame reads as when taken for a page table. */
  function Junk(): Table {
    seq(N, _ => Pte(0x1010, {0, 8}))
  }

  function Pdx(va: nat): nat {
    va / 0x40_0000 % N
  }

  function Ptx(va: nat): nat {
    va / PGSIZE % N
  }

  function RoundDown(a: nat): nat {
    a - a % PGSIZE
  }

  function RoundUp(a: nat): nat {
    RoundDown(a + PGSIZE - 1)
  }

  /** The two indices of a page's address. */
  method Indices(a: nat, ghost vp: nat, ghost w: Write) returns (i: nat, j: nat)
    requires a == PGSIZE * vp && w.i < N && w.j < N && N * w.i + w.j == vp
    ensures i == w.i && j == w.j
  {
    i, j := Pdx(a), Ptx(a);
  }

  /** The address from which the loop's step leads to the next page table. */
  method SkipTable(a: nat, ghost vp: nat, ghost w: Write) returns (b: nat)
    requires a == PGSIZE * vp && w.i < N && w.j < N && N * w.i + w.j == vp
    ensures b + PGSIZE == PGSIZE * (N * (w.i + 1))
  {
    b := (Pdx(a) + 1) * 0x40_0000 - PGSIZE;
  }

  /** Page p is the first that starts at size or above. */
  ghost predicate PageAt(p: nat, size: nat) {
    size <= PGSIZE * p < size + PGSIZE
  }

  /** The pages of [PGROUNDUP(newsz), oldsz). */
  lemma PagesBetween(newsz: nat, oldsz: nat, lo: nat, hi: nat)
    requires newsz < oldsz <= KERNBASE && PageAt(lo, newsz) && PageAt(hi, oldsz)
    ensures RoundUp(newsz) == PGSIZE * lo && lo <= hi <= NUSER * N
    ensures forall vp :: PGSIZE * vp < oldsz <==> vp < hi
  {
  }

  lemma OnePage(a: nat, vp: nat)
    requires a == PGSIZE * vp && vp < NPAGES
    ensures a / PGSIZE == vp && (a + PGSIZE - 1) / PGSIZE - vp + 1 == 1 && a + PGSIZE <= TOP
  {
  }

  lemma MapsSingle(vp: nat, f: nat, perm: set<nat>, w: Write)
    requires vp < NPAGES && w.j < N && vp == N * w.i + w.j && w.e == Pte(f, perm + {P})
    ensures Maps(vp, 1, f, perm) == [w]
  {
    MapsAt(vp, 1, f, perm, 0, f);
  }

  lemma PagesUpTo(oldsz: nat, newsz: nat, lo: nat, hi: nat)
    requires oldsz <= newsz < KERNBASE && PageAt(lo, oldsz) && PageAt(hi, newsz)
    ensures RoundUp(oldsz) == PGSIZE * lo && lo <= hi <= NUSER * N
    ensures forall vp :: PGSIZE * vp < newsz <==> vp < hi
  {
  }

  function UserWritable(): set<nat> {
    {W, U}
  }

  ghost function Zeroed(n: nat): (cs: seq<Page>)
    ensures |cs| == n
  {
    if n == 0 then [] else Zeroed(n - 1) + [Fill(0)]
  }

  ghost predicate AllWith(ws: seq<Write>, flags: set<nat>) {
    forall k :: 0 <= k < |ws| ==> ws[k].e.flags == flags
  }

  lemma OneMorePage(ws: seq<Write>, cs: seq<Page>, w: Write, flags: set<nat>)
    requires cs == Zeroed(|ws|) && AllWith(ws, flags) && w.e.flags == flags
    ensures cs + [Fill(0)] == Zeroed(|ws + [w]|) && AllWith(ws + [w], flags)
  {
  }

  lemma RoundsUp(size: nat, p: nat)
    requires PageAt(p, size)
    ensures RoundUp(size) == PGSIZE * p
  {
  }

  /** The owners with the frames from lo to hi free. */
  ghost function Freed(owner: Owners, lo: nat, hi: nat): (r: Owners)
    ensures r.Keys == owner.Keys
  {
    map f | f in owner :: if lo <= f < hi then Free else owner[f]
  }

  lemma FreedNone(owner: Owners, lo: nat, hi: nat)
    ensures hi <= lo ==> Freed(owner, lo, hi) == owner
  {
  }

  lemma FreedAll(owner: Owners, lo: nat, hi: nat, k: nat)
    requires k == hi || hi <= k == lo
    ensures Freed(owner, lo, k) == Freed(owner, lo, hi)
  {
  }

  lemma FreedOne(owner: Owners, lo: nat, k: nat)
    requires lo <= k && k in owner
    ensures Freed(owner, lo, k)[k := Free] == Freed(owner, lo, k + 1) && Freed(owner, lo, k)[k] == owner[k]
  {
  }

  lemma PageSpan(va: nat, size: nat, first: nat, n: int)
    requires 0 < size && va + size <= TOP && first == va / PGSIZE && n == (va + size - 1) / PGSIZE - first + 1
    ensures RoundDown(va) == PGSIZE * first && RoundDown(va + size - 1) == PGSIZE * (first + n - 1) && 0 < n
        && first + n <= NPAGES
  {
  }

  /** Everything that is neither free nor part of the address space d: who
      owns it and what it holds. */
  ghost function Rest(tab: Frames, page: seq<Page>, owner: Owners, d: nat): (r: Estate)
    requires |page| == |tab| && forall f :: f in owner ==> f < |tab|
  {
    map f | f in owner && !owner[f].Free? && !Belongs(owner, f, d) :: (owner[f], tab[f], page[f])
  }

  /** The page tables that directory t has. */
  ghost function Pdes(t: Table): set<nat> {
    set i: nat | i < N && Present(t[i])
  }

  /** A store into one of d's page tables does not show outside d. */
  lemma RestStored(tab: Frames, page: seq<Page>, owner: Owners, d: nat, i: nat, j: nat, e: Pte)
    requires LeavesOwned(tab, owner) && |page| == |tab| && IsDir(owner, d) && i < N && j < N && Present(tab[d][i])
    ensures tab[d][i].frame in owner && Stored(tab, d, i, j, e)[d] == tab[d]
    ensures Rest(Stored(tab, d, i, j, e), page, owner, d) == Rest(tab, page, owner, d)
  {
  }

  lemma RestGives(tab: Frames, page: seq<Page>, owner: Owners, d: nat, i: nat, j: nat, f: nat)
    requires |page| == |tab| && (forall g :: g in owner ==> g < |tab|)
    requires f in owner && owner[f] == Held
    ensures Rest(tab, page, owner[f := User(d, i, j)], d) == Rest(tab, page, owner, d) - {f}
    ensures Contents(page, owner[f := User(d, i, j)]) == Contents(page, owner)
  {
  }

  /** A free frame that becomes a page table of d does not show. */
  lemma RestNewLeaf(tab: Frames, page: seq<Page>, owner: Owners, d: nat, i: nat, f: nat, tab': Frames, page': seq<Page>)
    requires |page| == |tab| == |page'| == |tab'| && (forall g :: g in owner ==> g < |tab|) && IsDir(owner, d)
    requires f in owner && owner[f] == Free && page' == page[f := page'[f]] && tab' == tab[f := tab'[f]][d := tab'[d]]
    ensures Rest(tab', page', owner[f := Leaf(d, i)], d) == Rest(tab, page, owner, d)
    ensures Contents(page', owner[f := Leaf(d, i)]) == Contents(page, owner)
  {
  }

  lemma PdesAdd(t: Table, i: nat, e: Pte)
    requires i < N && Present(e)
    ensures Pdes(t[i := e]) == Pdes(t) + {i}
    ensures |Pdes(t[i := e])| == |Pdes(t)| + if Present(t[i]) then 0 else 1
  {
    assert Pdes(t[i := e]) == Pdes(t) + {i};
    if Present(t[i]) {
      assert Pdes(t) + {i} == Pdes(t);
    }
  }

  lemma SubsetSize(a: set<nat>, b: set<nat>)
    requires a <= b
    ensures |a| <= |b|
    ensures |a| == |b| ==> a == b
  {
    assert b == a + (b - a);
  }

  /** The entries to be written are not present. */
  ghost predicate Unmapped(v: seq<Table>, ws: seq<Write>) {
    |v| == N && InRange(ws) && forall k :: 0 <= k < |ws| ==> !Present(v[ws[k].i][ws[k].j])
  }

  /** The frames that user pages are about to take over are held. */
  ghost predicate HeldFor(others: Estate, ws: seq<Write>) {
    forall k :: 0 <= k < |ws| && ws[k].i < NUSER ==> ws[k].e.frame in others && others[ws[k].e.frame].0 == Held
  }

  lemma {:induction false} GivenOnly(ws: seq<Write>, f: nat) returns (k: nat)
    requires f in Given(ws)
    ensures k < |ws| && ws[k].e.frame == f
  {
    if f in GivenBy(ws[|ws| - 1]) {
      k := |ws| - 1;
    } else {
      k := GivenOnly(ws[..|ws| - 1], f);
    }
  }

  /** The entry and the frame of write m are as they were at the start. */
  lemma NextWrite(v: seq<Table>, others: Estate, first: nat, frame: nat, flags: set<nat>, ws: seq<Write>, m: nat,
      f: nat)
    requires first + |ws| <= NPAGES && ws == Maps(first, |ws|, frame, flags) && Unmapped(v, ws) && HeldFor(others, ws)
        && m < |ws| && f == frame + m
    ensures N * ws[m].i + ws[m].j == first + m && ws[m].e == Pte(f, flags + {P}) && f !in Given(ws[..m])
    ensures ws[m].i < N && ws[m].j < N && InRange(ws[..m]) && !Present(Wrote(v, ws[..m])[ws[m].i][ws[m].j])
    ensures ws[m].i < NUSER ==> f in others && others[f].0 == Held
  {
    MapsAt(first, |ws|, frame, flags, m, f);
    ConsecutiveApart(ws, first);
    WroteElsewhere(v, ws[..m], ws[m].i, ws[m].j);
    if f in Given(ws[..m]) {
      var k := GivenOnly(ws[..m], f);
      MapsAt(first, |ws|, frame, flags, k, frame + k);
    }
  }

  /** The contents of the user pages and of the frames in the kernel's hands. */
  ghost function Contents(page: seq<Page>, owner: Owners): map<nat, Page>
    requires forall f :: f in owner ==> f < |page|
  {
    map f | f in owner && (owner[f].User? || owner[f].Held?) :: page[f]
  }

  ghost predicate Within(m: map<nat, Page>, m': map<nat, Page>) {
    forall f :: f in m ==> f in m' && m[f] == m'[f]
  }

  lemma WithoutNone(m: Estate)
    ensures m - {} == m
  {
  }

  lemma WithoutBoth(m: Estate, a: set<nat>, b: set<nat>)
    ensures (m - a) - b == m - (a + b)
  {
  }

  lemma MapFails(t: Table, pdes: set<nat>, ws: seq<Write>, m: nat)
    requires m < |ws| && ws[m].i < N && Pdes(t) == pdes + Touched(ws[..m]) && !Present(t[ws[m].i])
    ensures |Pdes(t)| < |pdes + Touched(ws)|
  {
    TouchedGrows(ws, m);
    TouchedAll(ws, m);
    SubsetSize(Pdes(t) + {ws[m].i}, pdes + Touched(ws));
  }

  /** The state that a run of writes starts from: the view and the page tables
      of the directory, free frames plus page tables, and everything else. */
  datatype Snapshot = Snapshot(v: seq<Table>, pdes: set<nat>, total: nat, others: Estate, bytes: map<nat, Page>)

  lemma RestEvicts(tab: Frames, page: seq<Page>, owner: Owners, d: nat, i: nat, j: nat, f: nat, tab': Frames,
      page': seq<Page>)
    requires LeavesOwned(tab, owner) && |page| == |tab| && IsDir(owner, d) && i < N && j < N && Present(tab[d][i])
    requires f in owner && owner[f] == User(d, i, j) && tab' == Stored(tab[f := Junk()], d, i, j, ZERO)
        && page' == page[f := Fill(1)]
    ensures Rest(tab', page', owner[f := Free], d) == Rest(tab, page, owner, d)
    ensures Within(Contents(page', owner[f := Free]), Contents(page, owner))
  {
  }

  /** The same rest means the same owners once d's frames count as free. */
  lemma SameOthers(tab: Frames, page: seq<Page>, owner: Owners, tab': Frames, page': seq<Page>, owner': Owners, d: nat)
    requires |page| == |tab| && (forall f :: f in owner ==> f < |tab|) && |page'| == |tab'|
        && (forall f :: f in owner' ==> f < |tab'|)
    requires owner.Keys == owner'.Keys && Rest(tab, page, owner, d) == Rest(tab', page', owner', d)
    ensures Released(owner, d, Free) == Released(owner', d, Free)
  {
    var r, r' := Rest(tab, page, owner, d), Rest(tab', page', owner', d);
    forall f | f in owner
      ensures Released(owner, d, Free)[f] == Released(owner', d, Free)[f]
    {
      assert f in r <==> f in r';
      assert f in r ==> r[f] == r'[f];
    }
  }

  /** The owners while freevm goes through directory d: the page tables below i
      are free, the directory and the other page tables are held. */
  ghost function Disbanding(owner: Owners, d: nat, i: nat): (r: Owners)
    ensures r.Keys == owner.Keys
  {
    map f | f in owner :: if !Belongs(owner, f, d) then owner[f]
        else if owner[f].Leaf? && owner[f].i < i then Free else Held
  }

  lemma DisbandOne(tab: Frames, owner: Owners, d: nat, i: nat)
    requires LeavesOwned(tab, owner) && IsDir(owner, d) && i < N
    ensures !Present(tab[d][i]) ==> Disbanding(owner, d, i + 1) == Disbanding(owner, d, i)
    ensures Present(tab[d][i]) ==>
        tab[d][i].frame in owner && Disbanding(owner, d, i)[tab[d][i].frame] == Held && tab[d][i].frame != d
    ensures Present(tab[d][i]) ==> Disbanding(owner, d, i + 1) == Disbanding(owner, d, i)[tab[d][i].frame := Free]
  {
  }

  lemma DisbandDone(tab: Frames, owner: Owners, d: nat)
    requires LeavesOwned(tab, owner) && IsDir(owner, d)
        && forall f :: f in owner ==> !(owner[f].User? && owner[f].d == d)
    ensures Disbanding(owner, d, N)[d := Free] == Released(owner, d, Free) && Disbanding(owner, d, N)[d] == Held
  {
  }

  /** Frames outside d are as they were. */
  ghost predicate Outside(tab: Frames, page: seq<Page>, owner: Owners, d: nat, tab': Frames, page': seq<Page>) {
    && |page| == |tab| == |page'| == |tab'|
    && (forall f :: f in owner ==> f < |tab|)
    && (forall f {:trigger tab'[f]} {:trigger page'[f]} :: f in owner && !Belongs(owner, f, d) && !owner[f].Free? ==>
        tab'[f] == tab[f] && page'[f] == page[f])
  }

  lemma OutsideRest(tab: Frames, page: seq<Page>, owner: Owners, d: nat, tab': Frames, page': seq<Page>)
    requires Outside(tab, page, owner, d, tab', page')
    ensures Rest(tab', page', Released(owner, d, Free), d) == Rest(tab, page, owner, d)
  {
  }

  /** After a deallocuvm from KERNBASE down to 0 there are no user pages. */
  lemma NoUserPages(v: seq<Table>)
    requires |v| == N
    ensures forall i, j :: 0 <= i < NUSER && 0 <= j < N ==> Wrote(v, Clears(0, NUSER * N))[i][j] == ZERO
  {
    var ws := Clears(0, NUSER * N);
    forall i, j | 0 <= i < NUSER && 0 <= j < N
      ensures Wrote(v, ws)[i][j] == ZERO
    {
      WroteAt(v, ws, 0, i, j);
    }
  }

  /** A row of kmap finds its pages unmapped, and takes no frames over. */
  lemma RowReady(data: nat, k: nat, others: Estate)
    requires 0x100 < data < 0xE000 && k < 4
    ensures Unmapped(KernelView(data, k), RowWrites(Kmap(data)[k])) && HeldFor(others, RowWrites(Kmap(data)[k]))
    ensures forall l :: 0 <= l < |RowWrites(Kmap(data)[k])| ==> RowWrites(Kmap(data)[k])[l].i >= NUSER
  {
    var row := Kmap(data)[k];
    var ws := RowWrites(row);
    forall l | 0 <= l < |ws|
      ensures !Present(KernelView(data, k)[ws[l].i][ws[l].j]) && ws[l].i >= NUSER
    {
      var vp := row.first + l;
      assert InRow(data, k, vp);
      RowsApart(data, k + 1, vp);
      KernelViewAt(data, k, ws[l].i, ws[l].j, vp);
    }
  }

  lemma GivenPrefix(ws: seq<Write>, m: nat)
    requires m <= |ws| && forall l :: 0 <= l < |ws| ==> ws[l].i >= NUSER
    ensures Given(ws[..m]) == {}
  {
    NoneGiven(ws[..m]);
  }

  lemma {:induction false} NoneGiven(ws: seq<Write>)
    requires forall l :: 0 <= l < |ws| ==> ws[l].i >= NUSER
    ensures Given(ws) == {}
  {
    if ws != [] {
      NoneGiven(ws[..|ws| - 1]);
    }
  }

  lemma RowSpan(row: Row)
    requires row.n > 0 && row.first + row.n <= NPAGES
    ensures PGSIZE * row.first / PGSIZE == row.first && PGSIZE * row.first + PGSIZE * row.n <= TOP
    ensures (PGSIZE * row.first + PGSIZE * row.n - 1) / PGSIZE - row.first + 1 == row.n
  {
  }

  lemma RestNewDir(tab: Frames, page: seq<Page>, owner: Owners, d: nat, tab': Frames, page': seq<Page>)
    requires |page| == |tab| == |page'| == |tab'| && (forall g :: g in owner ==> g < |tab|)
    requires d in owner && owner[d] == Free && page' == page[d := page'[d]] && tab' == tab[d := tab'[d]]
    ensures Rest(tab', page', owner[d := Dir], d) == Rest(tab, page, owner, d)
    ensures Contents(page', owner[d := Dir]) == Contents(page, owner)
  {
  }

  lemma NoPdes(t: Table)
    requires t == ZeroTable()
    ensures Pdes(t) == {}
  {
  }

  /** A free frame owns nothing. */
  lemma NothingOwned(free: seq<nat>, tab: Frames, owner: Owners, d: nat)
    requires Inv(free, tab, owner) && d in owner && owner[d] == Free
    ensures forall f :: f in owner ==> !Belongs(owner, f, d)
  {
  }

  /** The first pages of directory view pv are present. */
  ghost predicate AllPresent(pv: seq<Table>, cl: seq<Write>) {
    |pv| == N && InRange(cl) && forall k :: 0 <= k < |cl| ==> Present(pv[cl[k].i][cl[k].j])
  }

  ghost predicate Backed(pv: seq<Table>, cl: seq<Write>, bytes: map<nat, Page>)
    requires AllPresent(pv, cl)
  {
    forall k :: 0 <= k < |cl| ==> pv[cl[k].i][cl[k].j].frame in bytes
  }

  lemma CopiedOne(ws: seq<Write>, cs: seq<Page>, pv: seq<Table>, bytes: map<nat, Page>, w: Write, e: Pte)
    requires Copied(ws, cs, pv, bytes) && w.i < N && w.j < N && e == pv[w.i][w.j] && w.e.flags == e.flags
        && e.frame in bytes
    ensures Copied(ws + [w], cs + [bytes[e.frame]], pv, bytes)
  {
  }

  /** The writes carry the flags, and the pages the contents, of the entries
      that view pv has there. */
  ghost predicate Copied(ws: seq<Write>, cs: seq<Page>, pv: seq<Table>, bytes: map<nat, Page>) {
    && |pv| == N && InRange(ws) && |cs| == |ws|
    && forall k :: 0 <= k < |ws| ==>
         var e := pv[ws[k].i][ws[k].j];
         ws[k].e.flags == e.flags && e.frame in bytes && cs[k] == bytes[e.frame]
  }

  /** The kernel's view has no user pages. */
  lemma UserBlank(data: nat, cl: seq<Write>)
    requires 0x100 < data < 0xE000 && Consecutive(cl, 0) && |cl| <= NUSER * N
    ensures Blank(KernelView(data, 4), cl)
  {
    forall k | 0 <= k < |cl|
      ensures KernelView(data, 4)[cl[k].i][cl[k].j] == ZERO
    {
      assert InNoRow(data, 4, k);
      KernelViewAt(data, 4, cl[k].i, cl[k].j, k);
    }
  }

  /** Mapped user pages have their contents on record. */
  lemma PresentIsBacked(free: seq<nat>, tab: Frames, page: seq<Page>, owner: Owners, p: nat, cl: seq<Write>)
    requires Inv(free, tab, owner) && |page| == |tab| && IsDir(owner, p) && Consecutive(cl, 0) && |cl| <= NUSER * N
        && AllPresent(View(tab, p), cl)
    ensures Backed(View(tab, p), cl, Contents(page, owner))
  {
    forall k | 0 <= k < |cl|
      ensures View(tab, p)[cl[k].i][cl[k].j].frame in Contents(page, owner)
    {
      var i, j := cl[k].i, cl[k].j;
      assert N * i + j == k && View(tab, p)[i][j] == Entry(tab, p, i, j);
    }
  }

  /** Inside a page table, the next page needs no new one. */
  lemma SameTableAgain(ws: seq<Write>, cl: seq<Write>)
    requires Consecutive(ws, 0) && Consecutive(cl, 0) && |ws| < |cl|
    ensures |ws| % N != 0 ==> cl[|ws|].i in Touched(ws)
  {
    var m := |ws|;
    if m % N != 0 {
      assert N * cl[m].i + cl[m].j == m && N * ws[m - 1].i + ws[m - 1].j == m - 1;
      TouchedAll(ws, m - 1);
    }
  }

  lemma CopyRanOut(pdes: set<nat>, ws: seq<Write>, cl: seq<Write>, total: nat)
    requires Consecutive(ws, 0) && Consecutive(cl, 0) && |ws| < |cl|
    requires |pdes + Touched(ws)| + |ws| < total <= |pdes + Touched(ws) + {cl[|ws|].i}| + |ws|
    ensures total == |pdes + Touched(ws)| + |ws| + 1 && |ws| % N == 0
  {
    SameTableAgain(ws, cl);
    var i := cl[|ws|].i;
    assert i in Touched(ws) ==> pdes + Touched(ws) + {i} == pdes + Touched(ws);
  }

  /** After the writes ws from the start s, frame f is held but the page table
      i that its page needs cannot be had; h is s with f held. */
  ghost predicate Stuck(ws: seq<Write>, s: Snapshot, i: nat, f: nat, h: Snapshot) {
    && f !in s.others && f !in s.bytes && f in h.others && h.others[f].0 == Held
    && h.others == s.others[f := h.others[f]]
    && f in h.bytes && h.bytes == s.bytes[f := h.bytes[f]] && h.v == s.v && h.pdes == s.pdes
    && |s.pdes + Touched(ws)| + |ws| < s.total <= |s.pdes + Touched(ws) + {i}| + |ws|
  }

  /** The rest, with one free frame in the kernel's hands. */
  lemma RestLost(tab: Frames, page: seq<Page>, owner: Owners, d: nat, f: nat, t: Table, c: Page)
    requires |page| == |tab| && (forall g :: g in owner ==> g < |tab|) && f in owner && owner[f] == Free && f != d
    ensures Rest(tab[f := t], page[f := c], owner[f := Held], d) == Rest(tab, page, owner, d)[f := (Held, t, c)]
  {
  }

  /** What a new page is filled with. */
  datatype Source = Zeroes | Frame(f: nat)

  ghost predicate Filled(bytes: map<nat, Page>, ws: seq<Write>, cs: seq<Page>)
    requires |cs| == |ws|
  {
    forall k :: 0 <= k < |ws| ==> ws[k].e.frame in bytes && bytes[ws[k].e.frame] == cs[k]
  }

  lemma OneMoreFrame(s: map<nat, Page>, bytes: map<nat, Page>, ws: seq<Write>, cs: seq<Page>, f: nat, c: Page)
    requires |cs| == |ws| && Within(s, bytes) && Filled(bytes, ws, cs) && f !in bytes
    ensures f !in s && Within(s[f := c], bytes[f := c]) && Filled(bytes[f := c], ws, cs)
  {
  }

  lemma FilledOne(s: map<nat, Page>, bytes: map<nat, Page>, ws: seq<Write>, cs: seq<Page>, w: Write, c: Page)
    requires |cs| == |ws| && w.e.frame !in s && Within(s[w.e.frame := c], bytes) && Filled(bytes, ws, cs)
    ensures Within(s, bytes) && Filled(bytes, ws + [w], cs + [c])
  {
    assert bytes[w.e.frame] == c;
    assert forall f :: f in s ==> f in s[w.e.frame := c];
  }

  lemma ConsecutiveOne(v: seq<Table>, ws: seq<Write>, lo: nat, w: Write)
    requires |v| == N && Consecutive(ws, lo) && w.i < N && w.j < N && N * w.i + w.j == lo + |ws|
    ensures Consecutive(ws + [w], lo) && Wrote(v, ws + [w]) == With(Wrote(v, ws), w.i, w.j, w.e)
    ensures Touched(ws + [w]) == Touched(ws) + {w.i} && Wrote(v, ws)[w.i][w.j] == v[w.i][w.j]
  {
    assert (ws + [w])[..|ws|] == ws;
    WroteAt(v, ws, lo, w.i, w.j);
  }

  lemma SingleReady(v: seq<Table>, others: Estate, ws: seq<Write>, w: Write)
    requires |v| == N && w.i < N && w.j < N && !Present(v[w.i][w.j]) && w.e.frame in others
        && others[w.e.frame].0 == Held && ws == [w]
    ensures Unmapped(v, ws) && HeldFor(others, ws)
  {
  }

  lemma SingleDone(v: seq<Table>, pdes: set<nat>, others: Estate, ws: seq<Write>, w: Write)
    requires |v| == N && w.i < NUSER && w.j < N && ws == [w]
    ensures Wrote(v, ws[..1]) == With(v, w.i, w.j, w.e) && Wrote(v, ws[..0]) == v && Touched(ws) == {w.i}
    ensures pdes + Touched(ws[..1]) == pdes + {w.i} && pdes + Touched(ws[..0]) == pdes
    ensures others - Given(ws[..1]) == others - {w.e.frame} && others - Given(ws[..0]) == others
  {
    assert ws[..0] == [] && ws[..1] == [w] && [w][..0] == [];
  }

  lemma PdesOne(pdes: set<nat>, touched: set<nat>, i: nat)
    ensures (pdes + touched) + {i} == pdes + (touched + {i})
  {
  }

  lemma DropAdded(m: Estate, f: nat, m': Estate)
    requires f !in m && f in m' && m' == m[f := m'[f]]
    ensures m' - {f} == m
  {
  }

  /** Which page tables consecutive writes touch depends on the pages alone. */
  lemma TouchedPages(ws: seq<Write>, us: seq<Write>, lo: nat)
    requires Consecutive(ws, lo) && Consecutive(us, lo) && |ws| <= |us|
    ensures Touched(ws) <= Touched(us)
  {
    forall i | i in Touched(ws)
      ensures i in Touched(us)
    {
      var k := TouchedOnly(ws, i);
      SameCell(ws[k].i, ws[k].j, us[k].i, us[k].j);
      TouchedAll(us, k);
    }
  }

  /** The frames that n new pages from page lo on take: one each, and the page
      tables that are missing. */
  ghost function Cost(pdes: set<nat>, lo: nat, hi: nat): nat
    requires lo <= hi <= NPAGES
  {
    hi - lo + |pdes + Touched(Clears(lo, hi))|
  }

  lemma CostFails(pdes: set<nat>, ws: seq<Write>, lo: nat, hi: nat, w: Write)
    requires Consecutive(ws, lo) && lo + |ws| < hi <= NPAGES && w.i < N && w.j < N && N * w.i + w.j == lo + |ws|
    ensures |pdes + Touched(ws)| + |ws| < Cost(pdes, lo, hi) && |pdes + Touched(ws) + {w.i}| + |ws| < Cost(pdes, lo, hi)
  {
    ConsecutiveOne(EmptyView(), ws, lo, w);
    TouchedPages(ws + [w], Clears(lo, hi), lo);
    SubsetSize(pdes + Touched(ws), pdes + Touched(Clears(lo, hi)));
    SubsetSize(pdes + Touched(ws) + {w.i}, pdes + Touched(Clears(lo, hi)));
  }

  lemma CostMet(pdes: set<nat>, ws: seq<Write>, lo: nat, hi: nat)
    requires Consecutive(ws, lo) && lo + |ws| == hi <= NPAGES
    ensures |pdes + Touched(ws)| + |ws| == Cost(pdes, lo, hi)
  {
    TouchedPages(ws, Clears(lo, hi), lo);
    TouchedPages(Clears(lo, hi), ws, lo);
    assert Touched(ws) == Touched(Clears(lo, hi));
  }

  /** How many pages from the first on find their page table. */
  ghost function Served(pdes: set<nat>, cl: seq<Write>): (q: nat)
    ensures q <= |cl| && (forall k :: 0 <= k < q ==> cl[k].i in pdes) && (q < |cl| ==> cl[q].i !in pdes)
  {
    if cl == [] || cl[0].i !in pdes then 0 else 1 + Served(pdes, cl[1..])
  }

  /** A failed allocuvm has made no page table: none was missing, or there were
      not frames enough for the first page without one and its page table. */
  ghost predicate AllReturned(pdes: set<nat>, lo: nat, hi: nat, frames: nat)
    requires lo <= hi <= NPAGES
  {
    var q := Served(pdes, Clears(lo, hi));
    q == hi - lo || frames <= q + 1
  }

  /** Where allocuvm stopped decides whether it had made page tables. */
  lemma TablesKept(pdes: set<nat>, ws: seq<Write>, lo: nat, hi: nat, frames: nat)
    requires Consecutive(ws, lo) && lo + |ws| < hi <= NPAGES
    requires |pdes + Touched(ws)| + |ws| <= frames + |pdes| <= |pdes + Touched(ws) + {Clears(lo, hi)[|ws|].i}| + |ws|
    ensures |pdes + Touched(ws)| == |pdes| <==> AllReturned(pdes, lo, hi, frames)
  {
    var cl := Clears(lo, hi);
    var q := Served(pdes, cl);
    SubsetSize(pdes, pdes + Touched(ws));
    if |ws| <= q {
      TouchedServed(pdes, ws, lo, cl, q);
      assert pdes + Touched(ws) == pdes;
    } else {
      SameCell(ws[q].i, ws[q].j, cl[q].i, cl[q].j);
      TouchedAll(ws, q);
      assert cl[q].i in pdes + Touched(ws);
    }
  }

  lemma TouchedServed(pdes: set<nat>, ws: seq<Write>, lo: nat, cl: seq<Write>, q: nat)
    requires Consecutive(ws, lo) && Consecutive(cl, lo) && |ws| <= q <= |cl|
        && forall k :: 0 <= k < q ==> cl[k].i in pdes
    ensures Touched(ws) <= pdes
  {
    forall i | i in Touched(ws)
      ensures i in pdes
    {
      var k := TouchedOnly(ws, i);
      SameCell(ws[k].i, ws[k].j, cl[k].i, cl[k].j);
    }
  }

  /** The entries of the writes are zero in the view. */
  ghost predicate Blank(v: seq<Table>, ws: seq<Write>) {
    |v| == N && InRange(ws) && forall k :: 0 <= k < |ws| ==> v[ws[k].i][ws[k].j] == ZERO
  }

  /** Clearing the range takes back whatever was written into it. */
  lemma Restored(v: seq<Table>, ws: seq<Write>, lo: nat, hi: nat, cl: seq<Write>)
    requires lo <= hi <= NPAGES && cl == Clears(lo, hi) && Blank(v, cl) && Consecutive(ws, lo) && lo + |ws| <= hi
    ensures Wrote(Wrote(v, ws), cl[..hi - lo]) == v
  {
    var r := Wrote(Wrote(v, ws), cl);
    assert cl[..hi - lo] == cl;
    forall i | 0 <= i < N
      ensures r[i] == v[i]
    {
      forall j | 0 <= j < N
        ensures r[i][j] == v[i][j]
      {
        RestoredAt(v, ws, lo, cl, i, j);
      }
    }
  }

  lemma RestoredAt(v: seq<Table>, ws: seq<Write>, lo: nat, cl: seq<Write>, i: nat, j: nat)
    requires Consecutive(cl, lo) && Blank(v, cl) && (forall k :: 0 <= k < |cl| ==> cl[k].e == ZERO)
        && Consecutive(ws, lo) && |ws| <= |cl| && i < N && j < N
    ensures Wrote(Wrote(v, ws), cl)[i][j] == v[i][j]
  {
    WroteAt(Wrote(v, ws), cl, lo, i, j);
    WroteAt(v, ws, lo, i, j);
    if lo <= N * i + j < lo + |cl| {
      var k := N * i + j - lo;
      SameCell(i, j, cl[k].i, cl[k].j);
    }
  }

  /** The page tables of d among the first k entries. */
  ghost function LeavesBelow(owner: Owners, d: nat, k: nat): set<nat> {
    set f | f in owner && owner[f].Leaf? && owner[f].d == d && owner[f].i < k
  }

  ghost function PdesBelow(t: Table, k: nat): set<nat> {
    set i: nat | i < N && i < k && Present(t[i])
  }

  lemma LeafStep(tab: Frames, owner: Owners, d: nat, k: nat)
    requires LeavesOwned(tab, owner) && IsDir(owner, d) && k < N
    ensures Present(tab[d][k]) ==> LeavesBelow(owner, d, k + 1) == LeavesBelow(owner, d, k) + {tab[d][k].frame}
    ensures Present(tab[d][k]) ==> tab[d][k].frame !in LeavesBelow(owner, d, k)
    ensures !Present(tab[d][k]) ==> LeavesBelow(owner, d, k + 1) == LeavesBelow(owner, d, k)
  {
  }

  lemma PdeStep(t: Table, k: nat)
    requires k < N
    ensures PdesBelow(t, k + 1) == if Present(t[k]) then PdesBelow(t, k) + {k} else PdesBelow(t, k)
  {
  }

  lemma SameGrowth(l: set<nat>, p: set<nat>, f: nat, k: nat)
    requires |l| == |p| && k !in p
    ensures f !in l ==> |l + {f}| == |p + {k}|
  {
  }

  lemma {:induction false} LeafCount(tab: Frames, owner: Owners, d: nat, k: nat)
    requires LeavesOwned(tab, owner) && IsDir(owner, d) && k <= N
    ensures |LeavesBelow(owner, d, k)| == |PdesBelow(tab[d], k)|
  {
    if k == 0 {
      assert LeavesBelow(owner, d, 0) == {} && PdesBelow(tab[d], 0) == {};
    } else {
      LeafCount(tab, owner, d, k - 1);
      LeafStep(tab, owner, d, k - 1);
      PdeStep(tab[d], k - 1);
      SameGrowth(LeavesBelow(owner, d, k - 1), PdesBelow(tab[d], k - 1), tab[d][k - 1].frame, k - 1);
    }
  }

  ghost function UsersOf(owner: Owners, d: nat): set<nat> {
    set f | f in owner && owner[f].User? && owner[f].d == d
  }

  lemma FreeCount(free: seq<nat>, owner: Owners)
    requires FreeListed(free, owner)
    ensures |free| == |FreeFrames(owner)|
  {
    assert |multiset(free)| == |free|;
  }

  lemma UnionSize(a: set<nat>, b: set<nat>)
    requires a !! b
    ensures |a + b| == |a| + |b|
  {
  }

  /** Every frame is free, elsewhere, the directory, a page table or a page. */
  lemma Sorted(tab: Frames, page: seq<Page>, owner: Owners, d: nat)
    requires |page| == |tab| && IsDir(owner, d)
        && forall f :: f in owner ==> f < |tab| && (owner[f].Leaf? ==> owner[f].i < N)
    ensures owner.Keys == FreeFrames(owner) + Rest(tab, page, owner, d).Keys
        + ({d} + LeavesBelow(owner, d, N) + UsersOf(owner, d))
    ensures FreeFrames(owner) !! Rest(tab, page, owner, d).Keys
    ensures FreeFrames(owner) + Rest(tab, page, owner, d).Keys !! {d} + LeavesBelow(owner, d, N) + UsersOf(owner, d)
  {
  }

  lemma FrameCount(free: seq<nat>, tab: Frames, page: seq<Page>, owner: Owners, d: nat)
    requires Inv(free, tab, owner) && |page| == |tab| && IsDir(owner, d)
    ensures |owner.Keys| == |free| + |Rest(tab, page, owner, d).Keys| + 1 + |Pdes(tab[d])| + |UsersOf(owner, d)|
  {
    var l, u := LeavesBelow(owner, d, N), UsersOf(owner, d);
    FreeCount(free, owner);
    LeafCount(tab, owner, d, N);
    assert PdesBelow(tab[d], N) == Pdes(tab[d]);
    Sorted(tab, page, owner, d);
    UnionSize(FreeFrames(owner), Rest(tab, page, owner, d).Keys);
    UnionSize(FreeFrames(owner) + Rest(tab, page, owner, d).Keys, {d} + l + u);
    UnionSize({d}, l);
    UnionSize({d} + l, u);
  }

  /** The same view, and the same frames elsewhere: free frames and page tables
      together are as many as before. */
  lemma Conserved(free: seq<nat>, tab: Frames, page: seq<Page>, owner: Owners, free': seq<nat>, tab': Frames,
      page': seq<Page>, owner': Owners, d: nat)
    requires Inv(free, tab, owner) && |page| == |tab| && IsDir(owner, d) && Inv(free', tab', owner')
        && |page'| == |tab'| && IsDir(owner', d)
    requires owner.Keys == owner'.Keys && View(tab, d) == View(tab', d)
        && Rest(tab, page, owner, d) == Rest(tab', page', owner', d)
    ensures |free| + |Pdes(tab[d])| == |free'| + |Pdes(tab'[d])|
  {
    FrameCount(free, tab, page, owner, d);
    FrameCount(free', tab', page', owner', d);
    SameUsers(free, tab, owner, free', tab', owner', d);
    SameUsers(free', tab', owner', free, tab, owner, d);
    assert UsersOf(owner, d) == UsersOf(owner', d);
  }

  lemma SameUsers(free: seq<nat>, tab: Frames, owner: Owners, free': seq<nat>, tab': Frames, owner': Owners, d: nat)
    requires Inv(free, tab, owner) && IsDir(owner, d) && Inv(free', tab', owner') && IsDir(owner', d)
        && View(tab, d) == View(tab', d)
    ensures UsersOf(owner, d) <= UsersOf(owner', d)
  {
    forall f | f in UsersOf(owner, d)
      ensures f in UsersOf(owner', d)
    {
      var i, j := owner[f].i, owner[f].j;
      assert Entry(tab, d, i, j) == View(tab, d)[i][j] && Entry(tab', d, i, j) == View(tab', d)[i][j];
    }
  }

  /** Which frames hold pages follows from the view and the rest. */
  lemma SamePages(free: seq<nat>, tab: Frames, page: seq<Page>, owner: Owners, free': seq<nat>, tab': Frames,
      page': seq<Page>, owner': Owners, d: nat)
    requires Inv(free, tab, owner) && |page| == |tab| && IsDir(owner, d) && Inv(free', tab', owner')
        && |page'| == |tab'| && IsDir(owner', d)
    requires View(tab, d) == View(tab', d) && Rest(tab, page, owner, d) == Rest(tab', page', owner', d)
    ensures Contents(page, owner).Keys <= Contents(page', owner').Keys
  {
    var r, r' := Rest(tab, page, owner, d), Rest(tab', page', owner', d);
    forall f | f in Contents(page, owner)
      ensures f in Contents(page', owner')
    {
      if owner[f].User? && owner[f].d == d {
        var i, j := owner[f].i, owner[f].j;
        assert Entry(tab, d, i, j) == View(tab, d)[i][j] && Entry(tab', d, i, j) == View(tab', d)[i][j];
      } else {
        assert f in r && r[f] == r'[f];
      }
    }
  }

  lemma SameBytes(a: map<nat, Page>, b: map<nat, Page>, mid: map<nat, Page>)
    requires a.Keys == b.Keys && Within(a, mid) && Within(b, mid)
    ensures a == b
  {
  }

  lemma WithinLess(a: map<nat, Page>, f: nat, c: Page, b: map<nat, Page>)
    requires f !in a && Within(a[f := c], b)
    ensures Within(a, b)
  {
    assert forall g :: g in a ==> g in a[f := c];
  }

  lemma RestReturned(tab: Frames, page: seq<Page>, owner: Owners, d: nat, f: nat, tab': Frames, page': seq<Page>)
    requires |page| == |tab| == |page'| == |tab'| && (forall g :: g in owner ==> g < |tab|) && IsDir(owner, d)
    requires f in owner && owner[f] == Held && page' == page[f := page'[f]] && tab' == tab[f := tab'[f]]
    ensures Rest(tab', page', owner[f := Free], d) == Rest(tab, page, owner, d) - {f}
    ensures Contents(page', owner[f := Free]) == Contents(page, owner) - {f}
  {
  }

  /** The user page tables that the first m pages need, besides the kernel's. */
  lemma UserTables(data: nat, ws: seq<Write>, m: nat)
    requires 0x100 < data < 0xE000 && Consecutive(ws, 0) && |ws| == m <= NUSER * N
    ensures |KernelTables(data, 4) + Touched(ws)| == 64 + (m + N - 1) / N
  {
    KernelTablesAre(data);
    var t := (m + N - 1) / N;
    if m > 0 {
      TouchedSpan(ws, 0, 0, t);
    }
    assert Touched(ws) == Span(0, t);
    SpanSize(0, t);
    assert KernelTables(data, 4) !! Span(0, t);
  }

  /** The frames that copyuvm takes for a space of so many pages: a directory,
      the kernel's page tables, the pages and their page tables. */
  function CopyNeeds(pages: nat): nat {
    65 + pages + (pages + N - 1) / N
  }

  /** copyuvm loses a page just when the frames run out on the first page of a
      page table, after the page itself was taken. */
  predicate CopyLoses(frames: nat, pages: nat) {
    66 <= frames < CopyNeeds(pages) && (frames - 66) % (N + 1) == 0
  }

  /** The frames ran out when the page after m others was to be taken. */
  lemma CopyStops(frames: nat, pages: nat, m: nat)
    requires m < pages && frames == 65 + m + (m + N - 1) / N
    ensures frames < CopyNeeds(pages) && !CopyLoses(frames, pages)
  {
    var q, r := m / N, m % N;
    assert (m + N - 1) / N == if r == 0 then q else q + 1;
    assert frames - 66 == (N + 1) * q + (if r == 0 then -1 else r);
  }

  /** They ran out when the page table for the page after m others was to be
      taken. */
  lemma CopyLeaks(frames: nat, pages: nat, m: nat)
    requires m < pages && m % N == 0 && frames == 66 + m + (m + N - 1) / N
    ensures CopyLoses(frames, pages)
  {
    var q := m / N;
    assert frames == 66 + (N + 1) * q && (frames - 66) % (N + 1) == 0;
  }

  /** A frame comes from the free list into the kernel's hands. */
  lemma RestTaken(tab: Frames, page: seq<Page>, owner: Owners, d: nat, f: nat, tab': Frames, page': seq<Page>)
    requires |page| == |tab| == |page'| == |tab'| && (forall g :: g in owner ==> g < |tab|) && IsDir(owner, d)
    requires f in owner && owner[f] == Free && page' == page[f := page'[f]] && tab' == tab[f := tab'[f]]
    ensures Rest(tab', page', owner[f := Held], d) == Rest(tab, page, owner, d)[f := (Held, tab'[f], page'[f])]
    ensures Contents(page', owner[f := Held]) == Contents(page, owner)[f := page'[f]]
    ensures f !in Rest(tab, page, owner, d) && f !in Contents(page, owner)
  {
  }

  /** The writes map the pages from first on to the frames from frame on, and
      the state s is ready for them. */
  ghost predicate Planned(first: nat, frame: nat, perm: set<nat>, ws: seq<Write>, s: Snapshot) {
    first + |ws| <= NPAGES && ws == Maps(first, |ws|, frame, perm) && Unmapped(s.v, ws) && HeldFor(s.others, ws)
  }

  lemma TablesUpTo(data: nat, k: nat)
    requires 0x100 < data < 0xE000 && k <= 4
    ensures |KernelTables(data, k)| <= 64 && (k == 4 ==> |KernelTables(data, k)| == 64)
  {
    KernelTablesAre(data);
    KernelTablesGrow(data, k, 4);
    SubsetSize(KernelTables(data, k), KernelTables(data, 4));
  }

  /** A free frame, taken and zeroed, as a directory that maps nothing. */
  lemma DirMade(tab0: Frames, page0: seq<Page>, owner0: Owners, free: seq<nat>, tab: Frames, page: seq<Page>,
      owner: Owners, d: nat)
    requires |page0| == |tab0| && (forall f :: f in owner0 ==> f < |tab0|) && d in owner0 && owner0[d] == Free
    requires tab == tab0[d := ZeroTable()] && page == page0[d := Fill(0)] && owner == owner0[d := Held]
        && Inv(free, tab, owner)
    ensures Inv(free, tab, owner[d := Dir]) && View(tab, d) == seq(N, _ => ZeroTable()) && Pdes(tab[d]) == {}
    ensures Rest(tab, page, owner[d := Dir], d) == Rest(tab0, page0, owner0, d)
    ensures Contents(page, owner[d := Dir]) == Contents(page0, owner0)
  {
    NewDir(free, tab, owner, d);
    RestNewDir(tab0, page0, owner0, d, tab, page);
    assert owner[d := Dir] == owner0[d := Dir];
    NoPdes(tab[d]);
  }

  /** A free frame, taken and zeroed, as the page table behind entry i. */
  lemma LeafMade(tab0: Frames, page0: seq<Page>, owner0: Owners, free: seq<nat>, tab: Frames, page: seq<Page>,
      owner: Owners, d: nat, i: nat, f: nat)
    requires |page0| == |tab0| && (forall g :: g in owner0 ==> g < |tab0|) && f in owner0 && owner0[f] == Free
        && IsDir(owner0, d)
    requires tab == tab0[f := ZeroTable()] && page == page0[f := Fill(0)] && owner == owner0[f := Held]
        && Inv(free, tab, owner)
    requires i < N && !Present(tab[d][i])
    ensures var tab' := tab[d := tab[d][i := Pte(f, {P, W, U})]];
            && Inv(free, tab', owner[f := Leaf(d, i)]) && View(tab', d) == View(tab, d)
            && Rest(tab', page, owner[f := Leaf(d, i)], d) == Rest(tab0, page0, owner0, d)
            && Contents(page, owner[f := Leaf(d, i)]) == Contents(page0, owner0)
  {
    var tab' := tab[d := tab[d][i := Pte(f, {P, W, U})]];
    NewLeaf(free, tab, owner, d, i, f);
    RestNewLeaf(tab0, page0, owner0, d, i, f, tab', page);
    assert owner[f := Leaf(d, i)] == owner0[f := Leaf(d, i)];
  }

  /** A space whose user pages have been cleared can be given up. */
  lemma GivenUp(free: seq<nat>, tab: Frames, owner: Owners, d: nat, v: seq<Table>)
    requires Inv(free, tab, owner) && IsDir(owner, d) && |v| == N
        && View(tab, d) == Wrote(v, Clears(0, NUSER * N)[..NUSER * N])
    ensures Inv(free, tab, Disbanding(owner, d, 0))
    ensures forall f :: f in owner ==> !(owner[f].User? && owner[f].d == d)
  {
    var ws := Clears(0, NUSER * N);
    assert ws[..NUSER * N] == ws;
    NoUserPages(v);
    assert forall i, j :: 0 <= i < NUSER && 0 <= j < N ==> Entry(tab, d, i, j) == View(tab, d)[i][j];
    Disbanded(free, tab, owner, d);
    DisbandStart(owner, d);
  }

  lemma DisbandStart(owner: Owners, d: nat)
    ensures Disbanding(owner, d, 0) == Released(owner, d, Held)
  {
  }

  /** What the store of mappages does to the tables and to the owners. */
  lemma PteStored(free: seq<nat>, tab: Frames, page: seq<Page>, owner: Owners, tab': Frames, owner': Owners, d: nat,
      w: Write, perm: set<nat>)
    requires Inv(free, tab, owner) && |page| == |tab| && IsDir(owner, d) && w.i < N && w.j < N && Present(tab[d][w.i])
    requires w.e == Pte(w.e.frame, perm + {P}) && !Present(Entry(tab, d, w.i, w.j))
    requires w.i < NUSER ==> w.e.frame in owner && owner[w.e.frame] == Held
    requires tab[d][w.i].frame < |tab| && tab' == Stored(tab, d, w.i, w.j, w.e)
    requires owner' == if w.i < NUSER then owner[w.e.frame := User(d, w.i, w.j)] else owner
    ensures Inv(free, tab', owner') && IsDir(owner', d) && tab'[d] == tab[d] && |tab'| == |tab|
    ensures View(tab', d) == With(View(tab, d), w.i, w.j, w.e)
    ensures Rest(tab', page, owner', d) == Rest(tab, page, owner, d) - GivenBy(w)
    ensures Contents(page, owner') == Contents(page, owner)
  {
    StoredView(tab, owner, d, w.i, w.j, w.e);
    RestStored(tab, page, owner, d, w.i, w.j, w.e);
    if w.i < NUSER {
      MapsUser(free, tab, owner, d, w.i, w.j, w.e.frame, perm);
      RestGives(tab', page, owner, d, w.i, w.j, w.e.frame);
    } else {
      MapsKernel(free, tab, owner, d, w.i, w.j, w.e.frame, perm);
    }
  }

  class Kernel {
    /** The first page of the kernel's data, as a physical page. */
    const data: nat
    var freelist: seq<nat>
    /** Each frame read as a page table, and as bytes. */
    var tab: Frames
    var page: seq<Page>
    ghost var owner: Owners
    /** The frames that kalloc hands out. */
    ghost const managed: set<nat>

    ghost predicate Valid()
      reads this
    {
      Inv(freelist, tab, owner) && |page| == |tab| && owner.Keys == managed && 0x100 < data < 0xE000
    }

    /** All but the free frames and address space d. */
    ghost function Others(d: nat): Estate
      requires Valid()
      reads this
    {
      Rest(tab, page, owner, d)
    }

    ghost function Bytes(): map<nat, Page>
      requires Valid()
      reads this
    {
      Contents(page, owner)
    }

    /** kalloc: the head of the free list. */
    method Kalloc() returns (ok: bool, f: nat)
      requires Valid()
      modifies this`freelist, this`owner
      ensures Valid() && (ok <==> old(freelist) != [])
      ensures ok ==>
          f == old(freelist)[0] && freelist == old(freelist)[1..] && f in old(owner) && old(owner)[f] == Free
          && owner == old(owner)[f := Held]
      ensures !ok ==> freelist == old(freelist) && owner == old(owner)
    {
      if freelist == [] {
        return false, 0;
      }
      Taken(freelist, tab, owner);
      ok, f := true, freelist[0];
      freelist, owner := freelist[1..], owner[f := Held];
    }

    /** kfree: the frame is filled with ones and heads the free list. */
    method Kfree(f: nat)
      requires f < |tab| == |page|
      modifies this`freelist, this`tab, this`page
      ensures freelist == [f] + old(freelist) && tab == old(tab)[f := Junk()] && page == old(page)[f := Fill(1)]
    {
      tab, page := tab[f := Junk()], page[f := Fill(1)];
      freelist := [f] + freelist;
    }

    /** kfree of a frame in the caller's hands. */
    method GiveBack(f: nat)
      requires Valid() && f in owner && owner[f] == Held
      modifies this`freelist, this`tab, this`page, this`owner
      ensures Valid() && freelist == [f] + old(freelist) && owner == old(owner)[f := Free]
      ensures tab == old(tab)[f := Junk()] && page == old(page)[f := Fill(1)]
      ensures forall d :: IsDir(owner, d) ==> View(tab, d) == old(View(tab, d))
    {
      Scribble(freelist, tab, owner, f, Junk());
      Returned(freelist, tab[f := Junk()], owner, f);
      Kfree(f);
      owner := owner[f := Free];
    }

    /** All frames are in the kernel's hands before kinit. */
    constructor (n: nat, frames: set<nat>, data: nat)
      requires (forall f :: f in frames ==> f < n) && 0x100 < data < 0xE000
      ensures Valid() && this.data == data && managed == frames && freelist == []
          && owner == map f | f in frames :: Held
    {
      this.data, managed := data, frames;
      freelist := [];
      tab, page := seq(n, _ => ZeroTable()), seq(n, _ => Fill(0));
      owner := map f | f in frames :: Held;
      new;
      assert FreeFrames(owner) == {};
    }

    /** freerange: the whole pages between the two addresses become free. */
    method Freerange(vstart: nat, vend: nat, ghost lo: nat, ghost hi: nat)
      requires Valid() && PageAt(lo, vstart) && PGSIZE * hi <= vend < PGSIZE * (hi + 1)
      requires forall f: nat :: lo <= f < hi ==> f in owner && owner[f] == Held
      modifies this`freelist, this`tab, this`page, this`owner
      ensures Valid() && owner == Freed(old(owner), lo, hi)
      ensures forall d :: IsDir(owner, d) ==> View(tab, d) == old(View(tab, d))
    {
      RoundsUp(vstart, lo);
      var p := RoundUp(vstart);
      ghost var k := lo;
      FreedNone(owner, lo, lo);
      while p + PGSIZE <= vend
        invariant lo <= k && (k <= hi || k == lo) && p == PGSIZE * k
        invariant Ranged(lo, k, old(tab), old(owner))
      {
        ghost var next := k + 1;
        assert next <= hi;
        FreeTurn(p, lo, k, next, old(tab), old(owner));
        p, k := p + PGSIZE, next;
      }
      FreedAll(old(owner), lo, hi, k);
    }

    /** freerange has gone through the frames from lo to k. */
    ghost predicate Ranged(lo: nat, k: nat, tab0: Frames, owner0: Owners)
      reads this
    {
      && Valid() && owner == Freed(owner0, lo, k) && (forall f :: f in owner0 ==> f < |tab0|)
      && forall d :: IsDir(owner, d) ==> View(tab, d) == View(tab0, d)
    }

    method FreeTurn(p: nat, ghost lo: nat, ghost k: nat, ghost next: nat, ghost tab0: Frames, ghost owner0: Owners)
      requires p == PGSIZE * k && lo <= k && next == k + 1 && k in owner0 && owner0[k] == Held
      requires Ranged(lo, k, tab0, owner0)
      modifies this`freelist, this`tab, this`page, this`owner
      ensures Ranged(lo, next, tab0, owner0)
    {
      FreedOne(owner0, lo, k);
      GiveBack(p / PGSIZE);
    }

    /** memset(frame, 0, PGSIZE). */
    method Clear(f: nat)
      requires Valid() && f in owner && owner[f] == Held
      modifies this`tab, this`page
      ensures Valid() && tab == old(tab)[f := ZeroTable()] && page == old(page)[f := Fill(0)]
      ensures forall d :: IsDir(owner, d) ==> View(tab, d) == old(View(tab, d))
    {
      Scribble(freelist, tab, owner, f, ZeroTable());
      tab, page := tab[f := ZeroTable()], page[f := Fill(0)];
    }

    /** The frame becomes the page table of an absent directory entry. */
    method AddLeaf(d: nat, i: nat) returns (ok: bool)
      requires Valid() && IsDir(owner, d) && i < N && !Present(tab[d][i])
      modifies this`freelist, this`tab, this`page, this`owner
      ensures Valid() && IsDir(owner, d) && |tab| == old(|tab|) && (ok <==> old(freelist) != [])
      ensures ok ==> freelist == old(freelist)[1..] && Present(tab[d][i]) && tab[d] == old(tab[d])[i := tab[d][i]]
      ensures !ok ==> freelist == old(freelist) && owner == old(owner) && tab == old(tab) && page == old(page)
      ensures View(tab, d) == old(View(tab, d)) && Others(d) == old(Others(d))
      ensures Bytes() == old(Bytes())
    {
      var f;
      ok, f := Kalloc();
      if ok {
        Clear(f);
        LeafMade(old(tab), old(page), old(owner), freelist, tab, page, owner, d, i, f);
        tab := tab[d := tab[d][i := Pte(f, {P, W, U})]];
        owner := owner[f := Leaf(d, i)];
      }
    }

    /** walkpgdir: the page table behind entry i, the upper index of an address. With alloc it is
        made when absent, which no view shows. */
    method WalkPgdir(d: nat, i: nat, alloc: bool) returns (found: bool, t: nat)
      requires Valid() && IsDir(owner, d) && i < N
      modifies this`freelist, this`tab, this`page, this`owner
      ensures Valid() && IsDir(owner, d) && |tab| == old(|tab|)
      ensures found <==> old(Present(tab[d][i])) || (alloc && old(freelist) != [])
      ensures found ==> Present(tab[d][i]) && t == tab[d][i].frame && tab[d] == old(tab[d])[i := tab[d][i]]
      ensures found ==> freelist == if old(Present(tab[d][i])) then old(freelist) else old(freelist)[1..]
      ensures !found || !alloc || old(Present(tab[d][i])) ==>
          freelist == old(freelist) && owner == old(owner) && tab == old(tab) && page == old(page)
      ensures View(tab, d) == old(View(tab, d)) && Others(d) == old(Others(d))
      ensures Bytes() == old(Bytes())
    {
      if Present(tab[d][i]) {
        return true, tab[d][i].frame;
      }
      if !alloc {
        return false, 0;
      }
      found := AddLeaf(d, i);
      t := if found then tab[d][i].frame else 0;
    }

    /** The store of mappages into an entry that is not present. */
    method StorePte(d: nat, ghost i: nat, j: nat, t: nat, frame: nat, perm: set<nat>)
      requires Valid() && IsDir(owner, d) && i < N && j < N && Present(tab[d][i]) && t == tab[d][i].frame
      requires !Present(Entry(tab, d, i, j)) && (i < NUSER ==> frame in owner && owner[frame] == Held)
      modifies this`tab, this`owner
      ensures Valid() && IsDir(owner, d) && |tab| == old(|tab|)
      ensures tab[d] == old(tab[d]) && View(tab, d) == With(old(View(tab, d)), i, j, Pte(frame, perm + {P}))
      ensures owner == if i < NUSER then old(owner)[frame := User(d, i, j)] else old(owner)
      ensures Others(d) == old(Others(d)) - GivenBy(Write(i, j, Pte(frame, perm + {P}))) && Bytes() == old(Bytes())
    {
      var e := Pte(frame, perm + {P});
      ghost var owner' := if i < NUSER then owner[frame := User(d, i, j)] else owner;
      PteStored(freelist, tab, page, owner, Stored(tab, d, i, j, e), owner', d, Write(i, j, e), perm);
      tab := tab[t := tab[t][j := e]];
      if i < NUSER {
        owner := owner[frame := User(d, i, j)];
      }
    }

    /** One turn of the loop of mappages. */
    method MapPage(d: nat, i: nat, j: nat, frame: nat, perm: set<nat>, ghost w: Write) returns (ok: bool)
      requires Valid() && IsDir(owner, d) && i < N && j < N && w == Write(i, j, Pte(frame, perm + {P}))
      requires !Present(View(tab, d)[i][j]) && (i < NUSER ==> frame in owner && owner[frame] == Held)
      modifies this`freelist, this`tab, this`page, this`owner
      ensures Valid() && IsDir(owner, d) && |tab| == old(|tab|)
      ensures ok <==> old(Present(tab[d][i])) || old(freelist) != []
      ensures ok ==> View(tab, d) == With(old(View(tab, d)), w.i, w.j, w.e)
      ensures ok ==> Present(tab[d][i]) && tab[d] == old(tab[d])[i := tab[d][i]]
      ensures ok ==> freelist == if old(Present(tab[d][i])) then old(freelist) else old(freelist)[1..]
      ensures ok ==> Others(d) == old(Others(d)) - GivenBy(w)
      ensures !ok ==> freelist == old(freelist) && owner == old(owner) && tab == old(tab) && page == old(page)
      ensures Bytes() == old(Bytes())
    {
      var t;
      assert i < NUSER ==> frame in Others(d) && Others(d)[frame].0 == Held;
      ok, t := WalkPgdir(d, i, true);
      if ok {
        assert i < NUSER ==> frame in Others(d) && Others(d)[frame].0 == owner[frame];
        assert Entry(tab, d, i, j) == View(tab, d)[i][j];
        StorePte(d, i, j, t, frame, perm);
      }
    }

    /** The state after the first m of the writes. */
    ghost predicate Mapping(d: nat, ws: seq<Write>, m: nat, s: Snapshot)
      reads this
    {
      && Valid() && IsDir(owner, d) && |s.v| == N && InRange(ws) && m <= |ws|
      && View(tab, d) == Wrote(s.v, ws[..m])
      && Pdes(tab[d]) == s.pdes + Touched(ws[..m]) && |freelist| + |Pdes(tab[d])| == s.total
      && Others(d) == s.others - Given(ws[..m])
      && Bytes() == s.bytes
    }

    method MapTurn(d: nat, i: nat, j: nat, f: nat, perm: set<nat>, ghost ws: seq<Write>, ghost m: nat,
        ghost s: Snapshot) returns (ok: bool)
      requires Mapping(d, ws, m, s) && m < |ws| && ws[m] == Write(i, j, Pte(f, perm + {P}))
      requires !Present(Wrote(s.v, ws[..m])[i][j]) && f !in Given(ws[..m])
          && (i < NUSER ==> f in s.others && s.others[f].0 == Held)
      modifies this`freelist, this`tab, this`page, this`owner
      ensures ok ==> Mapping(d, ws, m + 1, s)
      ensures !ok ==> Mapping(d, ws, m, s) && !Present(tab[d][i]) && freelist == []
    {
      ghost var t := tab[d];
      ghost var w := ws[m];
      if i < NUSER {
        assert f in Others(d) && Others(d)[f] == s.others[f];
      }
      ok := MapPage(d, i, j, f, perm, w);
      if ok {
        OneMore(s.v, ws, m, w);
        WithoutBoth(s.others, Given(ws[..m]), GivenBy(w));
        PdesAdd(t, i, tab[d][i]);
      }
    }

    /** The turn for address a, which is page first + m. */
    method MapAt(d: nat, a: nat, f: nat, perm: set<nat>, ghost first: nat, ghost frame: nat, ghost ws: seq<Write>,
        ghost m: nat, ghost s: Snapshot) returns (ok: bool)
      requires Mapping(d, ws, m, s) && m < |ws| && Planned(first, frame, perm, ws, s) && a == PGSIZE * (first + m)
          && f == frame + m
      modifies this`freelist, this`tab, this`page, this`owner
      ensures ok ==> Mapping(d, ws, m + 1, s)
      ensures !ok ==> Mapping(d, ws, m, s) && !Present(tab[d][ws[m].i]) && freelist == []
    {
      NextWrite(s.v, s.others, first, frame, perm, ws, m, f);
      var i, j := Indices(a, first + m, ws[m]);
      ok := MapTurn(d, i, j, f, perm, ws, m, s);
    }

    /** What a run of writes to directory d starts from. */
    ghost function Now(d: nat): Snapshot
      requires Valid() && d < |tab|
      reads this
    {
      Snapshot(View(tab, d), Pdes(tab[d]), |freelist| + |Pdes(tab[d])|, Others(d), Bytes())
    }

    /** The loop of mappages, from address a to address last. */
    method MapLoop(d: nat, a0: nat, last: nat, frame: nat, perm: set<nat>, ghost first: nat, ghost ws: seq<Write>)
        returns (ok: bool, ghost m: nat)
      requires Valid() && IsDir(owner, d) && Planned(first, frame, perm, ws, Now(d))
      requires a0 == PGSIZE * first && last == PGSIZE * (first + |ws| - 1) && ws != []
      modifies this`freelist, this`tab, this`page, this`owner
      ensures Mapping(d, ws, m, old(Now(d)))
      ensures ok ==> m == |ws|
      ensures !ok ==> m < |ws| && freelist == [] && !Present(tab[d][ws[m].i])
    {
      var a, f := a0, frame;
      m := 0;
      ghost var s := Now(d);
      while true
        invariant m < |ws| && a == PGSIZE * (first + m) && f == frame + m
        invariant Mapping(d, ws, m, s)
        decreases |ws| - m
      {
        ok := MapAt(d, a, f, perm, first, frame, ws, m, s);
        if !ok {
          return;
        }
        m := m + 1;
        if a == last {
          return;
        }
        a, f := a + PGSIZE, f + 1;
      }
    }

    /** mappages. Succeeds just when the free list holds the page tables that
        are missing; then exactly the given pages are new in the view, and the
        user pages among them have passed to the address space. */
    method MapPages(d: nat, va: nat, size: nat, pa: nat, perm: set<nat>, ghost first: nat, ghost frame: nat,
        ghost ws: seq<Write>) returns (ok: bool, ghost m: nat)
      requires Valid() && IsDir(owner, d) && 0 < size && va + size <= TOP && pa == PGSIZE * frame
      requires first == va / PGSIZE && |ws| == (va + size - 1) / PGSIZE - first + 1
      requires first + |ws| <= NPAGES && ws == Maps(first, |ws|, frame, perm)
      requires Unmapped(View(tab, d), ws) && HeldFor(Others(d), ws)
      modifies this`freelist, this`tab, this`page, this`owner
      ensures Mapping(d, ws, m, old(Now(d)))
      ensures ok <==> m == |ws|
      ensures ok <==> old(Now(d)).total >= |old(Now(d)).pdes + Touched(ws)|
    {
      PageSpan(va, size, first, |ws|);
      var f := pa / PGSIZE;
      assert f == frame;
      ok, m := MapRange(d, RoundDown(va), RoundDown(va + size - 1), f, perm, first, ws);
    }

    method MapRange(d: nat, a0: nat, last: nat, frame: nat, perm: set<nat>, ghost first: nat, ghost ws: seq<Write>)
      returns (ok: bool, ghost m: nat)
      requires Valid() && IsDir(owner, d) && Planned(first, frame, perm, ws, Now(d))
      requires a0 == PGSIZE * first && last == PGSIZE * (first + |ws| - 1) && ws != []
      modifies this`freelist, this`tab, this`page, this`owner
      ensures Mapping(d, ws, m, old(Now(d)))
      ensures ok <==> m == |ws|
      ensures ok <==> old(Now(d)).total >= |old(Now(d)).pdes + Touched(ws)|
    {
      ok, m := MapLoop(d, a0, last, frame, perm, first, ws);
      if ok {
        assert ws[..m] == ws;
      } else {
        MapFails(tab[d], old(Pdes(tab[d])), ws, m);
      }
    }

    /** The body of deallocuvm's loop for an entry whose page table t exists. */
    method ClearPage(d: nat, ghost i: nat, j: nat, t: nat)
      requires Valid() && IsDir(owner, d) && i < NUSER && j < N && Present(tab[d][i]) && t == tab[d][i].frame
      modifies this`freelist, this`tab, this`page, this`owner
      ensures Valid() && IsDir(owner, d) && tab[d] == old(tab[d])
      ensures View(tab, d) == With(old(View(tab, d)), i, j, ZERO) && Others(d) == old(Others(d))
      ensures Within(Bytes(), old(Bytes()))
    {
      assert tab[t][j] == Entry(tab, d, i, j) == View(tab, d)[i][j];
      if Present(tab[t][j]) {
        var f := tab[t][j].frame;
        Evicts(freelist, tab, owner, d, i, j, f, Junk());
        RestEvicts(tab, page, owner, d, i, j, f, Stored(tab[f := Junk()], d, i, j, ZERO), page[f := Fill(1)]);
        Kfree(f);
        tab := tab[t := tab[t][j := ZERO]];
        owner := owner[f := Free];
      } else {
        assert View(tab, d)[i][j := ZERO] == View(tab, d)[i];
      }
    }

    /** The state after the first m of the clearing writes. */
    ghost predicate Clearing(d: nat, ws: seq<Write>, m: nat, s: Snapshot)
      reads this
    {
      && Valid() && IsDir(owner, d) && |s.v| == N && InRange(ws) && m <= |ws|
      && View(tab, d) == Wrote(s.v, ws[..m])
      && Pdes(tab[d]) == s.pdes && Others(d) == s.others
      && Within(Bytes(), s.bytes)
    }

    /** One turn of deallocuvm's loop. */
    method DeallocTurn(d: nat, a: nat, ghost lo: nat, ghost ws: seq<Write>, ghost m: nat, ghost s: Snapshot)
        returns (b: nat, ghost n: nat)
      requires Clearing(d, ws, m, s) && m < |ws| && lo + |ws| <= NUSER * N && ws == Clears(lo, lo + |ws|)
          && a == PGSIZE * (lo + m)
      modifies this`freelist, this`tab, this`page, this`owner
      ensures Clearing(d, ws, n, s) && m < n
      ensures b + PGSIZE == PGSIZE * (lo + n) || (n == |ws| && b + PGSIZE >= PGSIZE * (lo + n))
    {
      ghost var w := ws[m];
      var i, j := Indices(a, lo + m, w);
      var found, t := WalkPgdir(d, i, false);
      if !found {
        b := SkipTable(a, lo + m, w);
        n := if lo + |ws| <= N * (w.i + 1) then |ws| else N * (w.i + 1) - lo;
        assert View(tab, d)[i] == ZeroTable();
        ClearsAbsent(s.v, ws, lo, m, n);
      } else {
        b, n := a, m + 1;
        ClearPage(d, i, j, t);
        OneMore(s.v, ws, m, w);
      }
    }

    /** deallocuvm: exactly the pages of [PGROUNDUP(newsz), oldsz) leave the
        view and go back to the free list; the jump over absent page tables
        misses none of them. */
    method Deallocuvm(d: nat, oldsz: nat, newsz: nat, ghost lo: nat, ghost hi: nat) returns (r: nat)
      requires Valid() && IsDir(owner, d) && oldsz <= KERNBASE
      requires newsz < oldsz ==> PageAt(lo, newsz) && PageAt(hi, oldsz)
      modifies this`freelist, this`tab, this`page, this`owner
      ensures r == if newsz >= oldsz then oldsz else newsz
      ensures newsz >= oldsz ==>
          freelist == old(freelist) && tab == old(tab) && page == old(page) && owner == old(owner)
      ensures newsz < oldsz ==> lo <= hi <= NPAGES && Clearing(d, Clears(lo, hi), hi - lo, old(Now(d)))
      ensures IsDir(owner, d) && |freelist| + |UsersOf(owner, d)| == old(|freelist| + |UsersOf(owner, d)|)
    {
      if newsz >= oldsz {
        return oldsz;
      }
      PagesBetween(newsz, oldsz, lo, hi);
      ghost var s, ws, m := Now(d), Clears(lo, hi), 0;
      var a := RoundUp(newsz);
      while a < oldsz
        invariant Clearing(d, ws, m, s)
        invariant a == PGSIZE * (lo + m) || (m == |ws| && a >= PGSIZE * (lo + m))
        decreases |ws| - m
      {
        assert lo + m < hi;
        a, m := DeallocTurn(d, a, lo, ws, m, s);
        a := a + PGSIZE;
      }
      assert m == hi - lo;
      r := newsz;
      FrameCount(old(freelist), old(tab), old(page), old(owner), d);
      FrameCount(freelist, tab, page, owner, d);
    }

    /** freevm has gone through the directory entries below i. */
    ghost predicate Freeing(d: nat, i: nat, tab1: Frames, page1: seq<Page>, owner1: Owners)
      reads this
    {
      && Valid() && LeavesOwned(tab1, owner1) && IsDir(owner1, d) && owner == Disbanding(owner1, d, i)
      && Outside(tab1, page1, owner1, d, tab, page) && tab[d] == tab1[d]
    }

    method FreeLeaf(d: nat, i: nat, ghost next: nat, ghost tab1: Frames, ghost page1: seq<Page>, ghost owner1: Owners)
      requires i < N && next == i + 1 && Freeing(d, i, tab1, page1, owner1)
      modifies this`freelist, this`tab, this`page, this`owner
      ensures Freeing(d, next, tab1, page1, owner1)
    {
      DisbandOne(tab1, owner1, d, i);
      if Present(tab[d][i]) {
        GiveBack(tab[d][i].frame);
      }
    }

    /** The loop of freevm over the directory of a space that has no user
        pages left and counts as held. */
    method FreeLeaves(d: nat, ghost tab1: Frames, ghost page1: seq<Page>, ghost owner1: Owners)
      requires Freeing(d, 0, tab1, page1, owner1)
      modifies this`freelist, this`tab, this`page, this`owner
      ensures Freeing(d, N, tab1, page1, owner1)
    {
      var i := 0;
      while i < N
        invariant i <= N && Freeing(d, i, tab1, page1, owner1)
      {
        var next := i + 1;
        FreeLeaf(d, i, next, tab1, page1, owner1);
        i := next;
      }
    }

    /** The directory and page tables of a space without user pages pass into
        the hands of freevm. */
    ghost method GiveUp(d: nat, v: seq<Table>)
      requires Valid() && IsDir(owner, d) && |v| == N && View(tab, d) == Wrote(v, Clears(0, NUSER * N)[..NUSER * N])
      modifies this`owner
      ensures Valid() && owner == Disbanding(old(owner), d, 0)
      ensures forall f :: f in old(owner) ==> !(old(owner)[f].User? && old(owner)[f].d == d)
    {
      GivenUp(freelist, tab, owner, d, v);
      owner := Disbanding(owner, d, 0);
    }

    /** freevm: every frame of the address space is free again, and nothing
        else changes. */
    method Freevm(d: nat)
      requires Valid() && IsDir(owner, d)
      modifies this`freelist, this`tab, this`page, this`owner
      ensures Valid() && owner == Released(old(owner), d, Free) && Others(d) == old(Others(d))
    {
      var _ := Deallocuvm(d, KERNBASE, 0, 0, NUSER * N);
      SameOthers(old(tab), old(page), old(owner), tab, page, owner, d);
      FreeTables(d, old(View(tab, d)));
    }

    /** freevm once the user pages are gone. */
    method FreeTables(d: nat, ghost v: seq<Table>)
      requires Valid() && IsDir(owner, d) && |v| == N && View(tab, d) == Wrote(v, Clears(0, NUSER * N)[..NUSER * N])
      modifies this`freelist, this`tab, this`page, this`owner
      ensures Valid() && owner == Released(old(owner), d, Free) && Others(d) == old(Others(d))
    {
      GiveUp(d, v);
      FreeLeaves(d, old(tab), old(page), old(owner));
      DisbandDone(old(tab), old(owner), d);
      GiveBack(d);
      OutsideRest(old(tab), old(page), old(owner), d, tab, page);
    }

    /** An address space under construction: the first k rows of kmap are in. */
    ghost predicate Building(d: nat, k: nat, total: nat, others: Estate, bytes: map<nat, Page>)
      reads this
    {
      && Valid() && IsDir(owner, d) && k <= 4 && View(tab, d) == KernelView(data, k)
      && Pdes(tab[d]) == KernelTables(data, k)
      && |freelist| + |Pdes(tab[d])| == total && Others(d) == others && Bytes() == bytes
    }

    /** mappages for pages of the kernel part, which take over no frames. */
    method MapKernel(d: nat, row: Row) returns (ok: bool)
      requires Valid() && IsDir(owner, d) && row.n > 0 && row.first + row.n <= NPAGES
      requires Unmapped(View(tab, d), RowWrites(row)) && HeldFor(Others(d), RowWrites(row))
      requires forall l :: 0 <= l < |RowWrites(row)| ==> RowWrites(row)[l].i >= NUSER
      modifies this`freelist, this`tab, this`page, this`owner
      ensures Valid() && IsDir(owner, d) && Others(d) == old(Others(d)) && Bytes() == old(Bytes())
      ensures ok <==> old(|freelist| + |Pdes(tab[d])|) >= |old(Pdes(tab[d])) + Touched(RowWrites(row))|
      ensures ok ==>
          View(tab, d) == Wrote(old(View(tab, d)), RowWrites(row))
          && Pdes(tab[d]) == old(Pdes(tab[d])) + Touched(RowWrites(row))
      ensures |freelist| + |Pdes(tab[d])| == old(|freelist| + |Pdes(tab[d])|)
    {
      ghost var ws := RowWrites(row);
      ghost var m;
      RowSpan(row);
      ok, m := MapPages(d, PGSIZE * row.first, PGSIZE * row.n, PGSIZE * row.frame, row.perm, row.first, row.frame, ws);
      assert ws[..|ws|] == ws;
      GivenPrefix(ws, m);
      WithoutNone(old(Others(d)));
    }

    /** The body of setupkvm's loop. */
    method MapRow(d: nat, k: nat, row: Row, ghost total: nat, ghost others: Estate, ghost bytes: map<nat, Page>)
        returns (ok: bool)
      requires Building(d, k, total, others, bytes) && k < 4 && row == Kmap(data)[k]
      modifies this`freelist, this`tab, this`page, this`owner
      ensures ok ==> Building(d, k + 1, total, others, bytes)
      ensures !ok ==> Valid() && IsDir(owner, d) && Others(d) == others
      ensures ok <==> total >= |KernelTables(data, k + 1)|
    {
      RowReady(data, k, Others(d));
      ok := MapKernel(d, row);
    }

    /** A directory that maps nothing yet. */
    method NewSpace() returns (ok: bool, d: nat)
      requires Valid()
      modifies this`freelist, this`tab, this`page, this`owner
      ensures Valid() && (ok <==> old(freelist) != [])
      ensures ok ==>
          d in old(owner) && old(owner)[d] == Free && Building(d, 0, |old(freelist)| - 1, old(Others(d)), old(Bytes()))
      ensures !ok ==> freelist == old(freelist) && owner == old(owner) && tab == old(tab) && page == old(page)
    {
      ok, d := Kalloc();
      if ok {
        Clear(d);
        DirMade(old(tab), old(page), old(owner), freelist, tab, page, owner, d);
        owner := owner[d := Dir];
      }
    }

    /** freevm of a space that was built since the given state, in which it
        owned nothing: that state's owners are back. */
    method Abandon(d: nat, ghost tab0: Frames, ghost page0: seq<Page>, ghost owner0: Owners)
      requires Valid() && IsDir(owner, d) && |page0| == |tab0| && owner0.Keys == managed
          && (forall f :: f in owner0 ==> f < |tab0| && !Belongs(owner0, f, d))
      requires Others(d) == Rest(tab0, page0, owner0, d)
      modifies this`freelist, this`tab, this`page, this`owner
      ensures Valid() && owner == owner0 && Others(d) == Rest(tab0, page0, owner0, d)
    {
      SameOthers(tab, page, owner, tab0, page0, owner0, d);
      assert Released(owner0, d, Free) == owner0;
      Freevm(d);
    }

    /** Every address space of the given state maps what it did, and no page
        has other contents. */
    ghost predicate Untouched(tab0: Frames, page0: seq<Page>, owner0: Owners)
      reads this
    {
      && Valid() && (forall f :: f in owner0 ==> f < |tab0|) && |page0| == |tab0|
      && Within(Contents(page0, owner0), Bytes())
      && forall e: nat :: IsDir(owner0, e) ==> IsDir(owner, e) && View(tab, e) == View(tab0, e)
    }

    /** The frames that a failed call leaves alone are all that there were. */
    lemma RestUntouched(d: nat, tab0: Frames, page0: seq<Page>, owner0: Owners)
      requires Valid() && LeavesOwned(tab0, owner0) && |page0| == |tab0| && d in owner0 && owner0[d] == Free
      requires forall f :: f in owner0 ==> !Belongs(owner0, f, d)
      requires forall f :: f in Rest(tab0, page0, owner0, d) ==>
          f in Others(d) && Others(d)[f] == Rest(tab0, page0, owner0, d)[f]
      ensures Untouched(tab0, page0, owner0)
    {
      var r := Rest(tab0, page0, owner0, d);
      assert forall f :: f in owner0 && owner0[f] != Free ==> f in r;
      forall e: nat | IsDir(owner0, e)
        ensures IsDir(owner, e) && View(tab, e) == View(tab0, e)
      {
        assert e in r;
        forall i | 0 <= i < N
          ensures Sub(tab, e, i) == Sub(tab0, e, i)
        {
          if Present(tab0[e][i]) {
            var t := tab0[e][i].frame;
            assert owner0[t] == Leaf(e, i) && t in r;
          }
        }
      }
    }

    /** setupkvm. Succeeds just when 65 frames are free: a directory and 64 page
        tables. Otherwise every frame is back where it was. */
    method Setupkvm() returns (ok: bool, d: nat)
      requires Valid()
      modifies this`freelist, this`tab, this`page, this`owner
      ensures Valid() && (ok <==> old(|freelist|) >= 65)
      ensures ok ==>
          d in old(owner) && old(owner)[d] == Free && Building(d, 4, old(|freelist|) - 1, old(Others(d)), old(Bytes()))
      ensures !ok ==> owner == old(owner) && Untouched(old(tab), old(page), old(owner))
    {
      ok, d := NewSpace();
      if !ok {
        return;
      }
      ok := MapRows(d, old(|freelist|) - 1, old(Others(d)), old(Bytes()));
      if !ok {
        NothingOwned(old(freelist), old(tab), old(owner), d);
        Abandon(d, old(tab), old(page), old(owner));
        RestUntouched(d, old(tab), old(page), old(owner));
      }
    }

    /** The loop of setupkvm. */
    method MapRows(d: nat, ghost total: nat, ghost others: Estate, ghost bytes: map<nat, Page>) returns (ok: bool)
      requires Building(d, 0, total, others, bytes)
      modifies this`freelist, this`tab, this`page, this`owner
      ensures ok ==> Building(d, 4, total, others, bytes)
      ensures !ok ==> Valid() && IsDir(owner, d) && Others(d) == others
      ensures ok <==> total >= 64
    {
      var kmap := Kmap(data);
      var k := 0;
      while k < |kmap|
        invariant k <= 4 && Building(d, k, total, others, bytes) && (k == 4 ==> total >= 64)
      {
        TablesUpTo(data, k + 1);
        ok := MapRow(d, k, kmap[k], total, others, bytes);
        if !ok {
          return;
        }
        k := k + 1;
      }
      return true;
    }

    /** memset or memmove into a frame in the caller's hands. */
    method FillFrame(f: nat, from: Source)
      requires Valid() && f in owner && owner[f] == Held && (from.Frame? ==> from.f in owner)
      modifies this`tab, this`page
      ensures Valid() && tab == old(tab)[f := tab[f]] && page == old(page)[f := page[f]]
      ensures page[f] == if from.Frame? then old(page)[from.f] else Fill(0)
      ensures forall d :: IsDir(owner, d) ==> View(tab, d) == old(View(tab, d))
    {
      if from.Frame? {
        Scribble(freelist, tab, owner, f, tab[from.f]);
        tab, page := tab[f := tab[from.f]], page[f := page[from.f]];
      } else {
        Clear(f);
      }
    }

    /** The writes ws have added pages with the contents cs to the space that s
        describes. */
    ghost predicate Grown(d: nat, lo: nat, ws: seq<Write>, cs: seq<Page>, s: Snapshot)
      reads this
    {
      && Valid() && IsDir(owner, d) && |s.v| == N && Consecutive(ws, lo) && |cs| == |ws|
      && View(tab, d) == Wrote(s.v, ws) && Pdes(tab[d]) == s.pdes + Touched(ws)
      && |freelist| + |Pdes(tab[d])| + |ws| == s.total && Others(d) == s.others
      && Within(s.bytes, Bytes()) && Filled(Bytes(), ws, cs)
    }

    /** s with frame f in the kernel's hands. */
    ghost function Holding(s: Snapshot, f: nat): Snapshot
      requires f < |tab| == |page| && s.total > 0
      reads this
    {
      Snapshot(s.v, s.pdes, s.total - 1, s.others[f := (Held, tab[f], page[f])], s.bytes[f := page[f]])
    }

    /** kalloc for a new user page, whose contents are zeroes or those of
        another frame. */
    method TakePage(d: nat, from: Source, ghost lo: nat, ghost ws: seq<Write>, ghost cs: seq<Page>, ghost s: Snapshot)
        returns (ok: bool, f: nat)
      requires Grown(d, lo, ws, cs, s) && (from.Frame? ==> from.f in owner && owner[from.f] != Free)
      modifies this`freelist, this`tab, this`page, this`owner
      ensures Valid() && IsDir(owner, d) && (ok <==> old(freelist) != [])
      ensures ok ==> f in owner && f !in s.others && f !in s.bytes && s.total > 0 && Grown(d, lo, ws, cs, Holding(s, f))
      ensures ok ==> page[f] == if from.Frame? then old(page)[from.f] else Fill(0)
      ensures !ok ==> Grown(d, lo, ws, cs, s) && freelist == []
    {
      ok, f := Kalloc();
      if ok {
        FillFrame(f, from);
        RestTaken(old(tab), old(page), old(owner), d, f, tab, page);
        OneMoreFrame(s.bytes, old(Bytes()), ws, cs, f, page[f]);
      }
    }

    /** mappages of the single user page at address a. */
    method MapOne(d: nat, a: nat, f: nat, perm: set<nat>, ghost vp: nat, ghost w: Write) returns (ok: bool)
      requires Valid() && IsDir(owner, d) && a == PGSIZE * vp && w.i < NUSER && w.j < N && vp == N * w.i + w.j
          && w.e == Pte(f, perm + {P})
      requires !Present(View(tab, d)[w.i][w.j]) && f in Others(d) && Others(d)[f].0 == Held
      modifies this`freelist, this`tab, this`page, this`owner
      ensures Valid() && IsDir(owner, d) && Bytes() == old(Bytes())
      ensures |freelist| + |Pdes(tab[d])| == old(|freelist| + |Pdes(tab[d])|)
      ensures ok ==>
          View(tab, d) == With(old(View(tab, d)), w.i, w.j, w.e) && Pdes(tab[d]) == old(Pdes(tab[d])) + {w.i}
          && Others(d) == old(Others(d)) - {f}
      ensures !ok ==>
          View(tab, d) == old(View(tab, d)) && Pdes(tab[d]) == old(Pdes(tab[d])) && Others(d) == old(Others(d))
      ensures ok <==> old(|freelist| + |Pdes(tab[d])|) >= |old(Pdes(tab[d])) + {w.i}|
    {
      ghost var ws := Maps(vp, 1, f, perm);
      MapsSingle(vp, f, perm, w);
      SingleReady(View(tab, d), Others(d), ws, w);
      SingleDone(View(tab, d), Pdes(tab[d]), Others(d), ws, w);
      OnePage(a, vp);
      ghost var m;
      ok, m := MapPages(d, a, PGSIZE, PGSIZE * f, perm, vp, f, ws);
    }

    /** The held frame f becomes the next user page. */
    method AddPage(d: nat, a: nat, f: nat, perm: set<nat>, ghost w: Write, ghost lo: nat, ghost ws: seq<Write>,
        ghost cs: seq<Page>, ghost s: Snapshot) returns (ok: bool)
      requires f < |tab| == |page| && s.total > 0 && Grown(d, lo, ws, cs, Holding(s, f)) && f !in s.others
          && f !in s.bytes
      requires a == PGSIZE * (lo + |ws|) && w.i < NUSER && w.j < N && lo + |ws| == N * w.i + w.j
          && w.e == Pte(f, perm + {P}) && !Present(s.v[w.i][w.j])
      modifies this`freelist, this`tab, this`page, this`owner
      ensures ok ==> Grown(d, lo, ws + [w], cs + [old(page[f])], s)
      ensures !ok ==> Grown(d, lo, ws, cs, old(Holding(s, f)))
      ensures ok <==> s.total > |s.pdes + Touched(ws) + {w.i}| + |ws|
    {
      ConsecutiveOne(s.v, ws, lo, w);
      PdesOne(s.pdes, Touched(ws), w.i);
      assert f in Others(d) && Others(d)[f].0 == Held;
      DropAdded(s.others, f, Others(d));
      ghost var c := page[f];
      FilledOne(s.bytes, Bytes(), ws, cs, w, c);
      ok := MapOne(d, a, f, perm, lo + |ws|, w);
    }

    /** The rollback of allocuvm. */
    method Rollback(d: nat, newsz: nat, oldsz: nat, ghost lo: nat, ghost hi: nat, ghost cl: seq<Write>,
        ghost ws: seq<Write>, ghost cs: seq<Page>, ghost s: Snapshot)
      requires Grown(d, lo, ws, cs, s) && oldsz < newsz < KERNBASE && PageAt(lo, oldsz) && PageAt(hi, newsz)
      requires lo <= hi <= NPAGES && cl == Clears(lo, hi) && |ws| <= |cl| && Blank(s.v, cl)
      modifies this`freelist, this`tab, this`page, this`owner
      ensures Valid() && IsDir(owner, d) && View(tab, d) == s.v && Others(d) == s.others
          && Within(Bytes(), old(Bytes()))
      ensures Pdes(tab[d]) == s.pdes + Touched(ws)
    {
      PagesBetween(oldsz, newsz, lo, hi);
      Restored(s.v, ws, lo, hi, cl);
      var _ := Deallocuvm(d, newsz, oldsz, lo, hi);
    }

    /** kfree of the page that allocuvm could not map. */
    method DropPage(d: nat, f: nat, ghost others: Estate)
      requires Valid() && IsDir(owner, d) && f !in others && f in Others(d) && Others(d) == others[f := Others(d)[f]]
          && Others(d)[f].0 == Held
      modifies this`freelist, this`tab, this`page, this`owner
      ensures Valid() && IsDir(owner, d) && View(tab, d) == old(View(tab, d)) && Others(d) == others
          && Within(Bytes(), old(Bytes()))
      ensures Pdes(tab[d]) == old(Pdes(tab[d]))
    {
      assert owner[f] == Held;
      DropAdded(others, f, Others(d));
      GiveBack(f);
      RestReturned(old(tab), old(page), old(owner), d, f, tab, page);
    }

    /** kalloc and mappages for the next user page. When mappages fails, the
        frame stays in the kernel's hands. */
    method NewPage(d: nat, a: nat, from: Source, perm: set<nat>, ghost u: Write, ghost lo: nat, ghost ws: seq<Write>,
        ghost cs: seq<Page>, ghost s: Snapshot)
      returns (ok: bool, taken: bool, f: nat, ghost w: Write, ghost c: Page, ghost h: Snapshot)
      requires Grown(d, lo, ws, cs, s) && (from.Frame? ==> from.f in owner && owner[from.f] != Free)
      requires a == PGSIZE * (lo + |ws|) && u.i < NUSER && u.j < N && lo + |ws| == N * u.i + u.j
          && !Present(s.v[u.i][u.j])
      modifies this`freelist, this`tab, this`page, this`owner
      ensures w == Write(u.i, u.j, Pte(f, perm + {P})) && c == if from.Frame? then old(page)[from.f] else Fill(0)
      ensures ok ==> taken && Grown(d, lo, ws + [w], cs + [c], s)
      ensures !taken ==> Grown(d, lo, ws, cs, s) && freelist == []
      ensures taken && !ok ==> Stuck(ws, s, u.i, f, h) && Grown(d, lo, ws, cs, h)
    {
      taken, f := TakePage(d, from, lo, ws, cs, s);
      w, c, h, ok := Write(u.i, u.j, Pte(f, perm + {P})), if from.Frame? then old(page)[from.f] else Fill(0), s, false;
      if taken {
        h := Holding(s, f);
        ok := AddPage(d, a, f, perm, w, lo, ws, cs, s);
      }
    }

    /** The body of allocuvm's loop, with its rollback. */
    method AllocPage(d: nat, a: nat, perm: set<nat>, newsz: nat, oldsz: nat, ghost lo: nat, ghost hi: nat,
        ghost cl: seq<Write>, ghost ws: seq<Write>, ghost cs: seq<Page>, ghost s: Snapshot)
        returns (ok: bool, ghost w: Write, ghost mid: map<nat, Page>)
      requires Grown(d, lo, ws, cs, s) && oldsz < newsz < KERNBASE && PageAt(lo, oldsz) && PageAt(hi, newsz)
      requires lo <= hi <= NUSER * N && cl == Clears(lo, hi) && |ws| < |cl| && Blank(s.v, cl)
          && a == PGSIZE * (lo + |ws|)
      modifies this`freelist, this`tab, this`page, this`owner
      ensures ok ==> w.e.flags == perm + {P} && Grown(d, lo, ws + [w], cs + [Fill(0)], s)
      ensures !ok ==> |s.pdes + Touched(ws)| + |ws| <= s.total <= |s.pdes + Touched(ws) + {cl[|ws|].i}| + |ws|
      ensures !ok ==>
          Valid() && IsDir(owner, d) && View(tab, d) == s.v && Others(d) == s.others && Within(Bytes(), mid)
          && Within(s.bytes, mid)
      ensures !ok ==> Pdes(tab[d]) == s.pdes + Touched(ws)
    {
      var taken, f;
      ghost var c, h;
      ok, taken, f, w, c, h := NewPage(d, a, Zeroes, perm, cl[|ws|], lo, ws, cs, s);
      mid := Bytes();
      if !taken {
        SubsetSize(s.pdes + Touched(ws), s.pdes + Touched(ws) + {cl[|ws|].i});
        Rollback(d, newsz, oldsz, lo, hi, cl, ws, cs, s);
      } else if !ok {
        WithinLess(s.bytes, f, h.bytes[f], mid);
        Rollback(d, newsz, oldsz, lo, hi, cl, ws, cs, h);
        DropPage(d, f, s.others);
      }
    }

    /** The view and the rest of an earlier state are back, so its pages are. */
    lemma Unchanged(d: nat, free0: seq<nat>, tab0: Frames, page0: seq<Page>, owner0: Owners, mid: map<nat, Page>)
      requires Valid() && IsDir(owner, d) && Inv(free0, tab0, owner0) && |page0| == |tab0| && IsDir(owner0, d)
      requires View(tab, d) == View(tab0, d) && Others(d) == Rest(tab0, page0, owner0, d)
      requires Within(Bytes(), mid) && Within(Contents(page0, owner0), mid)
      ensures Bytes() == Contents(page0, owner0)
    {
      SamePages(freelist, tab, page, owner, free0, tab0, page0, owner0, d);
      SamePages(free0, tab0, page0, owner0, freelist, tab, page, owner, d);
      SameBytes(Bytes(), Contents(page0, owner0), mid);
    }

    /** The loop of allocuvm. */
    method AllocLoop(d: nat, a0: nat, oldsz: nat, newsz: nat, ghost lo: nat, ghost hi: nat, ghost cl: seq<Write>,
        ghost s: Snapshot)
      returns (ok: bool, ghost ws: seq<Write>, ghost mid: map<nat, Page>)
      requires Valid() && IsDir(owner, d) && s == Now(d) && oldsz <= newsz < KERNBASE && PageAt(lo, oldsz)
          && PageAt(hi, newsz)
      requires lo <= hi <= NUSER * N && a0 == PGSIZE * lo && cl == Clears(lo, hi) && Blank(s.v, cl)
      modifies this`freelist, this`tab, this`page, this`owner
      ensures ok ==> |ws| == hi - lo && Grown(d, lo, ws, Zeroed(|ws|), s) && AllWith(ws, UserWritable() + {P})
      ensures !ok ==> |ws| < |cl| && Consecutive(ws, lo)
      ensures !ok ==> |s.pdes + Touched(ws)| + |ws| <= s.total <= |s.pdes + Touched(ws) + {cl[|ws|].i}| + |ws|
      ensures !ok ==>
          Valid() && IsDir(owner, d) && View(tab, d) == s.v && Others(d) == s.others && Within(Bytes(), mid)
          && Within(s.bytes, mid)
      ensures !ok ==> Pdes(tab[d]) == s.pdes + Touched(ws)
    {
      var a, perm := a0, UserWritable();
      ghost var w, cs := Write(0, 0, ZERO), [];
      ws, mid := [], Bytes();
      while a < newsz
        invariant a == PGSIZE * (lo + |ws|) && lo + |ws| <= hi && cs == Zeroed(|ws|)
        invariant Grown(d, lo, ws, cs, s) && AllWith(ws, perm + {P})
        decreases hi - lo - |ws|
      {
        ok, w, mid := AllocPage(d, a, perm, newsz, oldsz, lo, hi, cl, ws, cs, s);
        if !ok {
          return;
        }
        OneMorePage(ws, cs, w, perm + {P});
        ws, cs := ws + [w], cs + [Fill(0)];
        a := a + PGSIZE;
      }
      ok := true;
    }

    /** allocuvm. Succeeds just when the free frames cover the new pages and the
        page tables they lack; then exactly the pages of [PGROUNDUP(oldsz),
        newsz) are new, zeroed and writable by the user. A failed call leaves
        the view, the contents of all pages and all other spaces as they were,
        but the page tables that it made stay with the space. All frames are
        free again just when no page table was missing, or the frames ran out
        before the first missing one could be had. */
    method Allocuvm(d: nat, oldsz: nat, newsz: nat, ghost lo: nat, ghost hi: nat)
        returns (r: nat, ghost ok: bool, ghost ws: seq<Write>)
      requires Valid() && IsDir(owner, d)
      requires oldsz <= newsz < KERNBASE ==>
          PageAt(lo, oldsz) && PageAt(hi, newsz) && lo <= hi <= NPAGES && Blank(View(tab, d), Clears(lo, hi))
      modifies this`freelist, this`tab, this`page, this`owner
      ensures newsz >= KERNBASE ==> r == 0 && !ok
      ensures newsz < KERNBASE && newsz < oldsz ==> r == oldsz && !ok
      ensures newsz >= KERNBASE || newsz < oldsz ==>
          freelist == old(freelist) && tab == old(tab) && page == old(page) && owner == old(owner)
      ensures oldsz <= newsz < KERNBASE ==>
          lo <= hi <= NPAGES && (ok <==> old(Now(d)).total >= Cost(old(Now(d)).pdes, lo, hi))
          && r == if ok then newsz else 0
      ensures ok ==> |ws| == hi - lo && Grown(d, lo, ws, Zeroed(|ws|), old(Now(d))) && AllWith(ws, UserWritable() + {P})
      ensures !ok ==>
          Valid() && IsDir(owner, d) && View(tab, d) == old(View(tab, d)) && Others(d) == old(Others(d))
          && Bytes() == old(Bytes())
      ensures !ok ==>
          Pdes(tab[d]) == old(Pdes(tab[d])) + Touched(ws)
          && |freelist| + |Pdes(tab[d])| == old(|freelist| + |Pdes(tab[d])|)
      ensures !ok && oldsz <= newsz < KERNBASE ==>
                (|freelist| == old(|freelist|) <==> AllReturned(old(Pdes(tab[d])), lo, hi, old(|freelist|)))
    {
      if newsz >= KERNBASE {
        return 0, false, [];
      }
      if newsz < oldsz {
        return oldsz, false, [];
      }
      ghost var s, cl := Now(d), Clears(lo, hi);
      PagesUpTo(oldsz, newsz, lo, hi);
      var done, us, mid := AllocLoop(d, RoundUp(oldsz), oldsz, newsz, lo, hi, cl, s);
      if !done {
        CostFails(s.pdes, us, lo, hi, cl[|us|]);
        Unchanged(d, old(freelist), old(tab), old(page), old(owner), mid);
        Conserved(freelist, tab, page, owner, old(freelist), old(tab), old(page), old(owner), d);
        TablesKept(s.pdes, us, lo, hi, old(|freelist|));
        return 0, false, us;
      }
      CostMet(s.pdes, us, lo, hi);
      return newsz, true, us;
    }

    /** Directory p seen from a state in which nothing outside d has changed. */
    lemma ParentSame(d: nat, p: nat, tab0: Frames, page0: seq<Page>, owner0: Owners)
      requires Valid() && LeavesOwned(tab0, owner0) && |page0| == |tab0| && IsDir(owner0, p) && p != d
          && IsDir(owner, d)
      requires forall f {:trigger owner0[f]} :: f in Rest(tab0, page0, owner0, d) ==>
          f in Others(d) && Others(d)[f] == Rest(tab0, page0, owner0, d)[f]
      ensures IsDir(owner, p) && View(tab, p) == View(tab0, p) && tab[p] == tab0[p]
    {
      ghost var r := Rest(tab0, page0, owner0, d);
      assert p in r;
      forall i | 0 <= i < N
        ensures Sub(tab, p, i) == Sub(tab0, p, i)
      {
        if Present(tab0[p][i]) {
          ghost var t := tab0[p][i].frame;
          assert owner0[t] == Leaf(p, i) && t in r;
        }
      }
    }

    /** The entry of directory p for address a, which is mapped. */
    method ReadPte(p: nat, a: nat, ghost vp: nat, ghost u: Write) returns (e: Pte)
      requires Valid() && IsDir(owner, p) && a == PGSIZE * vp && u.i < N && u.j < N && N * u.i + u.j == vp
          && Present(View(tab, p)[u.i][u.j])
      modifies this`freelist, this`tab, this`page, this`owner
      ensures freelist == old(freelist) && tab == old(tab) && page == old(page) && owner == old(owner)
      ensures e == old(View(tab, p))[u.i][u.j] && e.flags + {P} == e.flags
    {
      var i, j := Indices(a, vp, u);
      assert View(tab, p)[i][j] == Entry(tab, p, i, j) && Present(tab[p][i]);
      var found, t := WalkPgdir(p, i, false);
      e := tab[t][j];
    }

    /** The body of copyuvm's loop. */
    method CopyPage(d: nat, p: nat, a: nat, ghost pv: seq<Table>, ghost cl: seq<Write>, ghost ws: seq<Write>,
        ghost cs: seq<Page>, ghost s: Snapshot)
      returns (ok: bool, taken: bool, f: nat, ghost w: Write, ghost c: Page, ghost h: Snapshot)
      requires Grown(d, 0, ws, cs, s) && IsDir(owner, p) && View(tab, p) == pv && a == PGSIZE * |ws|
      requires |cl| <= NUSER * N && cl == Clears(0, |cl|) && |ws| < |cl| && Blank(s.v, cl) && AllPresent(pv, cl)
          && Backed(pv, cl, s.bytes)
      requires Copied(ws, cs, pv, s.bytes)
      modifies this`freelist, this`tab, this`page, this`owner
      ensures ok ==> Grown(d, 0, ws + [w], cs + [c], s) && Copied(ws + [w], cs + [c], pv, s.bytes)
      ensures !taken ==> !ok && Grown(d, 0, ws, cs, s) && freelist == []
      ensures taken && !ok ==> Stuck(ws, s, cl[|ws|].i, f, h) && Grown(d, 0, ws, cs, h)
    {
      ghost var u := cl[|ws|];
      var e := ReadPte(p, a, |ws|, u);
      ok, taken, f, w, c, h := NewPage(d, a, Frame(e.frame), e.flags, u, 0, ws, cs, s);
      CopiedOne(ws, cs, pv, s.bytes, w, e);
    }

    /** The loop of copyuvm, until all pages are copied or the frames run out. */
    method CopyLoop(d: nat, p: nat, sz: nat, ghost cl: seq<Write>, ghost s: Snapshot, ghost tab0: Frames,
        ghost page0: seq<Page>, ghost owner0: Owners)
      returns (ok: bool, taken: bool, f: nat, ghost ws: seq<Write>, ghost cs: seq<Page>, ghost h: Snapshot)
      requires Grown(d, 0, [], [], s) && LeavesOwned(tab0, owner0) && |page0| == |tab0|
          && s.others == Rest(tab0, page0, owner0, d) && IsDir(owner0, p) && p != d
      requires sz <= KERNBASE && PageAt(|cl|, sz) && |cl| <= NUSER * N && cl == Clears(0, |cl|)
      requires Blank(s.v, cl) && AllPresent(View(tab0, p), cl) && Backed(View(tab0, p), cl, s.bytes)
      modifies this`freelist, this`tab, this`page, this`owner
      ensures |ws| <= |cl| && Consecutive(ws, 0) && |cs| == |ws| && Copied(ws, cs, View(tab0, p), s.bytes)
      ensures ok ==> |ws| == |cl| && Grown(d, 0, ws, cs, s)
      ensures !ok ==> |ws| < |cl|
      ensures !ok && !taken ==> Grown(d, 0, ws, cs, s) && freelist == []
      ensures !ok && taken ==> Stuck(ws, s, cl[|ws|].i, f, h) && Grown(d, 0, ws, cs, h)
    {
      var a := 0;
      ghost var pv := View(tab0, p);
      ghost var w, c;
      ws, cs, h, ok, taken, f := [], [], s, true, false, 0;
      while a < sz
        invariant a == PGSIZE * |ws| && |ws| <= |cl| && ok
        invariant Grown(d, 0, ws, cs, s) && Copied(ws, cs, pv, s.bytes)
        decreases |cl| - |ws|
      {
        ParentSame(d, p, tab0, page0, owner0);
        ok, taken, f, w, c, h := CopyPage(d, p, a, pv, cl, ws, cs, s);
        if !ok {
          return;
        }
        ws, cs := ws + [w], cs + [c];
        a := a + PGSIZE;
      }
    }

    /** The child's address space before any page is copied. */
    ghost function ChildStart(d: nat): Snapshot
      requires Valid()
      reads this
    {
      Snapshot(KernelView(data, 4), KernelTables(data, 4),
          if |freelist| > 0 then |freelist| - 1 else 0, Others(d), Bytes())
    }

    /** copyuvm gives up with frame f, already filled but not mapped. */
    method AbandonWith(d: nat, f: nat, ghost h: Snapshot, ghost free0: seq<nat>, ghost tab0: Frames,
        ghost page0: seq<Page>, ghost owner0: Owners)
      requires Valid() && IsDir(owner, d) && Others(d) == h.others && Inv(free0, tab0, owner0) && |page0| == |tab0|
          && owner0.Keys == managed
      requires d in owner0 && owner0[d] == Free && f !in Rest(tab0, page0, owner0, d) && f in h.others
          && h.others[f].0 == Held
      requires h.others == Rest(tab0, page0, owner0, d)[f := h.others[f]]
      modifies this`freelist, this`tab, this`page, this`owner
      ensures Valid() && f in owner0 && owner0[f] == Free && owner == owner0[f := Held]
          && Untouched(tab0, page0, owner0)
    {
      NothingOwned(free0, tab0, owner0, d);
      assert f in Others(d) && f in owner && f != d && f in owner0;
      RestLost(tab0, page0, owner0, d, f, h.others[f].1, h.others[f].2);
      Abandon(d, tab0[f := h.others[f].1], page0[f := h.others[f].2], owner0[f := Held]);
      RestUntouched(d, tab0, page0, owner0);
    }

    /** copyuvm once the child has its kernel part, in the form of its effect on
        the state that it started from. */
    method CopyInto(d: nat, p: nat, sz: nat, ghost cl: seq<Write>, ghost s: Snapshot, ghost free0: seq<nat>,
        ghost tab0: Frames, ghost page0: seq<Page>, ghost owner0: Owners)
      returns (ok: bool, lost: nat, ghost ws: seq<Write>, ghost cs: seq<Page>)
      requires Grown(d, 0, [], [], s) && Inv(free0, tab0, owner0) && |page0| == |tab0| && owner0.Keys == managed
      requires s.others == Rest(tab0, page0, owner0, d) && s.pdes == KernelTables(data, 4) && s.total == |free0| - 1
      requires d in owner0 && owner0[d] == Free && IsDir(owner0, p)
      requires sz <= KERNBASE && PageAt(|cl|, sz) && |cl| <= NUSER * N && cl == Clears(0, |cl|)
      requires Blank(s.v, cl) && AllPresent(View(tab0, p), cl) && Backed(View(tab0, p), cl, s.bytes)
      modifies this`freelist, this`tab, this`page, this`owner
      ensures Valid() && (ok <==> |free0| >= CopyNeeds(|cl|))
      ensures ok ==> |ws| == |cl| && Grown(d, 0, ws, cs, s) && Copied(ws, cs, View(tab0, p), s.bytes)
      ensures !ok && !CopyLoses(|free0|, |cl|) ==> owner == owner0
      ensures !ok && CopyLoses(|free0|, |cl|) ==>
          lost in owner0 && owner0[lost] == Free && owner == owner0[lost := Held]
      ensures !ok ==> Untouched(tab0, page0, owner0)
    {
      var taken;
      ghost var h;
      ok, taken, lost, ws, cs, h := CopyLoop(d, p, sz, cl, s, tab0, page0, owner0);
      UserTables(data, ws, |ws|);
      if ok {
        return;
      }
      if taken {
        CopyRanOut(s.pdes, ws, cl, s.total);
        CopyLeaks(|free0|, |cl|, |ws|);
        AbandonWith(d, lost, h, free0, tab0, page0, owner0);
      } else {
        CopyStops(|free0|, |cl|, |ws|);
        NothingOwned(free0, tab0, owner0, d);
        Abandon(d, tab0, page0, owner0);
        RestUntouched(d, tab0, page0, owner0);
      }
    }

    /** copyuvm. Succeeds just when the frames suffice; then the child has the
        kernel's part, and for each page of the parent a frame of its own with
        the same bytes and flags. A failed call gives every frame back, except
        that it loses one just when CopyLoses says so. */
    method Copyuvm(p: nat, sz: nat, ghost pages: nat)
        returns (ok: bool, d: nat, lost: nat, ghost ws: seq<Write>, ghost cs: seq<Page>)
      requires Valid() && IsDir(owner, p) && sz <= KERNBASE && PageAt(pages, sz) && pages <= NUSER * N
          && AllPresent(View(tab, p), Clears(0, pages))
      modifies this`freelist, this`tab, this`page, this`owner
      ensures Valid() && (ok <==> old(|freelist|) >= CopyNeeds(pages))
      ensures ok ==>
          d in old(owner) && old(owner)[d] == Free && |ws| == pages && Grown(d, 0, ws, cs, old(ChildStart(d)))
      ensures ok ==> Copied(ws, cs, old(View(tab, p)), old(Bytes()))
      ensures !ok && !CopyLoses(old(|freelist|), pages) ==> owner == old(owner)
      ensures !ok && CopyLoses(old(|freelist|), pages) ==>
          lost in old(owner) && old(owner)[lost] == Free && owner == old(owner)[lost := Held]
      ensures !ok ==> Untouched(old(tab), old(page), old(owner))
    {
      ws, cs, lost := [], [], 0;
      ok, d := Setupkvm();
      if !ok {
        return;
      }
      ghost var cl := Clears(0, pages);
      UserBlank(data, cl);
      PresentIsBacked(old(freelist), old(tab), old(page), old(owner), p, cl);
      ok, lost, ws, cs := CopyInto(d, p, sz, cl, old(ChildStart(d)), old(freelist), old(tab), old(page), old(owner));
    }
  }
}
