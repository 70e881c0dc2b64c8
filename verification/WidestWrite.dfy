/** Volumes in which a write logs as many blocks as it can: every block that is
    still free lies in a bitmap block of its own. */
module WidestWrite {
  import opened Params
  import opened Volume
  import opened Footprint

  /** A volume with f free blocks, the first of each of the f last stretches
      that a bitmap block covers. */
  function Geometry(f: nat): Layout {
    Layout(f * BPB, 2 + f * 1024, 2)
  }

  predicate IsFree(f: nat, b: nat) {
    f * BPB <= b < 2 * f * BPB && b % BPB == 0
  }

  /** Inode 0 has its first m blocks and the size z; every other block in use
      belongs to the inode of that number. */
  function Addr(f: nat, m: nat, j: nat, s: nat): nat {
    if j == 0 then if s < m then f * BPB + 1 + s else 0
    else if s == 0 && f * BPB + m < j && j % BPB != 0 then j
    else 0
  }

  function AddrsOf(f: nat, m: nat, j: nat): (a: Addrs)
    ensures forall s :: 0 <= s <= NDIRECT ==> a[s] == Addr(f, m, j, s)
  {
    seq(NDIRECT + 1, s requires 0 <= s <= NDIRECT => Addr(f, m, j, s))
  }

  function InodeOf(f: nat, m: nat, z: nat, j: nat): Inode {
    Inode(if j == 0 then z else 0, AddrsOf(f, m, j))
  }

  ghost function Packed(f: nat, m: nat, z: nat): (v: Vol)
    ensures |v.used| == |v.data| == |v.table| == |v.ino| == 2 * f * BPB
    ensures forall b: nat :: b < 2 * f * BPB ==> (v.used[b] <==> !IsFree(f, b))
    ensures forall j: nat :: j < 2 * f * BPB ==> v.ino[j] == InodeOf(f, m, z, j)
  {
    var n := 2 * f * BPB;
    Vol(seq(n, b requires 0 <= b < n => !IsFree(f, b)), seq(n, _ => ZeroBytes()), seq(n, _ => ZeroTable()),
        seq(n, j requires 0 <= j < n => InodeOf(f, m, z, j)))
  }

  ghost function PackedOwners(f: nat, m: nat): Owners {
    map b: nat | b < 2 * f * BPB && f * BPB <= b && !IsFree(f, b) ::
      if b <= f * BPB + m then Place(0, b - f * BPB - 1) else Place(b, 0)
  }

  /** The metadata fits in front of the data. */
  ghost predicate Laid(g: Layout, v: Vol) {
    && (forall i: nat :: i < |v.ino| ==> IBlock(g, i) < g.bmapstart)
    && (forall b: nat :: b < |v.used| ==> BBlock(g, b) < g.nmeta)
  }

  lemma PackedShape(f: nat, m: nat, z: nat)
    requires f > 0 && m <= NDIRECT
    ensures Shape(Packed(f, m, z)) && Laid(Geometry(f), Packed(f, m, z))
    ensures forall j: nat, s: nat :: j < 2 * f * BPB && s < NSLOTS ==>
              Slot(Packed(f, m, z), j, s) == if s <= NDIRECT then Addr(f, m, j, s) else 0
  {
    var v := Packed(f, m, z);
    assert forall j: nat :: j < 2 * f * BPB ==> v.ino[j].addrs[NDIRECT] == 0;
  }

  /** The slots of inode 0. */
  lemma PackedSlots(f: nat, m: nat, z: nat)
    requires f > 0 && m <= NDIRECT
    ensures Shape(Packed(f, m, z)) && 0 < |Packed(f, m, z).ino|
    ensures forall s :: 0 <= s < NSLOTS ==> SlotsOf(Packed(f, m, z), 0)[s] == if s < m then f * BPB + 1 + s else 0
  {
    PackedShape(f, m, z);
  }

  lemma PackedOwned(f: nat, m: nat, z: nat)
    requires f > 0 && m <= NDIRECT
    ensures Owned(Packed(f, m, z), PackedOwners(f, m), Geometry(f).nmeta)
  {
    PackedShape(f, m, z);
    var v, owner := Packed(f, m, z), PackedOwners(f, m);
    forall i: nat, s: nat | i < |v.ino| && s < NSLOTS && Slot(v, i, s) != 0
      ensures Slot(v, i, s) in owner && owner[Slot(v, i, s)] == Place(i, s)
    {
      TakenAddr(f, m, i, s);
    }
  }

  lemma TakenAddr(f: nat, m: nat, i: nat, s: nat)
    requires f > 0 && m <= NDIRECT && i < 2 * f * BPB && s <= NDIRECT && Addr(f, m, i, s) != 0
    ensures Addr(f, m, i, s) in PackedOwners(f, m) && PackedOwners(f, m)[Addr(f, m, i, s)] == Place(i, s)
  {
  }

  lemma PackedInv(f: nat, m: nat, z: nat)
    requires f > 0 && m <= NDIRECT && z <= m * BSIZE
    ensures Inv(Packed(f, m, z), PackedOwners(f, m), Geometry(f).nmeta)
  {
    PackedShape(f, m, z);
    PackedOwned(f, m, z);
    var v := Packed(f, m, z);
    forall i: nat, bn: nat | i < |v.ino| && bn < MAXFILE && bn * BSIZE < v.ino[i].size
      ensures Slot(v, i, SlotOf(bn)) != 0
    {
      assert i == 0 && bn < m;
    }
  }

  /** The first k free blocks. */
  ghost function Heads(f: nat, k: nat): set<nat> {
    if k == 0 then {} else Heads(f, k - 1) + {(f + k - 1) * BPB}
  }

  lemma {:induction false} HeadsAre(f: nat, k: nat, b: nat)
    ensures b in Heads(f, k) <==> f * BPB <= b < (f + k) * BPB && b % BPB == 0
  {
    if k > 0 {
      HeadsAre(f, k - 1, b);
      NextHead(f + k - 1, b);
    }
  }

  lemma NextHead(q: nat, b: nat)
    ensures b == q * BPB <==> q * BPB <= b < (q + 1) * BPB && b % BPB == 0
  {
  }

  lemma HeadBit(g: Layout, q: nat)
    ensures Bits(g, {q * BPB}) == {q + g.bmapstart}
  {
    assert BBlock(g, q * BPB) == q + g.bmapstart;
  }

  lemma {:induction false} HeadBits(f: nat, k: nat, g: Layout, x: nat)
    ensures x in Bits(g, Heads(f, k)) <==> f + g.bmapstart <= x < f + k + g.bmapstart
  {
    if k > 0 {
      HeadBits(f, k - 1, g, x);
      BitsUnion(g, Heads(f, k - 1), {(f + k - 1) * BPB});
      HeadBit(g, f + k - 1);
    }
  }

  lemma HeadNew(f: nat, k: nat, h: nat)
    requires k > 0 && h == (f + k - 1) * BPB
    ensures h !in Heads(f, k - 1) && Heads(f, k) == Heads(f, k - 1) + {h}
  {
    HeadsAre(f, k - 1, h);
  }

  lemma {:induction false} HeadsSize(f: nat, k: nat)
    ensures |Heads(f, k)| == k
  {
    if k > 0 {
      var h := (f + k - 1) * BPB;
      HeadsSize(f, k - 1);
      HeadNew(f, k, h);
      OneMore(Heads(f, k - 1), h);
    }
  }

  lemma NextBit(f: nat, k: nat, g: Layout)
    requires k > 0
    ensures Bits(g, Heads(f, k)) == Bits(g, Heads(f, k - 1)) + {f + k - 1 + g.bmapstart}
    ensures f + k - 1 + g.bmapstart !in Bits(g, Heads(f, k - 1))
  {
    BitsUnion(g, Heads(f, k - 1), {(f + k - 1) * BPB});
    HeadBit(g, f + k - 1);
    HeadBits(f, k - 1, g, f + k - 1 + g.bmapstart);
  }

  lemma {:induction false} HeadBitsSize(f: nat, k: nat, g: Layout)
    ensures |Bits(g, Heads(f, k))| == k
  {
    if k == 0 {
      assert Bits(g, Heads(f, 0)) == {};
    } else {
      HeadBitsSize(f, k - 1, g);
      NextBit(f, k, g);
      OneMore(Bits(g, Heads(f, k - 1)), f + k - 1 + g.bmapstart);
    }
  }

  /** All free blocks: what a write that needs f of them takes. */
  lemma TakesAll(f: nat, m: nat, z: nat)
    ensures FreeBlocks(Packed(f, m, z).used) == Heads(f, f) && |FreeBlocks(Packed(f, m, z).used)| == f
    ensures Picks(Packed(f, m, z).used, f) == Heads(f, f)
  {
    var used := Packed(f, m, z).used;
    forall b: nat
      ensures b in FreeBlocks(used) <==> b in Heads(f, f)
    {
      HeadsAre(f, f, b);
    }
    assert FreeBlocks(used) == Heads(f, f);
    HeadsSize(f, f);
    FirstUnique(used, Picks(used, f), FreeBlocks(used));
  }

  /** A write to inode 0 that grows the file and fills f slots, finding e blocks. */
  lemma PackedLog(f: nat, m: nat, z: nat, off: nat, n: nat, e: nat)
    requires f > 0 && m <= NDIRECT && z <= m * BSIZE && n > 0 && off + n <= MAXFILE * BSIZE && off + n > z
    requires Shape(Packed(f, m, z)) && DataOnly(DataSlots(off, n))
    requires |MissingFor(Packed(f, m, z), 0, off, n)| == f
    requires |Existing(SlotsOf(Packed(f, m, z), 0), DataSlots(off, n))| == e
    requires forall x :: x in Existing(SlotsOf(Packed(f, m, z), 0), DataSlots(off, n)) ==> x >= f * BPB && x % BPB != 0
    ensures Enough(Packed(f, m, z), 0, off, n)
    ensures |LogOf(Packed(f, m, z), Geometry(f), 0, off, n)| == e + f + f + 1
  {
    TakesAll(f, m, z);
    HeadsSize(f, f);
    HeadBitsSize(f, f, Geometry(f));
    PackedLogIs(f, m, z, off, n);
    PartsApart(f, Geometry(f), Existing(SlotsOf(Packed(f, m, z), 0), DataSlots(off, n)));
  }

  lemma PackedLogIs(f: nat, m: nat, z: nat, off: nat, n: nat)
    requires f > 0 && m <= NDIRECT && n > 0 && off + n <= MAXFILE * BSIZE && off + n > z
    requires Shape(Packed(f, m, z)) && DataOnly(DataSlots(off, n)) && |MissingFor(Packed(f, m, z), 0, off, n)| == f
    requires |FreeBlocks(Packed(f, m, z).used)| == f && Picks(Packed(f, m, z).used, f) == Heads(f, f)
    ensures Enough(Packed(f, m, z), 0, off, n)
    ensures LogOf(Packed(f, m, z), Geometry(f), 0, off, n) ==
            Existing(SlotsOf(Packed(f, m, z), 0), DataSlots(off, n)) + Heads(f, f) + Bits(Geometry(f), Heads(f, f))
                + {2}
  {
    PackedFile(f, m, z, off, n);
    LogParts(Packed(f, m, z), Geometry(f), 0, off, n, Heads(f, f), {2});
  }

  lemma PackedFile(f: nat, m: nat, z: nat, off: nat, n: nat)
    requires f > 0 && m <= NDIRECT && n > 0 && off + n > z && Shape(Packed(f, m, z))
    ensures SlotsOf(Packed(f, m, z), 0)[NDIRECT] == 0 && InodeLogged(Packed(f, m, z), Geometry(f), 0, off, n) == {2}
  {
  }

  lemma LogParts(v: Vol, g: Layout, i: nat, off: nat, n: nat, p: set<nat>, x: set<nat>)
    requires Shape(v) && i < |v.ino| && off + n <= MAXFILE * BSIZE && Enough(v, i, off, n)
        && DataOnly(DataSlots(off, n))
    requires p == Picks(v.used, |MissingFor(v, i, off, n)|) && SlotsOf(v, i)[NDIRECT] == 0
        && x == InodeLogged(v, g, i, off, n)
    ensures LogOf(v, g, i, off, n) == Existing(SlotsOf(v, i), DataSlots(off, n)) + p + Bits(g, p) + x
  {
    PackedParts(SlotsOf(v, i), g, DataSlots(off, n), p);
  }

  lemma PackedParts(a: Slots, g: Layout, d: set<nat>, p: set<nat>)
    requires DataOnly(d) && a[NDIRECT] == 0
    ensures LogWith(a, g, d, p) == Existing(a, d) + p + Bits(g, p)
  {
  }

  lemma PartsApart(f: nat, g: Layout, x: set<nat>)
    requires f > 0 && g == Geometry(f) && forall c :: c in x ==> c >= f * BPB && c % BPB != 0
    ensures |x + Heads(f, f) + Bits(g, Heads(f, f)) + {2}| == |x| + |Heads(f, f)| + |Bits(g, Heads(f, f))| + 1
  {
    var p, b := Heads(f, f), Bits(g, Heads(f, f));
    forall c: nat
      ensures c in p ==> c >= f * BPB && c % BPB == 0
      ensures c in b ==> 2 < c < f * BPB
    {
      HeadsAre(f, f, c);
      HeadBits(f, f, g, c);
    }
    assert x !! p;
    assert (x + p) !! b;
    assert (x + p + b) !! {2};
  }

  lemma FirstSlots(k: nat, n: nat)
    requires 0 < k <= MAXFILE && (k - 1) * BSIZE < n <= k * BSIZE
    ensures |DataSlots(0, n)| == k && ((exists s :: s in DataSlots(0, n) && s > NDIRECT) <==> k > NDIRECT)
  {
    assert (n - 1) / BSIZE + 1 == k;
    SlotsBetweenSize(0, k);
    if k > NDIRECT {
      SlotsBetweenAre(0, k, NDIRECT + 1);
      assert NDIRECT + 1 in DataSlots(0, n);
    }
    forall s | s in DataSlots(0, n) && s > NDIRECT
      ensures k > NDIRECT
    {
      SlotsBetweenAre(0, k, s);
    }
  }

  /** An inode without blocks misses all that it needs. */
  lemma AllMissing(a: Slots, d: set<nat>)
    requires DataOnly(d) && forall s: nat :: s < NSLOTS ==> a[s] == 0
    ensures Existing(a, d) == {}
    ensures |Missing(a, d)| == |d| + if exists s :: s in d && s > NDIRECT then 1 else 0
  {
    SlotsSplit(a, d);
    assert EmptySlots(a, d) == d;
  }

  /** A file that starts empty and gets k blocks. */
  lemma FromEmpty(k: nat, n: nat) returns (f: nat)
    requires 4 < k <= MAXFILE && (k - 1) * BSIZE < n <= k * BSIZE
    ensures f > 0 && Shape(Packed(f, 0, 0)) && Enough(Packed(f, 0, 0), 0, 0, n)
    ensures |LogOf(Packed(f, 0, 0), Geometry(f), 0, 0, n)| > MAXOPBLOCKS
  {
    f := if k > NDIRECT then k + 1 else k;
    PackedShape(f, 0, 0);
    DataSlotsOnly(0, n);
    FirstSlots(k, n);
    AllMissing(SlotsOf(Packed(f, 0, 0), 0), DataSlots(0, n));
    PackedLog(f, 0, 0, 0, n, 0);
  }

  /** The slots of blocks 9 to 12. */
  lemma FourSlots()
    ensures SlotsBetween(9, 13) == {9, 10, 11, 13}
  {
    forall s: nat
      ensures s in SlotsBetween(9, 13) <==> s in {9, 10, 11, 13}
    {
      SlotsBetweenAre(9, 13, s);
    }
  }

  lemma InFourBlocks(off: nat, n: nat)
    requires 9 * BSIZE <= off < 10 * BSIZE && 12 * BSIZE < off + n <= 13 * BSIZE
    ensures DataSlots(off, n) == SlotsBetween(9, 13)
  {
  }

  /** A write of 1537 to 2048 bytes behind a file of nine blocks: four data
      blocks, the indirect block, five bitmap blocks and the inode. */
  lemma BeyondChunk(n: nat)
    requires 3 * BSIZE < n <= 4 * BSIZE
    ensures Shape(Packed(5, 9, 9 * BSIZE)) && Enough(Packed(5, 9, 9 * BSIZE), 0, 9 * BSIZE, n)
    ensures |LogOf(Packed(5, 9, 9 * BSIZE), Geometry(5), 0, 9 * BSIZE, n)| == 11
  {
    var v, d := Packed(5, 9, 9 * BSIZE), DataSlots(9 * BSIZE, n);
    PackedSlots(5, 9, 9 * BSIZE);
    DataSlotsOnly(9 * BSIZE, n);
    FourSlots();
    InFourBlocks(9 * BSIZE, n);
    BeyondSlots(SlotsOf(v, 0), d);
    PackedLog(5, 9, 9 * BSIZE, 9 * BSIZE, n, 0);
  }

  lemma BeyondSlots(a: Slots, d: set<nat>)
    requires d == {9, 10, 11, 13} && forall s :: 9 <= s < NSLOTS ==> a[s] == 0
    ensures DataOnly(d) && |Missing(a, d)| == 5 && Existing(a, d) == {}
  {
    assert 13 in d;
    assert Missing(a, d) == {9, 10, 11, 12, 13};
  }

  /** A write of CHUNK bytes that starts inside the tenth block: four data
      blocks, the indirect block, four bitmap blocks and the inode. */
  lemma ChunkLog()
    ensures Shape(Packed(4, 10, 9 * BSIZE + 1)) && Enough(Packed(4, 10, 9 * BSIZE + 1), 0, 9 * BSIZE + 1, CHUNK)
    ensures |LogOf(Packed(4, 10, 9 * BSIZE + 1), Geometry(4), 0, 9 * BSIZE + 1, CHUNK)| == MAXOPBLOCKS
  {
    var v, d := Packed(4, 10, 9 * BSIZE + 1), DataSlots(9 * BSIZE + 1, CHUNK);
    PackedSlots(4, 10, 9 * BSIZE + 1);
    DataSlotsOnly(9 * BSIZE + 1, CHUNK);
    FourSlots();
    InFourBlocks(9 * BSIZE + 1, CHUNK);
    ChunkSlots(SlotsOf(v, 0), d);
    PackedLog(4, 10, 9 * BSIZE + 1, 9 * BSIZE + 1, CHUNK, 1);
  }

  lemma ChunkSlots(a: Slots, d: set<nat>)
    requires d == {9, 10, 11, 13} && a[9] == 4 * BPB + 10 && forall s :: 9 < s < NSLOTS ==> a[s] == 0
    ensures DataOnly(d) && |Missing(a, d)| == 4 && |Existing(a, d)| == 1
    ensures forall x :: x in Existing(a, d) ==> x >= 4 * BPB && x % BPB != 0
  {
    assert 13 in d && 9 in d;
    assert Missing(a, d) == {10, 11, 12, 13} && Existing(a, d) == {4 * BPB + 10};
  }

  lemma ChunkFillsTransaction() returns (v: Vol, owner: Owners, g: Layout, off: nat)
    ensures Inv(v, owner, g.nmeta) && Laid(g, v) && 0 < |v.ino| && WriteAllowed(v.ino[0].size, off, CHUNK)
        && Enough(v, 0, off, CHUNK)
    ensures |LogOf(v, g, 0, off, CHUNK)| == MAXOPBLOCKS
  {
    ChunkLog();
    PackedInv(4, 10, 9 * BSIZE + 1);
    PackedShape(4, 10, 9 * BSIZE + 1);
    v, owner, g, off := Packed(4, 10, 9 * BSIZE + 1), PackedOwners(4, 10), Geometry(4), 9 * BSIZE + 1;
  }

  /** Every write of n bytes that writei carries out, in every volume, logs at
      most MAXOPBLOCKS blocks. */
  ghost predicate AlwaysFits(n: nat) {
    forall v: Vol, owner: Owners, g: Layout, i: nat, off: nat ::
      && Inv(v, owner, g.nmeta) && i < |v.ino| && WriteAllowed(v.ino[i].size, off, n) && Enough(v, i, off, n)
      ==> |LogOf(v, g, i, off, n)| <= MAXOPBLOCKS
  }

  lemma TooWide(n: nat) returns (v: Vol, owner: Owners, g: Layout, off: nat)
    requires CHUNK < n <= MAXFILE * BSIZE
    ensures Inv(v, owner, g.nmeta) && Laid(g, v) && 0 < |v.ino| && WriteAllowed(v.ino[0].size, off, n)
        && Enough(v, 0, off, n)
    ensures |LogOf(v, g, 0, off, n)| > MAXOPBLOCKS
  {
    if n <= 4 * BSIZE {
      BeyondChunk(n);
      PackedInv(5, 9, 9 * BSIZE);
      PackedShape(5, 9, 9 * BSIZE);
      v, owner, g, off := Packed(5, 9, 9 * BSIZE), PackedOwners(5, 9), Geometry(5), 9 * BSIZE;
    } else {
      var f := FromEmpty((n - 1) / BSIZE + 1, n);
      PackedInv(f, 0, 0);
      PackedShape(f, 0, 0);
      v, owner, g, off := Packed(f, 0, 0), PackedOwners(f, 0), Geometry(f), 0;
    }
  }

  /** Of the sizes that a file can hold, exactly those up to the piece that
      filewrite uses always fit in a transaction; writei refuses all others. */
  lemma ChunkIsLargest(n: nat)
    ensures AlwaysFits(n) <==> n <= CHUNK || n > MAXFILE * BSIZE
  {
    if n <= CHUNK {
      forall v: Vol, owner: Owners, g: Layout, i: nat, off: nat |
        Inv(v, owner, g.nmeta) && i < |v.ino| && WriteAllowed(v.ino[i].size, off, n) && Enough(v, i, off, n)
        ensures |LogOf(v, g, i, off, n)| <= MAXOPBLOCKS
      {
        LogBound(v, g, i, off, n);
        ChunkCost(off, n);
      }
    } else if n <= MAXFILE * BSIZE {
      var v, owner, g, off := TooWide(n);
      assert !(|LogOf(v, g, 0, off, n)| <= MAXOPBLOCKS);
    }
  }
}
