/** The blocks of a file system: free map, inodes, and the block tables that
    give each inode its blocks, as a value with the invariant that every
    operation of fs.c keeps. */
module Volume {
  import opened Params

  const NDIRECT: nat := 12
  const NINDIRECT: nat := BSIZE / 4
  const MAXFILE: nat := NDIRECT + NINDIRECT
  /** Direct blocks, the indirect block, and the blocks it lists. */
  const NSLOTS: nat := MAXFILE + 1

  type byte = x: int | 0 <= x < 256
  type Bytes = s: seq<byte> | |s| == BSIZE witness seq(BSIZE, _ => 0)
  type Table = s: seq<nat> | |s| == NINDIRECT witness seq(NINDIRECT, _ => 0)
  type Addrs = s: seq<nat> | |s| == NDIRECT + 1 witness seq(NDIRECT + 1, _ => 0)

  function ZeroBytes(): (r: Bytes)
    ensures forall k :: 0 <= k < BSIZE ==> r[k] == 0
  {
    seq(BSIZE, _ => 0)
  }

  function ZeroTable(): (r: Table)
    ensures forall k :: 0 <= k < NINDIRECT ==> r[k] == 0
  {
    seq(NINDIRECT, _ => 0)
  }

  datatype Inode = Inode(size: nat, addrs: Addrs)

  /** used is the free bit map. A block is kept under its two readings, bytes
      and unsigned ints; zeroing it resets both, and the ownership invariant
      below shows that a block is never written under one reading and then
      read under the other without being zeroed in between. */
  datatype Vol = Vol(used: seq<bool>, data: seq<Bytes>, table: seq<Table>, ino: seq<Inode>)

  ghost predicate Shape(v: Vol) {
    && |v.used| == |v.data| == |v.table| > 0
    && (forall i :: 0 <= i < |v.ino| ==> v.ino[i].addrs[NDIRECT] < |v.table|)
  }

  /** The block in slot s of inode i, 0 if there is none. */
  ghost function Slot(v: Vol, i: nat, s: nat): nat
    requires Shape(v) && i < |v.ino| && s < NSLOTS
  {
    if s <= NDIRECT then v.ino[i].addrs[s]
    else if v.ino[i].addrs[NDIRECT] == 0 then 0
    else v.table[v.ino[i].addrs[NDIRECT]][s - NDIRECT - 1]
  }

  /** The slot of the bn-th block of a file. */
  function SlotOf(bn: nat): nat {
    if bn < NDIRECT then bn else bn + 1
  }

  /** A slot of an inode. */
  datatype Place = Place(i: nat, s: nat)

  type Owners = map<nat, Place>

  /** owner inverts Slot, so no block is in two slots; the free map marks
      exactly the metadata blocks and the owned blocks. */
  ghost predicate Owned(v: Vol, owner: Owners, nmeta: nat) {
    && Shape(v) && 0 < nmeta <= |v.used|
    && (forall i: nat, s: nat :: i < |v.ino| && s < NSLOTS && Slot(v, i, s) != 0 ==>
          Slot(v, i, s) in owner && owner[Slot(v, i, s)] == Place(i, s))
    && (forall b :: b in owner ==>
          && nmeta <= b < |v.used| && owner[b].i < |v.ino| && owner[b].s < NSLOTS
          && Slot(v, owner[b].i, owner[b].s) == b)
    && (forall b :: 0 <= b < |v.used| ==> (v.used[b] <==> b < nmeta || b in owner))
  }

  /** Every block below the size of a file is mapped. */
  ghost predicate Mapped(v: Vol)
    requires Shape(v)
  {
    forall i: nat, bn: nat :: i < |v.ino| && bn < MAXFILE && bn * BSIZE < v.ino[i].size ==> Slot(v, i, SlotOf(bn)) != 0
  }

  ghost predicate Inv(v: Vol, owner: Owners, nmeta: nat) {
    && Owned(v, owner, nmeta) && Mapped(v)
    && (forall i :: 0 <= i < |v.ino| ==> v.ino[i].size <= MAXFILE * BSIZE)
  }

  /** v' is v with block b newly taken, zeroed, and put into slot (i, s). */
  ghost predicate Linked(v: Vol, v': Vol, i: nat, s: nat, b: nat) {
    && Shape(v) && Shape(v') && |v'.ino| == |v.ino| && i < |v.ino| && s < NSLOTS && b < |v.used| && b < |v.data|
    && v'.used == v.used[b := true] && v'.data == v.data[b := ZeroBytes()]
    && (forall j :: 0 <= j < |v.ino| ==> v'.ino[j].size == v.ino[j].size)
    && (forall j: nat, t: nat :: j < |v.ino| && t < NSLOTS ==>
        Slot(v', j, t) == if j == i && t == s then b else Slot(v, j, t))
  }

  lemma LinkedKeepsInv(v: Vol, owner: Owners, nmeta: nat, v': Vol, i: nat, s: nat, b: nat)
    requires Inv(v, owner, nmeta) && Linked(v, v', i, s, b) && !v.used[b] && Slot(v, i, s) == 0
    ensures Inv(v', owner[b := Place(i, s)], nmeta)
  {
    assert b !in owner && b >= nmeta;
  }

  /** v with a zeroed free block b. */
  function Taken(v: Vol, b: nat): Vol
    requires b < |v.used| && Shape(v)
  {
    Vol(v.used[b := true], v.data[b := ZeroBytes()], v.table[b := ZeroTable()], v.ino)
  }

  function SetAddr(v: Vol, i: nat, s: nat, b: nat): Vol
    requires i < |v.ino| && s <= NDIRECT
  {
    Vol(v.used, v.data, v.table, v.ino[i := Inode(v.ino[i].size, v.ino[i].addrs[s := b])])
  }

  function SetEntry(v: Vol, t: nat, j: nat, b: nat): Vol
    requires t < |v.table| && j < NINDIRECT
  {
    Vol(v.used, v.data, v.table[t := v.table[t][j := b]], v.ino)
  }

  lemma IndirectOwned(v: Vol, owner: Owners, nmeta: nat, i: nat)
    requires Owned(v, owner, nmeta) && i < |v.ino| && v.ino[i].addrs[NDIRECT] != 0
    ensures var t := v.ino[i].addrs[NDIRECT];
        t in owner && owner[t] == Place(i, NDIRECT) && nmeta <= t < |v.used| && v.used[t]
  {
    assert Slot(v, i, NDIRECT) == v.ino[i].addrs[NDIRECT];
  }

  lemma TakenKeepsSlots(v: Vol, owner: Owners, nmeta: nat, b: nat, j: nat, t: nat)
    requires Owned(v, owner, nmeta) && b < |v.used| && !v.used[b] && j < |v.ino| && t < NSLOTS
    ensures Shape(Taken(v, b)) && Slot(Taken(v, b), j, t) == Slot(v, j, t)
  {
    if v.ino[j].addrs[NDIRECT] != 0 {
      IndirectOwned(v, owner, nmeta, j);
    }
  }

  /** Storing a taken block in the inode: a direct slot or the indirect one. */
  lemma LinkAddr(v: Vol, owner: Owners, nmeta: nat, i: nat, s: nat, b: nat)
    requires Owned(v, owner, nmeta) && b < |v.used| && !v.used[b]
    requires i < |v.ino| && s <= NDIRECT && v.ino[i].addrs[s] == 0
    ensures Linked(v, SetAddr(Taken(v, b), i, s, b), i, s, b)
  {
    var v' := SetAddr(Taken(v, b), i, s, b);
    forall j: nat, t: nat | j < |v.ino| && t < NSLOTS
      ensures Slot(v', j, t) == if j == i && t == s then b else Slot(v, j, t)
    {
      TakenKeepsSlots(v, owner, nmeta, b, j, t);
    }
  }

  /** Storing a taken block in the indirect block. */
  lemma LinkEntry(v: Vol, owner: Owners, nmeta: nat, i: nat, j: nat, b: nat)
    requires Owned(v, owner, nmeta) && b < |v.used| && !v.used[b]
    requires i < |v.ino| && j < NINDIRECT && v.ino[i].addrs[NDIRECT] != 0 && Slot(v, i, NDIRECT + 1 + j) == 0
    ensures Linked(v, SetEntry(Taken(v, b), v.ino[i].addrs[NDIRECT], j, b), i, NDIRECT + 1 + j, b)
  {
    var ind := v.ino[i].addrs[NDIRECT];
    var v' := SetEntry(Taken(v, b), ind, j, b);
    IndirectOwned(v, owner, nmeta, i);
    forall k: nat, t: nat | k < |v.ino| && t < NSLOTS
      ensures Slot(v', k, t) == if k == i && t == NDIRECT + 1 + j then b else Slot(v, k, t)
    {
      TakenKeepsSlots(v, owner, nmeta, b, k, t);
      if v.ino[k].addrs[NDIRECT] != 0 {
        IndirectOwned(v, owner, nmeta, k);
      }
    }
  }

  /** Byte k of inode i, with unmapped blocks read as zeros. */
  ghost function ByteAt(v: Vol, i: nat, k: nat): byte
    requires Shape(v) && i < |v.ino| && k < MAXFILE * BSIZE
  {
    var b := Slot(v, i, SlotOf(k / BSIZE));
    if b == 0 || b >= |v.data| then 0 else v.data[b][k % BSIZE]
  }

  /** An inode as one flat sequence of bytes up to the largest file size. */
  ghost function Flat(v: Vol, i: nat): (r: seq<byte>)
    requires Shape(v) && i < |v.ino|
    ensures |r| == MAXFILE * BSIZE
  {
    seq(MAXFILE * BSIZE, k requires 0 <= k < MAXFILE * BSIZE => ByteAt(v, i, k))
  }

  /** All inodes as flat sequences. */
  ghost function Files(v: Vol): (r: seq<seq<byte>>)
    requires Shape(v)
    ensures |r| == |v.ino| && forall i :: 0 <= i < |r| ==> |r[i]| == MAXFILE * BSIZE
  {
    seq(|v.ino|, i requires 0 <= i < |v.ino| => Flat(v, i))
  }

  ghost function Sizes(v: Vol): (r: seq<nat>)
    ensures |r| == |v.ino|
  {
    seq(|v.ino|, i requires 0 <= i < |v.ino| => v.ino[i].size)
  }

  /** The contents of a file. */
  ghost function Contents(v: Vol, i: nat): seq<byte>
    requires Shape(v) && i < |v.ino| && v.ino[i].size <= MAXFILE * BSIZE
  {
    Flat(v, i)[..v.ino[i].size]
  }

  /** Linking a fresh block changes no byte of any file. */
  lemma LinkedKeepsBytes(v: Vol, owner: Owners, nmeta: nat, v': Vol, i: nat, s: nat, b: nat, j: nat)
    requires Owned(v, owner, nmeta) && Linked(v, v', i, s, b) && !v.used[b] && Slot(v, i, s) == 0 && j < |v.ino|
    ensures Flat(v', j) == Flat(v, j)
  {
    forall k: nat | k < MAXFILE * BSIZE
      ensures ByteAt(v', j, k) == ByteAt(v, j, k)
    {
      var t := SlotOf(k / BSIZE);
      assert Slot(v', j, t) == if j == i && t == s then b else Slot(v, j, t);
      if Slot(v, j, t) != 0 {
        assert Slot(v, j, t) in owner;
      }
    }
  }

  function Stored(v: Vol, b: nat, d: Bytes): Vol
    requires b < |v.data|
  {
    Vol(v.used, v.data[b := d], v.table, v.ino)
  }

  /** Writing the block in a slot changes the bytes of that block only. */
  lemma StoreChangesBytes(v: Vol, owner: Owners, nmeta: nat, i: nat, bn: nat, b: nat, d: Bytes, j: nat, k: nat)
    requires Owned(v, owner, nmeta) && i < |v.ino| && bn < MAXFILE && Slot(v, i, SlotOf(bn)) != 0
    requires j < |v.ino| && k < MAXFILE * BSIZE
    requires b == Slot(v, i, SlotOf(bn))
    ensures b < |v.data| && Shape(Stored(v, b, d))
    ensures ByteAt(Stored(v, b, d), j, k) == if j == i && k / BSIZE == bn then d[k % BSIZE] else ByteAt(v, j, k)
  {
    assert b in owner && owner[b] == Place(i, SlotOf(bn));
    var v' := Stored(v, b, d);
    var t := SlotOf(k / BSIZE);
    assert Slot(v', j, t) == Slot(v, j, t);
    if Slot(v, j, t) == b {
      assert owner[b] == Place(j, t);
    }
  }

  /** Every slot that is taken in v holds the same block in v'. */
  ghost predicate KeepsSlots(v: Vol, v': Vol) {
    && Shape(v) && Shape(v') && |v'.ino| == |v.ino|
    && (forall j: nat, t: nat :: j < |v.ino| && t < NSLOTS && Slot(v, j, t) != 0 ==> Slot(v', j, t) == Slot(v, j, t))
  }

  /** v' has the same files as v, with possibly more blocks mapped. */
  ghost predicate Grown(v: Vol, v': Vol) {
    && KeepsSlots(v, v') && |v'.used| == |v.used|
    && Files(v') == Files(v) && Sizes(v') == Sizes(v)
  }

  lemma GrownTransitive(a: Vol, b: Vol, c: Vol)
    requires Grown(a, b) && Grown(b, c)
    ensures Grown(a, c)
  {
  }

  lemma LinkedGrows(v: Vol, owner: Owners, nmeta: nat, v': Vol, i: nat, s: nat, b: nat)
    requires Owned(v, owner, nmeta) && Linked(v, v', i, s, b) && !v.used[b] && Slot(v, i, s) == 0
    ensures Grown(v, v')
  {
    forall j | 0 <= j < |v.ino|
      ensures Files(v')[j] == Files(v)[j]
    {
      LinkedKeepsBytes(v, owner, nmeta, v', i, s, b, j);
    }
    assert Sizes(v') == Sizes(v);
  }

  /** flat with the bytes of src at off. */
  function Overwritten(flat: seq<byte>, off: nat, src: seq<byte>): (r: seq<byte>)
    requires off + |src| <= |flat|
    ensures |r| == |flat|
  {
    flat[..off] + src + flat[off + |src|..]
  }

  lemma OverwrittenTwice(flat: seq<byte>, off: nat, a: seq<byte>, b: seq<byte>)
    requires off + |a| + |b| <= |flat|
    ensures Overwritten(Overwritten(flat, off, a), off + |a|, b) == Overwritten(flat, off, a + b)
  {
  }

  lemma OverwrittenAt(flat: seq<byte>, off: nat, src: seq<byte>, k: nat)
    requires off + |src| <= |flat| && k < |flat|
    ensures Overwritten(flat, off, src)[k] == if off <= k < off + |src| then src[k - off] else flat[k]
  {
  }

  lemma ChunkFits(off: nat, m: nat)
    requires off < MAXFILE * BSIZE && off % BSIZE + m <= BSIZE
    ensures off + m <= MAXFILE * BSIZE && off / BSIZE < MAXFILE
  {
  }

  lemma ChunkByte(v: Vol, owner: Owners, nmeta: nat, i: nat, off: nat, b: nat, chunk: seq<byte>, j: nat, k: nat)
    requires Owned(v, owner, nmeta) && i < |v.ino| && off < MAXFILE * BSIZE && j < |v.ino| && k < MAXFILE * BSIZE
    requires off % BSIZE + |chunk| <= BSIZE && off / BSIZE < MAXFILE
    requires b == Slot(v, i, SlotOf(off / BSIZE)) && b != 0 && b < |v.data|
    ensures var v' := Stored(v, b, Overwritten(v.data[b], off % BSIZE, chunk));
            Shape(v') && ByteAt(v', j, k) == if j == i && off <= k < off + |chunk| then chunk[k - off]
                else ByteAt(v, j, k)
  {
    var d: Bytes := Overwritten(v.data[b], off % BSIZE, chunk);
    StoreChangesBytes(v, owner, nmeta, i, off / BSIZE, b, d, j, k);
    WithinBlock(off, |chunk|, k);
    OverwrittenAt(v.data[b], off % BSIZE, chunk, k % BSIZE);
  }

  /** Storing a chunk that lies within one block of a file overwrites exactly
      those bytes of that file. */
  lemma ChunkStored(v: Vol, owner: Owners, nmeta: nat, i: nat, off: nat, b: nat, chunk: seq<byte>, j: nat)
    requires Owned(v, owner, nmeta) && i < |v.ino| && off < MAXFILE * BSIZE && j < |v.ino|
    requires off % BSIZE + |chunk| <= BSIZE && off / BSIZE < MAXFILE && off + |chunk| <= MAXFILE * BSIZE
    requires b == Slot(v, i, SlotOf(off / BSIZE)) && b != 0 && b < |v.data|
    ensures var v' := Stored(v, b, Overwritten(v.data[b], off % BSIZE, chunk));
            Shape(v') && Flat(v', j) == if j == i then Overwritten(Flat(v, i), off, chunk) else Flat(v, j)
  {
    var v' := Stored(v, b, Overwritten(v.data[b], off % BSIZE, chunk));
    var expected := if j == i then Overwritten(Flat(v, i), off, chunk) else Flat(v, j);
    forall k: nat | k < |expected|
      ensures Flat(v', j)[k] == expected[k]
    {
      ChunkByte(v, owner, nmeta, i, off, b, chunk, j, k);
      FlatAt(v, j, k);
      FlatAt(v', j, k);
      if j == i {
        OverwrittenAt(Flat(v, i), off, chunk, k);
      }
    }
  }

  lemma ChunkStoredInFiles(v: Vol, owner: Owners, nmeta: nat, i: nat, off: nat, b: nat, chunk: seq<byte>)
    requires Owned(v, owner, nmeta) && i < |v.ino| && off < MAXFILE * BSIZE
    requires off % BSIZE + |chunk| <= BSIZE && off / BSIZE < MAXFILE && off + |chunk| <= MAXFILE * BSIZE
    requires b == Slot(v, i, SlotOf(off / BSIZE)) && b != 0 && b < |v.data|
    ensures var v' := Stored(v, b, Overwritten(v.data[b], off % BSIZE, chunk));
            Shape(v') && Files(v') == Files(v)[i := Overwritten(Files(v)[i], off, chunk)] && Sizes(v') == Sizes(v)
  {
    var v' := Stored(v, b, Overwritten(v.data[b], off % BSIZE, chunk));
    forall j | 0 <= j < |v.ino|
      ensures Files(v')[j] == if j == i then Overwritten(Files(v)[i], off, chunk) else Files(v)[j]
    {
      ChunkStored(v, owner, nmeta, i, off, b, chunk, j);
    }
    assert Sizes(v') == Sizes(v);
  }

  lemma FlatAt(v: Vol, i: nat, k: nat)
    requires Shape(v) && i < |v.ino| && k < MAXFILE * BSIZE
    ensures Flat(v, i)[k] == ByteAt(v, i, k)
  {
  }

  /** Offsets of a chunk that lies within one block. */
  lemma WithinBlock(off: nat, m: nat, k: nat)
    requires off % BSIZE + m <= BSIZE
    ensures k / BSIZE == off / BSIZE ==> k - off == k % BSIZE - off % BSIZE
    ensures off <= k < off + m ==> k / BSIZE == off / BSIZE
  {
  }

  lemma StoredKeepsInv(v: Vol, owner: Owners, nmeta: nat, b: nat, d: Bytes)
    requires Inv(v, owner, nmeta) && b < |v.data|
    ensures Inv(Stored(v, b, d), owner, nmeta)
    ensures forall j: nat, t: nat :: j < |v.ino| && t < NSLOTS ==> Slot(Stored(v, b, d), j, t) == Slot(v, j, t)
  {
    var v' := Stored(v, b, d);
    assert forall j: nat, t: nat :: j < |v.ino| && t < NSLOTS ==> Slot(v', j, t) == Slot(v, j, t);
  }

  ghost predicate OtherInodesSame(v: Vol, v': Vol, i: nat) {
    i < |v.ino| && i < |v'.ino| && v'.ino == v.ino[i := v'.ino[i]]
  }

  ghost predicate SameMetadata(v: Vol, v': Vol) {
    v'.ino == v.ino && v'.used == v.used && v'.table == v.table
  }

  /** File i has src at off, every other file is as in v. */
  ghost predicate OnlyOverwrites(v: Vol, v': Vol, i: nat, off: nat, src: seq<byte>) {
    && Shape(v) && Shape(v') && i < |v.ino| && off + |src| <= MAXFILE * BSIZE
    && Files(v') == Files(v)[i := Overwritten(Files(v)[i], off, src)] && Sizes(v') == Sizes(v)
  }

  /** The effect of one iteration of writei. */
  ghost predicate ChunkDone(v: Vol, v': Vol, i: nat, off: nat, chunk: seq<byte>) {
    && OnlyOverwrites(v, v', i, off, chunk) && KeepsSlots(v, v') && off / BSIZE < MAXFILE
    && OtherInodesSame(v, v', i)
    && Slot(v', i, SlotOf(off / BSIZE)) != 0
    && (Slot(v, i, SlotOf(off / BSIZE)) != 0 ==> SameMetadata(v, v'))
  }

  /** All blocks that bytes [off, end) of file i lie in are mapped. */
  ghost predicate RangeMapped(v: Vol, i: nat, off: nat, end: nat)
    requires Shape(v) && i < |v.ino|
  {
    forall bn: nat :: bn < MAXFILE && off / BSIZE <= bn && bn * BSIZE < end ==> Slot(v, i, SlotOf(bn)) != 0
  }

  /** The state of writei after the bytes src at off, started from v0. */
  ghost predicate Written(v0: Vol, v: Vol, i: nat, off: nat, src: seq<byte>) {
    && OnlyOverwrites(v0, v, i, off, src) && KeepsSlots(v0, v) && OtherInodesSame(v0, v, i)
    && RangeMapped(v, i, off, off + |src|)
    && (off + |src| <= v0.ino[i].size ==> SameMetadata(v0, v))
  }

  lemma WrittenOverwrites(v0: Vol, v: Vol, v': Vol, i: nat, off: nat, src: seq<byte>, chunk: seq<byte>)
    requires OnlyOverwrites(v0, v, i, off, src) && OnlyOverwrites(v, v', i, off + |src|, chunk)
    ensures OnlyOverwrites(v0, v', i, off, src + chunk)
  {
    OverwrittenTwice(Files(v0)[i], off, src, chunk);
  }

  lemma WrittenRange(v: Vol, v': Vol, i: nat, off: nat, mid: nat, end: nat)
    requires KeepsSlots(v, v') && i < |v.ino| && off <= mid < end
    requires mid == off || mid % BSIZE == 0
    requires mid % BSIZE + (end - mid) <= BSIZE && mid / BSIZE < MAXFILE
    requires RangeMapped(v, i, off, mid) && Slot(v', i, SlotOf(mid / BSIZE)) != 0
    ensures RangeMapped(v', i, off, end)
  {
    forall bn: nat | bn < MAXFILE && off / BSIZE <= bn && bn * BSIZE < end
      ensures Slot(v', i, SlotOf(bn)) != 0
    {
      if bn * BSIZE < mid && bn != mid / BSIZE {
        assert Slot(v, i, SlotOf(bn)) != 0;
      } else {
        assert bn == mid / BSIZE;
      }
    }
  }

  /** The first block of a write is mapped when the write starts inside it. */
  lemma MappedBelowSize(v: Vol, i: nat, k: nat)
    requires Shape(v) && Mapped(v) && i < |v.ino| && k / BSIZE < MAXFILE
    requires k < v.ino[i].size || (k == v.ino[i].size && k % BSIZE != 0)
    ensures Slot(v, i, SlotOf(k / BSIZE)) != 0
  {
    assert k / BSIZE * BSIZE < v.ino[i].size;
  }

  lemma WrittenStep(v0: Vol, v: Vol, v': Vol, i: nat, off: nat, src: seq<byte>, chunk: seq<byte>)
    requires Shape(v0) && Mapped(v0) && i < |v0.ino| && Written(v0, v, i, off, src) && chunk != []
    requires src == [] || (off + |src|) % BSIZE == 0
    requires (off + |src|) % BSIZE + |chunk| <= BSIZE && ChunkDone(v, v', i, off + |src|, chunk)
    ensures Written(v0, v', i, off, src + chunk)
  {
    WrittenOverwrites(v0, v, v', i, off, src, chunk);
    WrittenRange(v, v', i, off, off + |src|, off + |src| + |chunk|);
    if off + |src| + |chunk| <= v0.ino[i].size {
      MappedBelowSize(v0, i, off + |src|);
      assert Slot(v, i, SlotOf((off + |src|) / BSIZE)) != 0;
    }
  }

  lemma WrittenNothing(v: Vol, i: nat, off: nat)
    requires Shape(v) && Mapped(v) && i < |v.ino| && off <= v.ino[i].size <= MAXFILE * BSIZE
    ensures Written(v, v, i, off, [])
  {
    assert Overwritten(Files(v)[i], off, []) == Files(v)[i];
    forall bn: nat | bn < MAXFILE && off / BSIZE <= bn && bn * BSIZE < off
      ensures Slot(v, i, SlotOf(bn)) != 0
    {
      assert bn * BSIZE < v.ino[i].size;
    }
  }

  function Resized(v: Vol, i: nat, size: nat): Vol
    requires i < |v.ino|
  {
    Vol(v.used, v.data, v.table, v.ino[i := Inode(size, v.ino[i].addrs)])
  }

  /** Changing the size of a file moves no bytes. */
  lemma ResizedKeepsBytes(v: Vol, i: nat, size: nat)
    requires Shape(v) && i < |v.ino|
    ensures Shape(Resized(v, i, size)) && Files(Resized(v, i, size)) == Files(v)
    ensures Sizes(Resized(v, i, size)) == Sizes(v)[i := size]
    ensures forall j: nat, t: nat :: j < |v.ino| && t < NSLOTS ==> Slot(Resized(v, i, size), j, t) == Slot(v, j, t)
  {
    var v' := Resized(v, i, size);
    assert forall j: nat, t: nat :: j < |v.ino| && t < NSLOTS ==> Slot(v', j, t) == Slot(v, j, t);
    forall j | 0 <= j < |v.ino|
      ensures Files(v')[j] == Files(v)[j]
    {
      forall k: nat | k < MAXFILE * BSIZE
        ensures Flat(v', j)[k] == Flat(v, j)[k]
      {
        FlatAt(v, j, k);
        FlatAt(v', j, k);
      }
    }
  }

  /** A write that ends beyond the size may raise the size to its end. */
  lemma ResizedKeepsInv(v0: Vol, v: Vol, owner: Owners, nmeta: nat, i: nat, off: nat, src: seq<byte>)
    requires Inv(v, owner, nmeta) && Written(v0, v, i, off, src)
        && off <= v.ino[i].size < off + |src| <= MAXFILE * BSIZE
    ensures Inv(Resized(v, i, off + |src|), owner, nmeta)
  {
    var v' := Resized(v, i, off + |src|);
    ResizedKeepsBytes(v, i, off + |src|);
    forall j: nat, bn: nat | j < |v.ino| && bn < MAXFILE && bn * BSIZE < v'.ino[j].size
      ensures Slot(v', j, SlotOf(bn)) != 0
    {
      if bn * BSIZE < v.ino[j].size {
        assert Slot(v, j, SlotOf(bn)) != 0;
      } else {
        assert off / BSIZE <= bn;
        assert Slot(v, i, SlotOf(bn)) != 0;
      }
    }
  }

  /** The bytes of a chunk that lies within one block. */
  lemma ChunkRead(v: Vol, i: nat, off: nat, b: nat, m: nat)
    requires Shape(v) && i < |v.ino| && off + m <= MAXFILE * BSIZE && off % BSIZE + m <= BSIZE && off / BSIZE < MAXFILE
    requires b == Slot(v, i, SlotOf(off / BSIZE)) && b != 0 && b < |v.data|
    ensures v.data[b][off % BSIZE..off % BSIZE + m] == Flat(v, i)[off..off + m]
  {
    var read, held := v.data[b][off % BSIZE..off % BSIZE + m], Flat(v, i)[off..off + m];
    forall k | 0 <= k < m
      ensures read[k] == held[k]
    {
      FlatAt(v, i, off + k);
      WithinBlock(off, m, off + k);
    }
  }

  function Max(a: nat, b: nat): nat {
    if a < b then b else a
  }

  function Min(a: nat, b: nat): nat {
    if a < b then a else b
  }

  /** File i got the bytes src at off, growing if needed; no other file and
      no other size changed. */
  ghost predicate FileWritten(v: Vol, v': Vol, i: nat, off: nat, src: seq<byte>) {
    && Shape(v) && Shape(v') && i < |v.ino|
    && if src == [] then Files(v') == Files(v) && Sizes(v') == Sizes(v)
       else
         && off <= v.ino[i].size && off + |src| <= MAXFILE * BSIZE
         && Files(v') == Files(v)[i := Overwritten(Files(v)[i], off, src)]
         && Sizes(v') == Sizes(v)[i := Max(v.ino[i].size, off + |src|)]
  }

  lemma FileWrittenFrom(v: Vol, v': Vol, i: nat, off: nat, src: seq<byte>)
    requires Shape(v) && Shape(v') && i < |v.ino| && off <= v.ino[i].size <= MAXFILE * BSIZE
        && off + |src| <= MAXFILE * BSIZE
    requires Files(v') == Files(v)[i := Overwritten(Files(v)[i], off, src)]
    requires Sizes(v') == Sizes(v)[i := Max(v.ino[i].size, off + |src|)]
    ensures FileWritten(v, v', i, off, src)
  {
    if src == [] {
      assert Overwritten(Files(v)[i], off, src) == Files(v)[i];
    }
  }

  lemma FileWrittenTwice(u: Vol, v: Vol, w: Vol, i: nat, off: nat, a: seq<byte>, b: seq<byte>)
    requires FileWritten(u, v, i, off, a) && FileWritten(v, w, i, off + |a|, b)
    ensures FileWritten(u, w, i, off, a + b)
  {
    assert Sizes(v)[i] == v.ino[i].size && Sizes(u)[i] == u.ino[i].size;
    if a == [] {
      assert a + b == b;
    } else if b == [] {
      assert a + b == a;
    } else {
      OverwrittenTwice(Files(u)[i], off, a, b);
    }
  }

  /** The contents of a written file: the old bytes up to off, then src, then
      what was behind it. */
  lemma WrittenContents(v: Vol, v': Vol, i: nat, off: nat, src: seq<byte>)
    requires FileWritten(v, v', i, off, src) && v.ino[i].size <= MAXFILE * BSIZE && off <= v.ino[i].size
    ensures v'.ino[i].size == Max(v.ino[i].size, if src == [] then 0 else off + |src|) <= MAXFILE * BSIZE
    ensures src != [] ==>
        Contents(v', i) == Contents(v, i)[..off] + src + Contents(v, i)[Min(off + |src|, v.ino[i].size)..]
    ensures forall j :: 0 <= j < |v.ino| && j != i ==> v'.ino[j].size == v.ino[j].size && Flat(v', j) == Flat(v, j)
  {
    assert Sizes(v')[i] == v'.ino[i].size && Files(v')[i] == Flat(v', i) && Files(v)[i] == Flat(v, i);
    forall j | 0 <= j < |v.ino| && j != i
      ensures v'.ino[j].size == v.ino[j].size && Flat(v', j) == Flat(v, j)
    {
      assert Sizes(v')[j] == Sizes(v)[j] && Files(v')[j] == Files(v)[j];
    }
  }

  function NoAddrs(): (r: Addrs)
    ensures forall s :: 0 <= s <= NDIRECT ==> r[s] == 0
  {
    seq(NDIRECT + 1, _ => 0)
  }

  /** The owners without those of inode i. */
  ghost function OwnersWithout(owner: Owners, i: nat): (r: Owners)
  {
    map b | b in owner && owner[b].i != i :: owner[b]
  }

  /** v with exactly the blocks of inode i freed, and the inode empty. */
  ghost predicate Truncated(v: Vol, owner: Owners, v': Vol, i: nat) {
    && i < |v.ino| && v'.data == v.data && v'.table == v.table && v'.ino == v.ino[i := Inode(0, NoAddrs())]
    && |v'.used| == |v.used|
    && (forall b :: 0 <= b < |v.used| ==> (v'.used[b] <==> v.used[b] && !(b in owner && owner[b].i == i)))
  }

  lemma TruncatedKeepsInv(v: Vol, owner: Owners, nmeta: nat, v': Vol, i: nat)
    requires Inv(v, owner, nmeta) && Truncated(v, owner, v', i)
    ensures Inv(v', OwnersWithout(owner, i), nmeta)
    ensures forall j :: 0 <= j < |v.ino| && j != i ==> Flat(v', j) == Flat(v, j) && v'.ino[j] == v.ino[j]
    ensures Contents(v', i) == []
  {
    assert Shape(v');
    assert forall j: nat, t: nat :: j < |v.ino| && t < NSLOTS ==> Slot(v', j, t) == if j == i then 0 else Slot(v, j, t);
    forall j | 0 <= j < |v.ino| && j != i
      ensures Flat(v', j) == Flat(v, j)
    {
      forall k: nat | k < MAXFILE * BSIZE
        ensures Flat(v', j)[k] == Flat(v, j)[k]
      {
        FlatAt(v, j, k);
        FlatAt(v', j, k);
      }
    }
  }

  ghost function Marked(used: seq<bool>): set<int> {
    set b | 0 <= b < |used| && used[b]
  }

  ghost function Below(n: nat): (r: set<int>)
    ensures |r| == n && forall b :: b in r <==> 0 <= b < n
  {
    if n == 0 then {} else Below(n - 1) + {n - 1}
  }

  /** Conservation: the blocks marked in use are the metadata blocks and one
      for every taken slot of every inode. */
  lemma UsedCount(v: Vol, owner: Owners, nmeta: nat)
    requires Owned(v, owner, nmeta)
    ensures |Marked(v.used)| == nmeta + |owner|
    ensures forall i: nat, s: nat, j: nat, t: nat ::
              i < |v.ino| && s < NSLOTS && j < |v.ino| && t < NSLOTS && Slot(v, i, s) == Slot(v, j, t) != 0 ==>
                  i == j && s == t
  {
    var meta := Below(nmeta);
    assert Marked(v.used) == meta + owner.Keys;
  }
}
