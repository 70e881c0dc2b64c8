/** Block allocation and file contents: balloc, bfree, bmap, readi, writei,
    itrunc and filewrite over the volume. `logged` gathers the blocks that the
    current transaction hands to log_write. */
module Files {
  import opened Params
  import opened Volume
  import opened Footprint

  /** The bytes that one iteration of readi or writei moves: up to the end of
      the range or of the block. */
  function ChunkSize(off: nat, rest: nat): (m: nat)
    requires rest > 0
    ensures 0 < m <= rest && off % BSIZE + m <= BSIZE
    ensures m < rest ==> (off + m) % BSIZE == 0
  {
    if rest < BSIZE - off % BSIZE then rest else BSIZE - off % BSIZE
  }

  /** The result of writei: the byte count, -1, or a panic in balloc. */
  datatype WriteResult = Wrote(n: nat) | Refused | OutOfBlocks

  datatype ReadResult = Read(bytes: seq<byte>) | ReadRefused

  lemma LinkedSlots(v: Vol, v': Vol, i: nat, s: nat, b: nat)
    requires Linked(v, v', i, s, b) && !v.used[b] && forall k :: 0 <= k < b ==> v.used[k]
    ensures SlotsOf(v', i) == SlotsOf(v, i)[s := b] && FreeBlocks(v.used) != {} && Least(FreeBlocks(v.used)) == b
  {
    assert b in FreeBlocks(v.used);
  }

  /** A block taken for slot s of the inode itself. */
  lemma AddrAdded(v: Vol, owner: Owners, nmeta: nat, i: nat, s: nat, b: nat)
    requires Inv(v, owner, nmeta) && b < |v.used| && !v.used[b] && (forall k :: 0 <= k < b ==> v.used[k])
    requires i < |v.ino| && s <= NDIRECT && v.ino[i].addrs[s] == 0
    ensures var v' := SetAddr(Taken(v, b), i, s, b);
            && Inv(v', owner[b := Place(i, s)], nmeta) && Grown(v, v') && OtherInodesSame(v, v', i)
            && Slot(v', i, s) == b != 0
            && SlotsOf(v', i) == SlotsOf(v, i)[s := b] && FreeBlocks(v.used) != {} && Least(FreeBlocks(v.used)) == b
  {
    var v' := SetAddr(Taken(v, b), i, s, b);
    LinkAddr(v, owner, nmeta, i, s, b);
    LinkedKeepsInv(v, owner, nmeta, v', i, s, b);
    LinkedGrows(v, owner, nmeta, v', i, s, b);
    LinkedSlots(v, v', i, s, b);
  }

  /** A block taken for entry j of the indirect block. */
  lemma EntryAdded(v: Vol, owner: Owners, nmeta: nat, i: nat, j: nat, s: nat, b: nat)
    requires Inv(v, owner, nmeta) && b < |v.used| && !v.used[b] && (forall k :: 0 <= k < b ==> v.used[k])
    requires i < |v.ino| && j < NINDIRECT && s == NDIRECT + 1 + j && v.ino[i].addrs[NDIRECT] != 0 && Slot(v, i, s) == 0
    ensures v.ino[i].addrs[NDIRECT] != b
    ensures var v' := SetEntry(Taken(v, b), v.ino[i].addrs[NDIRECT], j, b);
            && Inv(v', owner[b := Place(i, s)], nmeta) && Grown(v, v') && Slot(v', i, s) == b != 0
            && SlotsOf(v', i) == SlotsOf(v, i)[s := b] && FreeBlocks(v.used) != {} && Least(FreeBlocks(v.used)) == b
  {
    var v' := SetEntry(Taken(v, b), v.ino[i].addrs[NDIRECT], j, b);
    LinkEntry(v, owner, nmeta, i, j, b);
    IndirectOwned(v, owner, nmeta, i);
    LinkedKeepsInv(v, owner, nmeta, v', i, s, b);
    LinkedGrows(v, owner, nmeta, v', i, s, b);
    LinkedSlots(v, v', i, s, b);
  }

  /** A store into a data block leaves the slots alone. */
  lemma StoredSlots(v: Vol, b: nat, d: Bytes, i: nat)
    requires Shape(v) && b < |v.data| && i < |v.ino|
    ensures Shape(Stored(v, b, d)) && SlotsOf(Stored(v, b, d), i) == SlotsOf(v, i)
  {
  }

  lemma NoneFree(used: seq<bool>)
    ensures FreeBlocks(used) == {} <==> forall k :: 0 <= k < |used| ==> used[k]
  {
    if k: nat :| k < |used| && !used[k] {
      assert k in FreeBlocks(used);
    }
  }

  /** Where the loop of writei can be: at its start, at the start of a block, or
      at its end. */
  ghost predicate Reached(off: nat, tot: nat, n: nat) {
    tot <= n && (0 < tot < n ==> (off + tot) % BSIZE == 0)
  }

  lemma WrittenPiece(v0: Vol, v: Vol, v': Vol, i: nat, off: nat, src: seq<byte>, tot: nat, end: nat, before: bool,
      chunk: bool)
    requires Shape(v0) && Mapped(v0) && i < |v0.ino| && off + |src| <= MAXFILE * BSIZE
    requires tot < end && Piece(off, tot, end - tot, |src|)
    requires before && before == Written(v0, v, i, off, src[..tot])
    requires chunk && chunk == ChunkDone(v, v', i, off + tot, src[tot..end])
    ensures Written(v0, v', i, off, src[..end])
  {
    WrittenStep(v0, v, v', i, off, src[..tot], src[tot..end]);
    assert src[..tot] + src[tot..end] == src[..end];
  }

  /** A transaction of filewrite: n bytes at off, written to volume before,
      and the blocks that it logged. */
  datatype Transaction = Transaction(before: Vol, off: nat, n: nat, log: set<nat>)

  lemma NextWritten(u: Vol, v: Vol, w: Vol, i: nat, off: nat, src: seq<byte>, done: nat, end: nat, at: nat,
      piece: seq<byte>, before: bool, now: bool)
    requires done <= end <= |src| && at == off + done && piece == src[done..end]
    requires before && before == FileWritten(u, v, i, off, src[..done])
    requires now && now == FileWritten(v, w, i, at, piece)
    ensures FileWritten(u, w, i, off, src[..end])
  {
    FileWrittenTwice(u, v, w, i, off, src[..done], piece);
    assert src[..done] + piece == src[..end];
  }

  /** The transaction logged exactly what its write logs, and that fits. */
  ghost predicate Charged(x: Transaction, g: Layout, i: nat) {
    && 0 < x.n <= CHUNK && |x.log| <= MAXOPBLOCKS
    && Shape(x.before) && i < |x.before.ino| && x.off + x.n <= MAXFILE * BSIZE && Enough(x.before, i, x.off, x.n)
    && x.log == LogOf(x.before, g, i, x.off, x.n)
  }

  lemma PieceCharged(v: Vol, g: Layout, i: nat, x: Transaction)
    requires x.before == v && Shape(v) && Mapped(v) && i < |v.ino| && 0 < x.n <= CHUNK
    requires x.off <= v.ino[i].size && x.off + x.n <= MAXFILE * BSIZE && Enough(v, i, x.off, x.n)
    requires x.log == {} + LogOf(v, g, i, x.off, x.n)
    ensures Charged(x, g, i)
  {
    LogBound(v, g, i, x.off, x.n);
    ChunkCost(x.off, x.n);
    assert x.log == LogOf(v, g, i, x.off, x.n);
  }

  /** The transactions cut the first done bytes of src, to be written at off,
      into pieces: each finds the bytes before it written, and writes its own. */
  ghost predicate Carried(v0: Vol, i: nat, off: nat, src: seq<byte>, done: nat, ts: seq<Transaction>,
      charged: Transaction -> bool) {
    if ts == [] then done == 0 else
      var x := ts[|ts| - 1];
      && x.n <= done <= |src| && x.off + x.n == off + done && charged(x)
      && FileWritten(v0, x.before, i, off, src[..done - x.n])
      && Carried(v0, i, off, src, done - x.n, ts[..|ts| - 1], charged)
  }

  lemma CarriedMore(v0: Vol, i: nat, off: nat, src: seq<byte>, done: nat, ts: seq<Transaction>,
      charged: Transaction -> bool, x: Transaction)
    requires Carried(v0, i, off, src, done, ts, charged) && done + x.n <= |src| && x.off == off + done
    requires charged(x) && FileWritten(v0, x.before, i, off, src[..done])
    ensures Carried(v0, i, off, src, done + x.n, ts + [x], charged)
  {
    assert (ts + [x])[..|ts|] == ts;
  }

  lemma SliceJoin(s: seq<byte>, a: nat, b: nat, c: nat)
    requires a <= b <= c <= |s|
    ensures s[a..b] + s[b..c] == s[a..c]
  {
  }

  lemma CutTwice(s: seq<byte>, a: nat, b: nat, c: nat)
    requires a <= b <= c <= |s|
    ensures s[..c][a..b] == s[a..b]
  {
  }

  class Fs {
    const g: Layout
    var used: seq<bool>
    var data: seq<Bytes>
    var table: seq<Table>
    /** Cached inodes, and their copies on disk. */
    var ino: seq<Inode>
    var dino: seq<Inode>
    ghost var owner: Owners
    ghost var logged: set<nat>

    ghost function V(): Vol
      reads this
    {
      Vol(used, data, table, ino)
    }

    ghost predicate Valid()
      reads this
    {
      Inv(V(), owner, g.nmeta) && |dino| == |ino|
    }

    /** An empty volume: no inode owns a block yet. */
    constructor (size: nat, g: Layout, ninodes: nat)
      requires 0 < g.nmeta <= size
      ensures Valid() && dino == ino && logged == {} && |used| == size && |ino| == ninodes
      ensures forall i :: 0 <= i < ninodes ==> ino[i].size == 0
      ensures this.g == g
    {
      this.g := g;
      used := seq(size, b => b < g.nmeta);
      data := seq(size, _ => ZeroBytes());
      table := seq(size, _ => ZeroTable());
      ino := seq(ninodes, _ => Inode(0, seq(NDIRECT + 1, _ => 0)));
      dino := seq(ninodes, _ => Inode(0, seq(NDIRECT + 1, _ => 0)));
      owner, logged := map[], {};
    }

    /** balloc: takes and zeroes the first free block; fails ("out of blocks")
        exactly when no block is free. */
    method Balloc() returns (ok: bool, b: nat)
      requires Shape(V())
      modifies this`used, this`data, this`table, this`logged
      ensures ok <==> exists k :: 0 <= k < |old(used)| && !old(used)[k]
      ensures !ok ==> V() == old(V()) && logged == old(logged)
      ensures ok ==> b < |old(used)| && !old(used)[b] && forall k :: 0 <= k < b ==> old(used)[k]
      ensures ok ==> V() == Taken(old(V()), b) && logged == old(logged) + {BBlock(g, b), b}
    {
      var base := 0;
      while base < |used|
        invariant base % BPB == 0 && V() == old(V()) && logged == old(logged)
        invariant forall k :: 0 <= k < base && k < |used| ==> used[k]
      {
        var bi := 0;
        while bi < BPB && base + bi < |used|
          invariant 0 <= bi <= BPB && V() == old(V()) && logged == old(logged)
          invariant forall k :: 0 <= k < base + bi && k < |used| ==> used[k]
        {
          if !used[base + bi] {
            b := base + bi;
            used := used[b := true];
            data, table := data[b := ZeroBytes()], table[b := ZeroTable()];
            logged := logged + {BBlock(g, b), b};
            return true, b;
          }
          bi := bi + 1;
        }
        base := base + BPB;
      }
      return false, 0;
    }

    /** bfree: fails ("freeing free block") exactly on a free block. */
    method Bfree(b: nat) returns (ok: bool)
      requires b < |used|
      modifies this`used, this`logged
      ensures ok <==> old(used)[b]
      ensures ok ==> used == old(used)[b := false] && logged == old(logged) + {BBlock(g, b)}
      ensures !ok ==> used == old(used) && logged == old(logged)
    {
      if !used[b] {
        return false;
      }
      used := used[b := false];
      logged := logged + {BBlock(g, b)};
      return true;
    }

    /** What writei changes besides data. */
    ghost function At(i: nat): Space
      requires Shape(V()) && i < |ino|
      reads this
    {
      Space(SlotsOf(V(), i), used, logged)
    }

    /** The part of bmap for addrs[s]: allocates the block if it is missing. */
    method MapAddr(i: nat, s: nat) returns (ok: bool, addr: nat)
      requires Valid() && i < |ino| && s <= NDIRECT
      modifies this`used, this`data, this`table, this`ino, this`owner, this`logged
      ensures !ok ==> AddrStep(old(At(i)), g, s) == Full && forall k :: 0 <= k < |used| ==> used[k]
      ensures ok ==>
          Valid() && Grown(old(V()), V()) && OtherInodesSame(old(V()), V(), i) && addr == Slot(V(), i, s) != 0
      ensures ok ==> AddrStep(old(At(i)), g, s) == Done(At(i))
      ensures old(ino)[i].addrs[s] != 0 ==> ok && V() == old(V()) && owner == old(owner) && logged == old(logged)
    {
      ghost var v := V();
      assert SlotsOf(v, i)[s] == ino[i].addrs[s];
      addr := ino[i].addrs[s];
      if addr != 0 {
        return true, addr;
      }
      NoneFree(used);
      ok, addr := Balloc();
      if !ok {
        return;
      }
      AddrAdded(v, owner, g.nmeta, i, s, addr);
      ino := ino[i := Inode(ino[i].size, ino[i].addrs[s := addr])];
      assert V() == SetAddr(Taken(v, addr), i, s, addr);
      owner := owner[addr := Place(i, s)];
    }

    /** The part of bmap for entry j of the indirect block. */
    method MapEntry(i: nat, j: nat, ghost s: nat) returns (ok: bool, addr: nat)
      requires Valid() && i < |ino| && j < NINDIRECT && ino[i].addrs[NDIRECT] != 0 && s == NDIRECT + 1 + j
      modifies this`used, this`data, this`table, this`owner, this`logged
      ensures !ok ==> EntryStep(old(At(i)), g, s) == Full && forall k :: 0 <= k < |used| ==> used[k]
      ensures ok ==> Valid() && Grown(old(V()), V()) && addr == Slot(V(), i, s) != 0
      ensures ok ==> EntryStep(old(At(i)), g, s) == Done(At(i))
      ensures Slot(old(V()), i, s) != 0 ==> ok && V() == old(V()) && owner == old(owner) && logged == old(logged)
    {
      ghost var v := V();
      var ind := ino[i].addrs[NDIRECT];
      addr := table[ind][j];
      assert SlotsOf(v, i)[s] == addr && SlotsOf(v, i)[NDIRECT] == ind;
      if addr != 0 {
        return true, addr;
      }
      NoneFree(used);
      ok, addr := Balloc();
      if !ok {
        return;
      }
      EntryAdded(v, owner, g.nmeta, i, j, s, addr);
      table := table[ind := table[ind][j := addr]];
      assert V() == SetEntry(Taken(v, addr), ind, j, addr);
      logged := logged + {ind};
      owner := owner[addr := Place(i, s)];
    }

    /** The part of bmap behind the direct blocks. */
    method MapIndirect(i: nat, j: nat, ghost s: nat) returns (ok: bool, addr: nat)
      requires Valid() && i < |ino| && j < NINDIRECT && s == NDIRECT + 1 + j
      modifies this`used, this`data, this`table, this`ino, this`owner, this`logged
      ensures !ok ==> MapStep(old(At(i)), g, s) == Full && forall k :: 0 <= k < |used| ==> used[k]
      ensures ok ==>
          Valid() && Grown(old(V()), V()) && OtherInodesSame(old(V()), V(), i) && addr == Slot(V(), i, s) != 0
      ensures ok ==> MapStep(old(At(i)), g, s) == Done(At(i))
      ensures Slot(old(V()), i, s) != 0 ==> ok && V() == old(V()) && owner == old(owner) && logged == old(logged)
    {
      addr := 0;
      var ind;
      ok, ind := MapAddr(i, NDIRECT);
      if !ok {
        return;
      }
      ghost var mid := V();
      ok, addr := MapEntry(i, j, s);
      if ok {
        GrownTransitive(old(V()), mid, V());
      }
    }

    /** bmap: the block of the bn-th block of a file, allocated if missing, as
        MapStep says. No file changes. Fails when bn is out of range or no
        block is free. */
    method Bmap(i: nat, bn: nat, ghost s: nat) returns (ok: bool, addr: nat)
      requires Valid() && i < |ino| && s == SlotOf(bn)
      modifies this`used, this`data, this`table, this`ino, this`owner, this`logged
      ensures !ok ==> bn >= MAXFILE || (MapStep(old(At(i)), g, s) == Full && forall k :: 0 <= k < |used| ==> used[k])
      ensures ok ==>
          bn < MAXFILE && Valid() && Grown(old(V()), V()) && OtherInodesSame(old(V()), V(), i)
          && addr == Slot(V(), i, s) != 0
      ensures ok ==> MapStep(old(At(i)), g, s) == Done(At(i))
      ensures bn < MAXFILE && Slot(old(V()), i, s) != 0 ==>
          ok && V() == old(V()) && owner == old(owner) && logged == old(logged)
    {
      if bn < NDIRECT {
        ok, addr := MapAddr(i, bn);
        return;
      }
      if bn - NDIRECT < NINDIRECT {
        ok, addr := MapIndirect(i, bn - NDIRECT, s);
        return;
      }
      return false, 0;
    }

    /** One iteration of writei: a chunk within one block. */
    method WriteChunk(i: nat, off: nat, chunk: seq<byte>, ghost s: nat) returns (ok: bool)
      requires Valid() && i < |ino| && off < MAXFILE * BSIZE && off % BSIZE + |chunk| <= BSIZE
          && s == SlotOf(off / BSIZE)
      modifies this`used, this`data, this`table, this`ino, this`owner, this`logged
      ensures off / BSIZE < MAXFILE
      ensures !ok ==> StoreStep(old(At(i)), g, s) == Full && forall k :: 0 <= k < |used| ==> used[k]
      ensures ok ==> Valid() && ChunkDone(old(V()), V(), i, off, chunk)
      ensures ok ==> StoreStep(old(At(i)), g, s) == Done(At(i))
    {
      ChunkFits(off, |chunk|);
      var b;
      ok, b := Bmap(i, off / BSIZE, s);
      if !ok {
        return;
      }
      ghost var mid := V();
      assert b in owner && SlotsOf(mid, i)[s] == b;
      var block: Bytes := Overwritten(data[b], off % BSIZE, chunk);
      ChunkStoredInFiles(mid, owner, g.nmeta, i, off, b, chunk);
      StoredKeepsInv(mid, owner, g.nmeta, b, block);
      StoredSlots(mid, b, block, i);
      data := data[b := block];
      logged := logged + {b};
    }

    /** The same, as a step of a longer write. */
    method WritePart(i: nat, off: nat, src: seq<byte>, tot: nat, end: nat, ghost v0: Vol, ghost s: nat)
        returns (ok: bool)
      requires Valid() && Shape(v0) && Mapped(v0) && i < |v0.ino| && off + |src| <= MAXFILE * BSIZE
      requires tot < end && Piece(off, tot, end - tot, |src|) && s == SlotOf((off + tot) / BSIZE)
          && Written(v0, V(), i, off, src[..tot])
      modifies this`used, this`data, this`table, this`ino, this`owner, this`logged
      ensures s < NSLOTS
      ensures !ok ==> StoreStep(old(At(i)), g, s) == Full && forall k :: 0 <= k < |used| ==> used[k]
      ensures ok ==> Valid() && Written(v0, V(), i, off, src[..end]) && StoreStep(old(At(i)), g, s) == Done(At(i))
    {
      ghost var v := V();
      ghost var before := Written(v0, v, i, off, src[..tot]);
      ok := WriteChunk(i, off + tot, src[tot..end], s);
      if ok {
        ghost var chunk := ChunkDone(v, V(), i, off + tot, src[tot..end]);
        assert before && chunk;
        WrittenPiece(v0, v, V(), i, off, src, tot, end, before, chunk);
      }
    }

    method WriteStep(i: nat, off: nat, src: seq<byte>, tot: nat, ghost v0: Vol, ghost ran: nat -> Outcome)
        returns (ok: bool, end: nat)
      requires Valid() && Shape(v0) && Mapped(v0) && i < |v0.ino| && Course(ran, g, off, |src|)
      requires off + |src| <= MAXFILE * BSIZE && tot < |src| && Reached(off, tot, |src|)
      requires Written(v0, V(), i, off, src[..tot]) && ran(tot) == Done(At(i))
      modifies this`used, this`data, this`table, this`ino, this`owner, this`logged
      ensures !ok ==> ran(|src|) == Full && forall k :: 0 <= k < |used| ==> used[k]
      ensures ok ==> tot < end && Reached(off, end, |src|)
      ensures ok ==> Valid() && Written(v0, V(), i, off, src[..end]) && ran(end) == Done(At(i))
    {
      end := tot + ChunkSize(off + tot, |src| - tot);
      assert tot < end && Piece(off, tot, end - tot, |src|) && Reached(off, end, |src|);
      ghost var s := SlotOf((off + tot) / BSIZE);
      CourseAt(ran, g, off, |src|, tot, end, At(i), s);
      ok := WritePart(i, off, src, tot, end, v0, s);
    }

    /** iupdate: the cached inode reaches its block on disk. */
    method Iupdate(i: nat)
      requires i < |ino| == |dino|
      modifies this`dino, this`logged
      ensures dino == old(dino)[i := ino[i]] && logged == old(logged) + {IBlock(g, i)}
    {
      dino := dino[i := ino[i]];
      logged := logged + {IBlock(g, i)};
    }

    /** The loop of writei. */
    method WriteAll(i: nat, off: nat, src: seq<byte>, ghost ran: nat -> Outcome) returns (ok: bool)
      requires Valid() && i < |ino| && off <= ino[i].size && off + |src| <= MAXFILE * BSIZE
      requires Course(ran, g, off, |src|) && ran(0) == Done(At(i))
      modifies this`used, this`data, this`table, this`ino, this`owner, this`logged
      ensures !ok ==> ran(|src|) == Full && forall k :: 0 <= k < |used| ==> used[k]
      ensures ok ==> Valid() && Written(old(V()), V(), i, off, src) && ran(|src|) == Done(At(i))
    {
      ghost var v0 := V();
      var tot := 0;
      WrittenNothing(v0, i, off);
      assert src[..0] == [];
      while tot < |src|
        invariant Reached(off, tot, |src|)
        invariant Valid() && Written(v0, V(), i, off, src[..tot]) && ran(tot) == Done(At(i))
      {
        ok, tot := WriteStep(i, off, src, tot, v0, ran);
        if !ok {
          return;
        }
      }
      assert src[..|src|] == src;
      return true;
    }

    /** writei once the range is known to be allowed. */
    method WriteRange(i: nat, src: seq<byte>, off: nat, ghost ran: nat -> Outcome) returns (ok: bool)
      requires Valid() && i < |ino| && off <= ino[i].size && off + |src| <= MAXFILE * BSIZE
      requires Course(ran, g, off, |src|) && ran(0) == Done(At(i))
      modifies this`used, this`data, this`table, this`ino, this`dino, this`owner, this`logged
      ensures ok <==> ran(|src|).Done?
      ensures !ok ==> forall k :: 0 <= k < |used| ==> used[k]
      ensures ok ==> Valid() && FileWritten(old(V()), V(), i, off, src)
      ensures ok && old(dino) == old(ino) ==> dino == ino
      ensures ok ==> used == ran(|src|).a.used && logged == ran(|src|).a.log + InodeLogged(old(V()), g, i, off, |src|)
    {
      ghost var v0 := V();
      ok := WriteAll(i, off, src, ran);
      if ok {
        FinishWrite(i, off, src, |src|, v0);
        FileWrittenFrom(v0, V(), i, off, src);
      }
    }

    /** writei: refuses exactly a range that starts beyond the end, wraps
        around, or exceeds the largest file, and runs out of blocks exactly
        when fewer are free than the range lacks. Otherwise the file is
        overwritten and extended as one flat byte sequence, no other file
        changes, the first free blocks are taken, the inode on disk follows
        the cached one, and exactly the blocks of LogOf are logged. */
    method Writei(i: nat, src: seq<byte>, off: nat) returns (r: WriteResult)
      requires Valid() && i < |ino|
      modifies this`used, this`data, this`table, this`ino, this`dino, this`owner, this`logged
      ensures r.Refused? <==> !WriteAllowed(old(ino)[i].size, off, |src|)
      ensures r.Refused? ==> V() == old(V()) && dino == old(dino) && logged == old(logged) && owner == old(owner)
      ensures !r.Refused? ==> (r.Wrote? <==> Enough(old(V()), i, off, |src|))
      ensures r.OutOfBlocks? ==> forall k :: 0 <= k < |used| ==> used[k]
      ensures r.Wrote? ==> r.n == |src| && Valid() && FileWritten(old(V()), V(), i, off, src)
      ensures r.Wrote? ==> used == Marking(old(used), Picks(old(used), |MissingFor(old(V()), i, off, |src|)|))
      ensures r.Wrote? ==> logged == old(logged) + LogOf(old(V()), g, i, off, |src|)
      ensures r.Wrote? && old(dino) == old(ino) ==> dino == ino
    {
      if off > ino[i].size || off + |src| >= 0x1_0000_0000 || off + |src| > MAXFILE * BSIZE {
        return Refused;
      }
      ghost var ran := CourseOf(V(), g, i, off, |src|, logged);
      var ok := WriteRange(i, src, off, ran);
      if !ok {
        return OutOfBlocks;
      }
      return Wrote(|src|);
    }

    /** The end of writei: raises the size if the write went beyond it. */
    method FinishWrite(i: nat, off: nat, ghost src: seq<byte>, n: nat, ghost v0: Vol)
      requires Valid() && n == |src| && Written(v0, V(), i, off, src)
      requires off <= v0.ino[i].size && off + n <= MAXFILE * BSIZE
      modifies this`ino, this`dino, this`logged
      ensures Valid() && Files(V()) == old(Files(V())) && Sizes(V()) == Sizes(v0)[i := Max(v0.ino[i].size, off + n)]
      ensures used == old(used) && logged == old(logged) + InodeLogged(v0, g, i, off, n)
      ensures old(dino) == v0.ino ==> dino == ino
    {
      assert Sizes(V())[i] == Sizes(v0)[i];
      if n > 0 && off + n > ino[i].size {
        ghost var v := V();
        ResizedKeepsInv(v0, v, owner, g.nmeta, i, off, src);
        ResizedKeepsBytes(v, i, off + n);
        ino := ino[i := Inode(off + n, ino[i].addrs)];
        Iupdate(i);
      }
    }

    /** One iteration of readi. */
    method ReadChunk(i: nat, off: nat, m: nat) returns (chunk: seq<byte>)
      requires Valid() && i < |ino| && off < ino[i].size && off + m <= ino[i].size && off % BSIZE + m <= BSIZE
      modifies this`used, this`data, this`table, this`ino, this`owner, this`logged
      ensures V() == old(V()) && owner == old(owner) && logged == old(logged) && |Flat(V(), i)| == MAXFILE * BSIZE
      ensures chunk == Flat(V(), i)[off..off + m]
    {
      ChunkFits(off, m);
      MappedBelowSize(V(), i, off);
      var ok, b := Bmap(i, off / BSIZE, SlotOf(off / BSIZE));
      assert b in owner;
      ChunkRead(V(), i, off, b, m);
      chunk := data[b][off % BSIZE..off % BSIZE + m];
    }

    /** One more chunk behind dst. */
    method ReadNext(i: nat, off: nat, end: nat, dst: seq<byte>) returns (dst': seq<byte>)
      requires Valid() && i < |ino| && off + |dst| < end <= ino[i].size && |Flat(V(), i)| == MAXFILE * BSIZE
      requires dst == Flat(V(), i)[off..off + |dst|]
      modifies this`used, this`data, this`table, this`ino, this`owner, this`logged
      ensures V() == old(V()) && owner == old(owner) && logged == old(logged)
      ensures |dst| < |dst'| && off + |dst'| <= end && dst' == Flat(V(), i)[off..off + |dst'|]
    {
      var m := ChunkSize(off + |dst|, end - (off + |dst|));
      var chunk := ReadChunk(i, off + |dst|, m);
      SliceJoin(Flat(V(), i), off, off + |dst|, off + |dst| + m);
      dst' := dst + chunk;
    }

    /** readi: refuses exactly a range that starts beyond the end or wraps
        around; otherwise returns the slice of the file, cut at its end. It
        goes through bmap but never allocates. */
    method Readi(i: nat, off: nat, n: nat) returns (r: ReadResult)
      requires Valid() && i < |ino|
      modifies this`used, this`data, this`table, this`ino, this`owner, this`logged
      ensures V() == old(V()) && owner == old(owner) && logged == old(logged)
      ensures r.ReadRefused? <==> off > ino[i].size || off + n >= 0x1_0000_0000
      ensures r.Read? ==> r.bytes == Contents(V(), i)[off..Min(off + n, ino[i].size)]
    {
      if off > ino[i].size || off + n >= 0x1_0000_0000 {
        return ReadRefused;
      }
      var end := Min(off + n, ino[i].size);
      var dst: seq<byte> := [];
      while off + |dst| < end
        invariant off + |dst| <= end && V() == old(V()) && owner == old(owner) && logged == old(logged)
        invariant dst == Flat(V(), i)[off..off + |dst|]
        decreases end - |dst|
      {
        dst := ReadNext(i, off, end, dst);
      }
      CutTwice(Flat(V(), i), off, end, ino[i].size);
      return Read(dst);
    }

    /** One transaction of filewrite: the next piece of at most CHUNK bytes. */
    method WritePiece(i: nat, piece: seq<byte>, off: nat) returns (r: WriteResult, ghost x: Transaction)
      requires Valid() && dino == ino && 0 < |piece| <= CHUNK && i < |ino|
      modifies this`used, this`data, this`table, this`ino, this`dino, this`owner, this`logged
      ensures r.OutOfBlocks? ==> forall k :: 0 <= k < |used| ==> used[k]
      ensures r.Refused? ==> Valid() && V() == old(V()) && dino == ino && !WriteAllowed(ino[i].size, off, |piece|)
      ensures r.Wrote? ==> Valid() && dino == ino && FileWritten(old(V()), V(), i, off, piece)
      ensures r.Wrote? ==> x.before == old(V()) && x.off == off && x.n == |piece| && x.log == logged && Charged(x, g, i)
    {
      ghost var v := V();
      logged := {};
      r := Writei(i, piece, off);
      x := Transaction(v, off, |piece|, logged);
      if r.Wrote? {
        PieceCharged(v, g, i, x);
      }
    }

    /** The next piece of filewrite, from done to end. */
    method WriteNext(i: nat, src: seq<byte>, off: nat, done: nat, end: nat, ghost v0: Vol)
        returns (r: WriteResult, ghost x: Transaction)
      requires Valid() && dino == ino && done < end <= |src| && end - done <= CHUNK && i < |ino|
      requires FileWritten(v0, V(), i, off, src[..done])
      modifies this`used, this`data, this`table, this`ino, this`dino, this`owner, this`logged
      ensures r.OutOfBlocks? ==> forall k :: 0 <= k < |used| ==> used[k]
      ensures r.Refused? ==>
          Valid() && V() == old(V()) && dino == ino && !WriteAllowed(ino[i].size, off + done, end - done)
      ensures r.Wrote? ==> Valid() && dino == ino && FileWritten(v0, V(), i, off, src[..end])
      ensures r.Wrote? ==> x.before == old(V()) && x.off == off + done && x.n == end - done && Charged(x, g, i)
    {
      ghost var v := V();
      ghost var before := FileWritten(v0, v, i, off, src[..done]);
      assert before;
      var piece, at := src[done..end], off + done;
      r, x := WritePiece(i, piece, at);
      if r.Wrote? {
        ghost var now := FileWritten(v, V(), i, at, piece);
        NextWritten(v0, v, V(), i, off, src, done, end, at, piece, before, now);
      }
    }

    /** filewrite: splits a write into transactions of at most CHUNK bytes,
        each of which logs at most MAXOPBLOCKS blocks. On success the file has
        all bytes at off; on failure it has a prefix of them, and the next
        chunk was refused. */
    method Filewrite(i: nat, src: seq<byte>, off: nat) returns (r: WriteResult, done: nat, ghost ts: seq<Transaction>)
      requires Valid() && i < |ino| && dino == ino
      modifies this`used, this`data, this`table, this`ino, this`dino, this`owner, this`logged
      ensures done <= |src| && Carried(old(V()), i, off, src, done, ts, (x: Transaction) => Charged(x, g, i))
      ensures r.OutOfBlocks? ==> forall k :: 0 <= k < |used| ==> used[k]
      ensures !r.OutOfBlocks? ==> Valid() && dino == ino && FileWritten(old(V()), V(), i, off, src[..done])
      ensures r.Wrote? ==> done == |src|
      ensures r.Refused? ==> !WriteAllowed(ino[i].size, off + done, Min(|src| - done, CHUNK))
    {
      ghost var charged := (x: Transaction) => Charged(x, g, i);
      done, ts := 0, [];
      while done < |src|
        invariant done <= |src| && i < |ino| && Carried(old(V()), i, off, src, done, ts, charged)
        invariant Valid() && dino == ino && FileWritten(old(V()), V(), i, off, src[..done])
      {
        var end := done + Min(|src| - done, CHUNK);
        ghost var x;
        r, x := WriteNext(i, src, off, done, end, old(V()));
        if !r.Wrote? {
          return;
        }
        CarriedMore(old(V()), i, off, src, done, ts, charged, x);
        ts := ts + [x];
        done := end;
      }
      r := Wrote(|src|);
    }

    /** The free map while itrunc runs: of the blocks of inode i, those in
        slots below k and in the first j indirect entries are free. */
    ghost predicate FreedSoFar(v: Vol, own: Owners, i: nat, k: nat, j: nat)
      reads this
    {
      && |used| == |v.used| && data == v.data && table == v.table
      && (forall b :: 0 <= b < |used| ==>
            (used[b] <==>
                v.used[b] && !(b in own && own[b].i == i && (own[b].s < k || NDIRECT < own[b].s < NDIRECT + 1 + j))))
    }

    method FreeDirect(i: nat)
      requires Valid() && i < |ino|
      modifies this`used, this`ino, this`logged
      ensures FreedSoFar(old(V()), owner, i, NDIRECT, 0)
      ensures |ino| == |old(ino)| && ino == old(ino)[i := Inode(old(ino)[i].size, ino[i].addrs)]
      ensures forall s :: 0 <= s < NDIRECT ==> ino[i].addrs[s] == 0
      ensures ino[i].addrs[NDIRECT] == old(ino)[i].addrs[NDIRECT]
    {
      ghost var v := V();
      var k := 0;
      while k < NDIRECT
        invariant 0 <= k <= NDIRECT && FreedSoFar(v, owner, i, k, 0)
        invariant |ino| == |v.ino| && ino == v.ino[i := Inode(v.ino[i].size, ino[i].addrs)]
        invariant forall s :: 0 <= s <= NDIRECT ==> ino[i].addrs[s] == if s < k then 0 else v.ino[i].addrs[s]
      {
        var b := ino[i].addrs[k];
        assert b == Slot(v, i, k);
        if b != 0 {
          var ok := Bfree(b);
          assert ok;
          ino := ino[i := Inode(ino[i].size, ino[i].addrs[k := 0])];
        }
        k := k + 1;
      }
    }

    method FreeEntries(i: nat, ind: nat, ghost v: Vol)
      requires Inv(v, owner, g.nmeta) && i < |v.ino| && ind == v.ino[i].addrs[NDIRECT] != 0
      requires FreedSoFar(v, owner, i, NDIRECT, 0)
      modifies this`used, this`logged
      ensures FreedSoFar(v, owner, i, NDIRECT, NINDIRECT)
    {
      var j := 0;
      while j < NINDIRECT
        invariant 0 <= j <= NINDIRECT && FreedSoFar(v, owner, i, NDIRECT, j)
      {
        var b := table[ind][j];
        assert b == Slot(v, i, NDIRECT + 1 + j);
        if b != 0 {
          var ok := Bfree(b);
          assert ok;
        }
        j := j + 1;
      }
    }

    /** itrunc: frees exactly the blocks of the inode; bfree never meets a
        free block on the way. */
    method Itrunc(i: nat)
      requires Valid() && i < |ino|
      modifies this`used, this`ino, this`dino, this`owner, this`logged
      ensures Valid() && Truncated(old(V()), old(owner), V(), i)
      ensures owner == OwnersWithout(old(owner), i)
      ensures dino == old(dino)[i := ino[i]]
    {
      ghost var v := V();
      FreeDirect(i);
      var ind := ino[i].addrs[NDIRECT];
      if ind != 0 {
        IndirectOwned(v, owner, g.nmeta, i);
        FreeEntries(i, ind, v);
        var ok := Bfree(ind);
        assert ok;
        ino := ino[i := Inode(ino[i].size, ino[i].addrs[NDIRECT := 0])];
      }
      ino := ino[i := Inode(0, ino[i].addrs)];
      Iupdate(i);
      assert ino[i].addrs == NoAddrs();
      TruncatedKeepsInv(v, owner, g.nmeta, V(), i);
      owner := OwnersWithout(owner, i);
    }
  }
}
