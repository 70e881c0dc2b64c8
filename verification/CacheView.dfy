/** What the buffer cache shows of the disk: the contents a reader of a block
    gets, the blocks pinned by a transaction, and how each cache operation
    changes the two. */
module CacheView {
  import opened DiskBlocks
  import opened BufferCache

  /** Clean buffers hold what is on disk. */
  ghost predicate Coherent(buf: seq<Buf>, disk: seq<Block>) {
    && OneBufferPerBlock(buf)
    && (forall i :: 0 <= i < |buf| ==> buf[i].dev == ROOTDEV || (buf[i].dev == 0 && !buf[i].valid && !buf[i].dirty))
    && (forall i :: 0 <= i < |buf| && buf[i].dev == ROOTDEV ==> buf[i].blockno < |disk|)
    && (forall i :: 0 <= i < |buf| && buf[i].dev == ROOTDEV && buf[i].valid && !buf[i].dirty ==>
        buf[i].data == disk[buf[i].blockno])
  }

  /** No process holds a buffer. */
  ghost predicate Quiet(buf: seq<Buf>) {
    forall i :: 0 <= i < |buf| ==> buf[i].refcnt == 0
  }

  ghost predicate Held(buf: seq<Buf>, blk: nat, i: nat) {
    Cached(buf, ROOTDEV, blk, i) && buf[i].valid
  }

  /** The contents of a block as bread shows them. */
  ghost function View(buf: seq<Buf>, disk: seq<Block>, blk: nat): Block
    requires blk < |disk|
  {
    if exists i: nat :: Held(buf, blk, i) then
      var i: nat :| Held(buf, blk, i);
      buf[i].data
    else disk[blk]
  }

  ghost predicate Dirty(buf: seq<Buf>, blk: nat) {
    exists i: nat :: Cached(buf, ROOTDEV, blk, i) && buf[i].dirty
  }

  /** The whole disk as bread shows it. */
  ghost function Contents(buf: seq<Buf>, disk: seq<Block>): (r: seq<Block>)
    ensures |r| == |disk|
  {
    seq(|disk|, x requires 0 <= x < |disk| => View(buf, disk, x))
  }

  /** The blocks whose buffers are dirty. */
  ghost function Pinned(buf: seq<Buf>): set<nat> {
    set i | 0 <= i < |buf| && buf[i].dev == ROOTDEV && buf[i].dirty :: buf[i].blockno
  }

  lemma OneHolder(buf: seq<Buf>, blk: nat, i: nat, j: nat)
    requires OneBufferPerBlock(buf) && Cached(buf, ROOTDEV, blk, i) && Cached(buf, ROOTDEV, blk, j)
    ensures i == j
  {
  }

  lemma ViewHeld(buf: seq<Buf>, disk: seq<Block>, blk: nat, i: nat)
    requires Coherent(buf, disk) && blk < |disk| && Held(buf, blk, i)
    ensures View(buf, disk, blk) == buf[i].data
    ensures Dirty(buf, blk) <==> buf[i].dirty
  {
    var j: nat :| Held(buf, blk, j) && View(buf, disk, blk) == buf[j].data;
    assert Held(buf, blk, j);
    OneHolder(buf, blk, i, j);
    if Dirty(buf, blk) {
      var k: nat :| Cached(buf, ROOTDEV, blk, k) && buf[k].dirty;
      OneHolder(buf, blk, i, k);
    } else {
      assert Cached(buf, ROOTDEV, blk, i);
    }
  }

  /** Both views agree on block x. */
  ghost predicate SameAt(buf: seq<Buf>, disk: seq<Block>, buf': seq<Buf>, disk': seq<Block>, x: nat)
    requires x < |disk| && x < |disk'|
  {
    View(buf, disk, x) == View(buf', disk', x) && (Dirty(buf, x) <==> Dirty(buf', x))
  }

  /** Replacing buffer b by another value does not touch the view of a block
      that neither value caches, unless the old value was dirty. */
  lemma ReplaceElsewhere(buf: seq<Buf>, disk: seq<Block>, b: nat, v: Buf, disk': seq<Block>, x: nat)
    requires Coherent(buf, disk) && b < |buf| && x < |disk| == |disk'| && disk[x] == disk'[x]
    requires v.dev == ROOTDEV && v.blockno != x
    requires Cached(buf, ROOTDEV, x, b) ==> !buf[b].dirty
    ensures SameAt(buf, disk, buf[b := v], disk', x)
  {
    var buf' := buf[b := v];
    forall i: nat | i != b
      ensures Cached(buf, ROOTDEV, x, i) <==> Cached(buf', ROOTDEV, x, i)
      ensures Held(buf, x, i) <==> Held(buf', x, i)
    {
    }
    assert !Cached(buf', ROOTDEV, x, b);
    if j: nat :| Held(buf, x, j) {
      ViewHeld(buf, disk, x, j);
    }
    if j: nat :| Held(buf', x, j) {
      assert Held(buf, x, j);
      forall k: nat | Held(buf', x, k)
        ensures k == j
      {
        assert Held(buf, x, k);
      }
    }
    if Dirty(buf, x) {
      var k: nat :| Cached(buf, ROOTDEV, x, k) && buf[k].dirty;
      assert Cached(buf', ROOTDEV, x, k);
    }
    if Dirty(buf', x) {
      var k: nat :| Cached(buf', ROOTDEV, x, k) && buf'[k].dirty;
      assert Cached(buf, ROOTDEV, x, k);
    }
  }

  /** Views that agree on every block except possibly one. */
  lemma ViewsAgree(buf: seq<Buf>, disk: seq<Block>, buf': seq<Buf>, disk': seq<Block>, blk: nat)
    requires Coherent(buf, disk) && Coherent(buf', disk') && blk < |disk| == |disk'|
    requires forall x :: 0 <= x < |disk| && x != blk ==> SameAt(buf, disk, buf', disk', x)
    ensures Contents(buf', disk') == Contents(buf, disk)[blk := View(buf', disk', blk)]
    ensures Pinned(buf') == if Dirty(buf', blk) then Pinned(buf) + {blk} else Pinned(buf) - {blk}
  {
    PinnedIffDirty(buf);
    PinnedIffDirty(buf');
    forall x: nat | x != blk
      ensures x in Pinned(buf) <==> x in Pinned(buf')
    {
      if x < |disk| {
        assert SameAt(buf, disk, buf', disk', x);
      }
    }
    forall x | 0 <= x < |disk| && x != blk
      ensures View(buf, disk, x) == View(buf', disk', x)
    {
      assert SameAt(buf, disk, buf', disk', x);
    }
  }

  lemma PinnedIffDirty(buf: seq<Buf>)
    ensures forall x: nat :: x in Pinned(buf) <==> Dirty(buf, x)
  {
    forall x: nat
      ensures x in Pinned(buf) <==> Dirty(buf, x)
    {
      if x in Pinned(buf) {
        var i :| 0 <= i < |buf| && buf[i].dev == ROOTDEV && buf[i].dirty && buf[i].blockno == x;
        assert Cached(buf, ROOTDEV, x, i);
      }
    }
  }

  /** bread changes no view and pins or unpins nothing. */
  lemma FetchKeepsView(buf: seq<Buf>, disk: seq<Block>, blk: nat, b: nat, buf': seq<Buf>)
    requires Coherent(buf, disk) && blk < |disk| && Fetched(buf, disk, blk, b, buf')
    requires forall i :: 0 <= i < |buf| ==> (buf[i].dirty ==> buf[i].valid)
    ensures Coherent(buf', disk)
    ensures Contents(buf', disk) == Contents(buf, disk) && Pinned(buf') == Pinned(buf)
    ensures Held(buf', blk, b) && buf'[b].data == Contents(buf, disk)[blk]
  {
    assert buf' == buf[b := buf'[b]];
    FetchCoherent(buf, disk, blk, b, buf');
    FetchSame(buf, disk, blk, b, buf');
    forall x | 0 <= x < |disk| && x != blk
      ensures SameAt(buf, disk, buf', disk, x)
    {
      ReplaceElsewhere(buf, disk, b, buf'[b], disk, x);
    }
    ViewsAgree(buf, disk, buf', disk, blk);
    PinnedIffDirty(buf);
  }

  lemma FetchCoherent(buf: seq<Buf>, disk: seq<Block>, blk: nat, b: nat, buf': seq<Buf>)
    requires Coherent(buf, disk) && blk < |disk| && Fetched(buf, disk, blk, b, buf')
    requires forall i :: 0 <= i < |buf| ==> (buf[i].dirty ==> buf[i].valid)
    ensures Coherent(buf', disk) && Held(buf', blk, b)
  {
    if !Cached(buf, ROOTDEV, blk, b) {
      forall i | 0 <= i < |buf|
        ensures buf[i].dev != ROOTDEV || buf[i].blockno != blk
      {
        assert !Cached(buf, ROOTDEV, blk, i);
      }
    }
  }

  lemma FetchSame(buf: seq<Buf>, disk: seq<Block>, blk: nat, b: nat, buf': seq<Buf>)
    requires Coherent(buf, disk) && Coherent(buf', disk) && blk < |disk| && Fetched(buf, disk, blk, b, buf')
    requires forall i :: 0 <= i < |buf| ==> (buf[i].dirty ==> buf[i].valid)
    requires Held(buf', blk, b)
    ensures SameAt(buf, disk, buf', disk, blk) && buf'[b].data == View(buf, disk, blk)
  {
    ViewHeld(buf', disk, blk, b);
    if Cached(buf, ROOTDEV, blk, b) {
      if buf[b].valid {
        ViewHeld(buf, disk, blk, b);
      } else {
        forall i: nat
          ensures !Held(buf, blk, i)
        {
          assert Cached(buf, ROOTDEV, blk, i) ==> i == b;
        }
        assert !Dirty(buf, blk);
      }
    } else {
      assert forall i: nat :: !Held(buf, blk, i);
    }
  }

  /** Changing only the lock and the reference count of a buffer. */
  lemma ReleaseKeepsView(buf: seq<Buf>, disk: seq<Block>, b: nat, buf': seq<Buf>)
    requires Coherent(buf, disk) && b < |buf| && |buf'| == |buf| && buf' == buf[b := buf'[b]]
    requires buf'[b] == buf[b].(locked := buf'[b].locked, refcnt := buf'[b].refcnt)
    ensures Coherent(buf', disk)
    ensures Contents(buf', disk) == Contents(buf, disk) && Pinned(buf') == Pinned(buf)
  {
    assert Pinned(buf') == Pinned(buf) by {
      assert forall i :: 0 <= i < |buf| ==>
          buf'[i].dev == buf[i].dev && buf'[i].dirty == buf[i].dirty && buf'[i].blockno == buf[i].blockno;
    }
    forall x: nat | x < |disk|
      ensures View(buf, disk, x) == View(buf', disk, x)
    {
      if i: nat :| Held(buf, x, i) {
        assert Held(buf', x, i);
        ViewHeld(buf, disk, x, i);
        ViewHeld(buf', disk, x, i);
      } else {
        assert forall i: nat :: Held(buf', x, i) ==> Held(buf, x, i);
      }
    }
  }

  /** The holder of a buffer gives its block new contents, and either writes
      them to disk or pins them: the view changes at that block only. */
  lemma StoreChangesView(buf: seq<Buf>, disk: seq<Block>, blk: nat, b: nat, data: Block, pin: bool)
    requires Coherent(buf, disk) && blk < |disk| && Held(buf, blk, b)
    ensures var buf' := buf[b := buf[b].(data := data, dirty := pin)];
            var disk' := if pin then disk else disk[blk := data];
            && Coherent(buf', disk')
            && Contents(buf', disk') == Contents(buf, disk)[blk := data]
            && Pinned(buf') == if pin then Pinned(buf) + {blk} else Pinned(buf) - {blk}
  {
    var buf' := buf[b := buf[b].(data := data, dirty := pin)];
    var disk' := if pin then disk else disk[blk := data];
    forall i | 0 <= i < |buf| && i != b
      ensures buf[i].dev == ROOTDEV ==> buf[i].blockno != blk
    {
    }
    assert Coherent(buf', disk');
    assert Held(buf', blk, b);
    ViewHeld(buf', disk', blk, b);
    forall x | 0 <= x < |disk| && x != blk
      ensures SameAt(buf, disk, buf', disk', x)
    {
      ReplaceElsewhere(buf, disk, b, buf'[b], disk', x);
    }
    ViewsAgree(buf, disk, buf', disk', blk);
  }

  ghost function BlocksOf(buf: seq<Buf>, k: nat): set<nat>
    requires k <= |buf|
  {
    set i | 0 <= i < k :: buf[i].blockno
  }

  lemma {:induction false} DistinctBlocks(buf: seq<Buf>, k: nat)
    requires OneBufferPerBlock(buf) && k <= |buf| && forall i :: 0 <= i < |buf| ==> buf[i].dev == ROOTDEV
    ensures |BlocksOf(buf, k)| == k
  {
    if k > 0 {
      DistinctBlocks(buf, k - 1);
      assert BlocksOf(buf, k) == BlocksOf(buf, k - 1) + {buf[k - 1].blockno};
      forall i | 0 <= i < k - 1
        ensures buf[i].blockno != buf[k - 1].blockno
      {
      }
    }
  }

  lemma SubsetSize(a: set<nat>, b: set<nat>)
    requires a <= b
    ensures |a| <= |b|
  {
    assert b == a + (b - a);
  }

  /** When fewer blocks than buffers are pinned or in use, bget finds a
      buffer to recycle. */
  lemma SomeBufferIsFree(buf: seq<Buf>, busy: set<nat>)
    requires OneBufferPerBlock(buf) && |busy| < |buf|
    requires forall i :: 0 <= i < |buf| && (buf[i].refcnt > 0 || buf[i].dirty) ==>
        buf[i].dev == ROOTDEV && buf[i].blockno in busy
    ensures exists i: nat :: Recyclable(buf, i)
  {
    if forall i: nat :: !Recyclable(buf, i) {
      forall i | 0 <= i < |buf|
        ensures buf[i].dev == ROOTDEV && buf[i].blockno in busy
      {
        assert !Recyclable(buf, i);
      }
      DistinctBlocks(buf, |buf|);
      SubsetSize(BlocksOf(buf, |buf|), busy);
    }
  }

  /** Blocks that are not pinned are shown as they are on disk. */
  lemma UnpinnedShowsDisk(buf: seq<Buf>, disk: seq<Block>, x: nat)
    requires Coherent(buf, disk) && x < |disk| && x !in Pinned(buf)
    ensures Contents(buf, disk)[x] == disk[x]
  {
    PinnedIffDirty(buf);
    if i: nat :| Held(buf, x, i) {
      ViewHeld(buf, disk, x, i);
    }
  }
}
