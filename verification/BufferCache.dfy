/** The buffer cache: NBUF buffers on one doubly linked ring ordered from the
    most to the least recently released, above a disk that reads and writes
    whole blocks. */
module BufferCache {
  import opened DiskBlocks

  const ROOTDEV: nat := 1

  datatype Buf = Buf(dev: nat, blockno: nat, valid: bool, dirty: bool, locked: bool, refcnt: nat, data: Block)

  ghost predicate Distinct(s: seq<nat>) {
    forall i, j :: 0 <= i < j < |s| ==> s[i] != s[j]
  }

  /** The nodes met when walking `next` from the list head back to it. */
  ghost function Cycle(order: seq<nat>, head: nat): seq<nat> {
    [head] + order + [head]
  }

  ghost predicate Linked(next: seq<nat>, prev: seq<nat>, cycle: seq<nat>) {
    && |next| == |prev|
    && (forall i :: 0 <= i < |cycle| ==> cycle[i] < |next|)
    && (forall i, j :: 0 <= i < j < |cycle| && j == i + 1 ==> next[cycle[i]] == cycle[j] && prev[cycle[j]] == cycle[i])
  }

  /** next and prev form one ring through head and the nodes of order. */
  ghost predicate Ring(next: seq<nat>, prev: seq<nat>, order: seq<nat>, head: nat) {
    && |next| == |prev| && head < |next|
    && Distinct(order) && head !in order && (forall i :: 0 <= i < |order| ==> order[i] < |next|)
    && Linked(next, prev, Cycle(order, head))
  }

  /** The ring after taking out the node at position k. */
  lemma RingUnlink(next: seq<nat>, prev: seq<nat>, order: seq<nat>, head: nat, k: nat)
    requires Ring(next, prev, order, head) && k < |order|
    ensures var b := order[k]; var rest := order[..k] + order[k + 1..];
            && next[b] < |next| && prev[b] < |next|
            && Ring(next[prev[b] := next[b]], prev[next[b] := prev[b]], rest, head)
            && b !in rest
  {
    var c := Cycle(order, head);
    var b := order[k];
    assert c[k + 1] == b && next[c[k + 1]] == c[k + 2] && prev[c[k + 1]] == c[k];
    var rest := order[..k] + order[k + 1..];
    var d := Cycle(rest, head);
    assert d == c[..k + 1] + c[k + 2..];
    var next', prev' := next[prev[b] := next[b]], prev[next[b] := prev[b]];
    forall i, j | 0 <= i < j < |d| && j == i + 1
      ensures next'[d[i]] == d[j] && prev'[d[j]] == d[i]
    {
      var m := if i <= k then i else i + 1;
      var n := if j <= k then j else j + 1;
      assert d[i] == c[m] && d[j] == c[n];
      if i != k {
        assert n == m + 1;
        assert next[c[m]] == c[n] && prev[c[n]] == c[m];
        assert c[m] != c[k] || (k == 0 && m == |c| - 1);
        assert c[n] != c[k + 2] || (n == 0 && k + 2 == |c| - 1);
      }
    }
  }

  /** The ring after inserting a node right behind the head. */
  lemma RingPush(next: seq<nat>, prev: seq<nat>, order: seq<nat>, head: nat, b: nat)
    requires Ring(next, prev, order, head) && b < |next| && b !in order && b != head
    ensures var first := next[head];
            && first < |next|
            && Ring(next[b := first][head := b], prev[b := head][first := b], [b] + order, head)
  {
    var c := Cycle(order, head);
    assert c[0] == head && next[c[0]] == c[1] && prev[c[1]] == c[0];
    var d := Cycle([b] + order, head);
    assert d == [head, b] + c[1..];
    var next', prev' := next[b := c[1]][head := b], prev[b := head][c[1] := b];
    forall i, j | 0 <= i < j < |d| && j == i + 1
      ensures next'[d[i]] == d[j] && prev'[d[j]] == d[i]
    {
      if i >= 2 {
        assert d[i] == c[i - 1] && d[j] == c[j - 1];
        assert next[c[i - 1]] == c[j - 1] && prev[c[j - 1]] == c[i - 1];
      }
    }
  }

  ghost predicate Cached(buf: seq<Buf>, dev: nat, blockno: nat, i: nat) {
    i < |buf| && buf[i].dev == dev && buf[i].blockno == blockno
  }

  ghost predicate Recyclable(buf: seq<Buf>, i: nat) {
    i < |buf| && buf[i].refcnt == 0 && !buf[i].dirty
  }

  /** No block of a real device (dev != 0) has two buffers. */
  ghost predicate OneBufferPerBlock(buf: seq<Buf>) {
    forall i, j :: 0 <= i < j < |buf| && buf[i].dev != 0 ==>
        buf[i].dev != buf[j].dev || buf[i].blockno != buf[j].blockno
  }

  /** order lists all buffers, the most recently released one first. */
  ghost predicate ByRecency(order: seq<nat>, stamp: seq<int>, clock: int) {
    && (forall i :: 0 <= i < |order| ==> order[i] < |stamp| && stamp[order[i]] < clock)
    && (forall i, j :: 0 <= i < j < |order| ==> stamp[order[i]] > stamp[order[j]])
  }

  ghost predicate Covers(order: seq<nat>, n: nat) {
    forall b: nat :: b < n ==> b in order
  }

  lemma RemoveRecent(order: seq<nat>, stamp: seq<int>, clock: int, k: nat)
    requires ByRecency(order, stamp, clock) && k < |order|
    ensures ByRecency(order[..k] + order[k + 1..], stamp, clock)
  {
  }

  /** The buffers after bread has returned buffer b for a block. */
  ghost predicate Fetched(old_: seq<Buf>, disk: seq<Block>, blockno: nat, b: nat, new_: seq<Buf>)
    requires blockno < |disk|
  {
    && b < |old_|
    && (if Cached(old_, ROOTDEV, blockno, b) then
          new_ == old_[b := old_[b].(refcnt := old_[b].refcnt + 1, locked := true, valid := true,
                                     data := if old_[b].valid then old_[b].data else disk[blockno])]
        else
          && (forall i: nat :: !Cached(old_, ROOTDEV, blockno, i))
          && Recyclable(old_, b)
          && new_ == old_[b := Buf(ROOTDEV, blockno, true, false, true, 1, disk[blockno])])
  }

  lemma PushRecent(order: seq<nat>, stamp: seq<int>, clock: int, b: nat)
    requires ByRecency(order, stamp, clock) && b < |stamp| && b !in order
    ensures ByRecency([b] + order, stamp[b := clock], clock + 1)
  {
  }

  ghost function Position(order: seq<nat>, n: nat, b: nat): (k: nat)
    requires Covers(order, n) && b < n
    ensures k < |order| && order[k] == b
  {
    assert b in order;
    var k :| 0 <= k < |order| && order[k] == b;
    k
  }

  lemma MoveToFrontCovers(order: seq<nat>, n: nat, k: nat)
    requires Covers(order, n) && k < |order|
    ensures Covers([order[k]] + (order[..k] + order[k + 1..]), n)
  {
    var moved := [order[k]] + (order[..k] + order[k + 1..]);
    forall b: nat | b < n
      ensures b in moved
    {
      var m := Position(order, n, b);
      assert moved[if m < k then m + 1 else if m == k then 0 else m] == b;
    }
  }

  class Bcache {
    const nbuf: nat
    var buf: seq<Buf>
    var next: seq<nat>
    var prev: seq<nat>
    var disk: seq<Block>
    /** Buffers from head.next to head.prev. */
    ghost var order: seq<nat>
    /** When each buffer's reference count last fell to zero. */
    ghost var stamp: seq<int>
    ghost var clock: int
    /** Every disk image since construction, oldest first. */
    ghost var trace: seq<seq<Block>>

    ghost predicate Valid()
      reads this
    {
      && |buf| == nbuf && |stamp| == nbuf && |next| == nbuf + 1
      && Ring(next, prev, order, nbuf) && Covers(order, nbuf)
      && ByRecency(order, stamp, clock)
      && OneBufferPerBlock(buf)
      && (forall i :: 0 <= i < |buf| ==> (buf[i].locked ==> buf[i].refcnt > 0) && (buf[i].dirty ==> buf[i].valid))
      && |trace| > 0 && trace[|trace| - 1] == disk
    }

    /** binit: all buffers on the ring, none holding a block of a real device. */
    constructor (n: nat, image: seq<Block>)
      ensures Valid() && nbuf == n && disk == image && trace == [image]
      ensures buf == seq(n, _ => Buf(0, 0, false, false, false, 0, ZeroBlock))
    {
      nbuf := n;
      buf := seq(n, _ => Buf(0, 0, false, false, false, 0, ZeroBlock));
      next, prev := seq(n + 1, _ => n), seq(n + 1, _ => n);
      disk := image;
      order, stamp, clock, trace := [], seq(n, _ => 0), 0, [image];
      new;
      LinkAll();
    }

    method LinkAll()
      requires |next| == nbuf + 1 && |stamp| == nbuf && Ring(next, prev, order, nbuf) && order == [] && clock == 0
      modifies this`next, this`prev, this`order, this`stamp, this`clock
      ensures |next| == nbuf + 1 && |stamp| == nbuf && Ring(next, prev, order, nbuf) && Covers(order, nbuf)
      ensures forall i :: 0 <= i < |order| ==> order[i] < nbuf
      ensures ByRecency(order, stamp, clock)
    {
      var b := 0;
      while b < nbuf
        invariant 0 <= b <= nbuf && |next| == nbuf + 1 && |stamp| == nbuf
        invariant Ring(next, prev, order, nbuf) && ByRecency(order, stamp, clock)
        invariant Covers(order, b) && forall i :: 0 <= i < |order| ==> order[i] < b
      {
        RingPush(next, prev, order, nbuf, b);
        PushRecent(order, stamp, clock, b);
        var first := next[nbuf];
        next, prev := next[b := first][nbuf := b], prev[b := nbuf][first := b];
        order, stamp, clock := [b] + order, stamp[b := clock], clock + 1;
        b := b + 1;
      }
    }

    /** First loop of bget: follows next from the head. */
    method FindCached(dev: nat, blockno: nat) returns (b: nat)
      requires Valid()
      ensures b <= nbuf
      ensures b < nbuf ==> Cached(buf, dev, blockno, b)
      ensures b == nbuf ==> forall i: nat :: !Cached(buf, dev, blockno, i)
    {
      ghost var c := Cycle(order, nbuf);
      ghost var k := 1;
      assert next[c[0]] == c[1];
      b := next[nbuf];
      while b != nbuf
        invariant 1 <= k < |c| && b == c[k]
        invariant forall i :: 0 <= i < k - 1 ==> !Cached(buf, dev, blockno, order[i])
        decreases |c| - k
      {
        if buf[b].dev == dev && buf[b].blockno == blockno {
          return b;
        }
        assert next[c[k]] == c[k + 1];
        b := next[b];
        k := k + 1;
      }
      forall i: nat | i < nbuf
        ensures !Cached(buf, dev, blockno, i)
      {
        assert i in order;
      }
    }

    /** Second loop of bget: follows prev from the head, so it stops at the
        least recently released buffer that is idle and clean. */
    method FindVictim() returns (b: nat)
      requires Valid()
      ensures b <= nbuf
      ensures b < nbuf ==> Recyclable(buf, b) && forall i: nat :: Recyclable(buf, i) && i != b ==> stamp[i] > stamp[b]
      ensures b == nbuf ==> forall i: nat :: !Recyclable(buf, i)
    {
      ghost var c := Cycle(order, nbuf);
      ghost var k := |order|;
      assert c[k + 1] == nbuf && prev[c[k + 1]] == c[k];
      b := prev[nbuf];
      while b != nbuf
        invariant 0 <= k <= |order| && b == c[k]
        invariant forall i :: k <= i < |order| ==> !Recyclable(buf, order[i])
        decreases k
      {
        if buf[b].refcnt == 0 && !buf[b].dirty {
          forall i: nat | Recyclable(buf, i) && i != b
            ensures stamp[i] > stamp[b]
          {
            assert i in order;
          }
          return b;
        }
        assert prev[c[k]] == c[k - 1];
        b := prev[b];
        k := k - 1;
      }
      forall i: nat | i < nbuf
        ensures !Recyclable(buf, i)
      {
        assert i in order;
      }
    }

    /** bget: the buffer of a block, recycling the least recently released
        idle clean buffer when the block is not cached; fails ("no buffers")
        exactly when the block is not cached and no buffer is idle and clean.
        A buffer that another process holds is counted, and the caller waits
        for it; it goes on in Acquire. */
    method Bget(dev: nat, blockno: nat) returns (ok: bool, b: nat, waits: bool)
      requires Valid() && dev != 0
      modifies this`buf
      ensures Valid()
      ensures waits <==> ok && Cached(old(buf), dev, blockno, b) && old(buf)[b].locked
      ensures ok <==> exists i: nat :: Cached(old(buf), dev, blockno, i) || Recyclable(old(buf), i)
      ensures !ok ==> buf == old(buf)
      ensures ok ==> b < nbuf
      ensures ok && Cached(old(buf), dev, blockno, b) ==>
        buf == old(buf)[b := old(buf)[b].(refcnt := old(buf)[b].refcnt + 1, locked := true)]
      ensures ok && !Cached(old(buf), dev, blockno, b) ==>
        && buf == old(buf)[b := Buf(dev, blockno, false, false, true, 1, old(buf)[b].data)]
        && (forall i: nat :: !Cached(old(buf), dev, blockno, i))
        && Recyclable(old(buf), b)
        && (forall i: nat :: Recyclable(old(buf), i) && i != b ==> stamp[i] > stamp[b])
    {
      b := FindCached(dev, blockno);
      if b != nbuf {
        waits := buf[b].locked;
        buf := buf[b := buf[b].(refcnt := buf[b].refcnt + 1, locked := true)];
        return true, b, waits;
      }
      forall i | 0 <= i < |buf|
        ensures buf[i].dev != dev || buf[i].blockno != blockno
      {
        assert !Cached(buf, dev, blockno, i);
      }
      b := FindVictim();
      if b != nbuf {
        buf := buf[b := Buf(dev, blockno, false, false, true, 1, buf[b].data)];
        return true, b, false;
      }
      return false, 0, false;
    }

    /** The end of acquiresleep in bget, once the holder has released the
        buffer: nobody can have recycled it meanwhile. */
    method Acquire(b: nat)
      requires Valid() && b < nbuf && buf[b].refcnt > 0 && !buf[b].locked
      modifies this`buf
      ensures Valid() && buf == old(buf)[b := old(buf)[b].(locked := true)] && !Recyclable(old(buf), b)
    {
      buf := buf[b := buf[b].(locked := true)];
    }

    /** The rest of bread: reads the block unless the buffer holds it. */
    method Load(b: nat)
      requires Valid() && b < nbuf && buf[b].locked && buf[b].dev == ROOTDEV && buf[b].blockno < |disk|
      modifies this`buf
      ensures Valid() && buf == old(buf)[b := old(buf)[b].(valid := true, data := buf[b].data)]
      ensures buf[b].data == if old(buf)[b].valid then old(buf)[b].data else disk[buf[b].blockno]
    {
      if !buf[b].valid {
        buf := buf[b := buf[b].(valid := true, data := disk[buf[b].blockno])];
      }
    }

    /** bread: a locked buffer holding the contents of the block; iderw
        panics unless the block is on disk 1 and in range. A caller that has to
        wait goes on in Acquire and Load. */
    method Bread(blockno: nat) returns (ok: bool, b: nat, waits: bool)
      requires Valid() && blockno < |disk|
      modifies this`buf
      ensures Valid()
      ensures waits <==> ok && Cached(old(buf), ROOTDEV, blockno, b) && old(buf)[b].locked
      ensures ok <==> exists i: nat :: Cached(old(buf), ROOTDEV, blockno, i) || Recyclable(old(buf), i)
      ensures !ok ==> buf == old(buf)
      ensures ok ==> b < nbuf
      ensures waits ==> buf == old(buf)[b := old(buf)[b].(refcnt := old(buf)[b].refcnt + 1)]
      ensures ok && !waits ==> Fetched(old(buf), disk, blockno, b, buf)
    {
      ok, b, waits := Bget(ROOTDEV, blockno);
      if ok && !waits {
        Load(b);
      }
    }

    /** The caller of bread changes the data of a buffer it holds. */
    method Fill(b: nat, data: Block)
      requires Valid() && b < nbuf && buf[b].locked
      modifies this`buf
      ensures Valid() && buf == old(buf)[b := old(buf)[b].(data := data)]
    {
      buf := buf[b := buf[b].(data := data)];
    }

    /** log_write pins a buffer by marking it dirty. */
    method MarkDirty(b: nat)
      requires Valid() && b < nbuf && buf[b].locked && buf[b].valid
      modifies this`buf
      ensures Valid() && buf == old(buf)[b := old(buf)[b].(dirty := true)]
    {
      buf := buf[b := buf[b].(dirty := true)];
    }

    /** bwrite: the buffer reaches the disk as one atomic block write. */
    method Bwrite(b: nat)
      requires Valid() && b < nbuf && buf[b].locked && buf[b].dev == ROOTDEV && buf[b].blockno < |disk|
      modifies this`buf, this`disk, this`trace
      ensures Valid()
      ensures buf == old(buf)[b := old(buf)[b].(dirty := false, valid := true)]
      ensures disk == old(disk)[old(buf)[b].blockno := old(buf)[b].data]
      ensures trace == old(trace) + [disk]
    {
      disk := disk[buf[b].blockno := buf[b].data];
      buf := buf[b := buf[b].(dirty := false, valid := true)];
      trace := trace + [disk];
    }

    /** Unlinks a buffer from the ring and links it right behind the head. */
    method MoveToFront(b: nat)
      requires b < nbuf && |stamp| == nbuf && |next| == nbuf + 1
      requires Ring(next, prev, order, nbuf) && Covers(order, nbuf) && ByRecency(order, stamp, clock)
      modifies this`next, this`prev, this`order, this`stamp, this`clock
      ensures |next| == nbuf + 1
      ensures Ring(next, prev, order, nbuf) && Covers(order, nbuf) && ByRecency(order, stamp, clock)
      ensures |order| > 0 && order[0] == b && stamp == old(stamp)[b := old(clock)]
    {
      ghost var k := Position(order, nbuf, b);
      MoveToFrontCovers(order, nbuf, k);
      RingUnlink(next, prev, order, nbuf, k);
      next, prev := next[prev[b] := next[b]], prev[next[b] := prev[b]];
      RemoveRecent(order, stamp, clock, k);
      order := order[..k] + order[k + 1..];
      RingPush(next, prev, order, nbuf, b);
      PushRecent(order, stamp, clock, b);
      var first := next[nbuf];
      next, prev := next[b := first][nbuf := b], prev[b := nbuf][first := b];
      order, stamp, clock := [b] + order, stamp[b := clock], clock + 1;
    }

    /** brelse: unlocks; the last holder moves the buffer to the front. */
    method Brelse(b: nat)
      requires Valid() && b < nbuf && buf[b].locked
      modifies this`buf, this`next, this`prev, this`order, this`stamp, this`clock
      ensures Valid()
      ensures buf == old(buf)[b := old(buf)[b].(locked := false, refcnt := old(buf)[b].refcnt - 1)]
      ensures buf[b].refcnt == 0 ==> |order| > 0 && order[0] == b && stamp == old(stamp)[b := old(clock)]
      ensures buf[b].refcnt > 0 ==> order == old(order) && stamp == old(stamp)
    {
      buf := buf[b := buf[b].(locked := false, refcnt := buf[b].refcnt - 1)];
      if buf[b].refcnt == 0 {
        MoveToFront(b);
      }
    }
  }
}
