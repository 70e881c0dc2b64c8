/** The in-memory log: transactions gather pinned buffers, a commit moves them
    to the disk log and then home, and recovery replays a committed log. All
    disk access goes through the buffer cache. */
module Log {
  import opened Params
  import opened DiskBlocks
  import opened BufferCache
  import opened CacheView
  import opened RedoLog

  /** The cache between two operations of the log: no buffer is held, clean
      buffers agree with the disk, dirty ones are those of the transaction. */
  ghost predicate Settled(buf: seq<Buf>, disk: Disk, blocks: seq<nat>) {
    Quiet(buf) && Coherent(buf, disk) && Pinned(buf) == ToSet(blocks)
  }

  ghost function ToSet(s: seq<nat>): set<nat> {
    set x | x in s
  }

  lemma {:induction false} ToSetSize(s: seq<nat>)
    ensures |ToSet(s)| <= |s|
  {
    if s != [] {
      var t := s[..|s| - 1];
      ToSetSize(t);
      assert s == t + [s[|s| - 1]];
      assert ToSet(s) == ToSet(t) + {s[|s| - 1]};
    }
  }

  lemma RoomToFetch(buf: seq<Buf>, disk: Disk, blocks: seq<nat>, held: set<nat>)
    requires Coherent(buf, disk) && Pinned(buf) == ToSet(blocks) && |blocks| + |held| < |buf|
    requires forall i :: 0 <= i < |buf| && buf[i].refcnt > 0 ==> buf[i].dev == ROOTDEV && buf[i].blockno in held
    ensures exists i: nat :: Recyclable(buf, i)
  {
    ToSetSize(blocks);
    assert forall i :: 0 <= i < |buf| && buf[i].dirty ==> buf[i].blockno in Pinned(buf);
    SomeBufferIsFree(buf, ToSet(blocks) + held);
  }

  /** The contents of a list of blocks. */
  ghost function Gather(d: Disk, blocks: seq<nat>): (r: seq<Block>)
    requires forall i :: 0 <= i < |blocks| ==> blocks[i] < |d|
    ensures |r| == |blocks|
  {
    seq(|blocks|, i requires 0 <= i < |blocks| => d[blocks[i]])
  }

  ghost predicate Tracked(trace: seq<Disk>, g: Geometry, history: seq<Disk>, epoch: seq<nat>, disk: Disk) {
    && |history| > 0 && |trace| > 0
    && Recoverable(trace, g, history, epoch)
    && epoch[|trace| - 1] == |history| - 1
    && HomesEqual(history[|history| - 1], disk, g)
  }

  lemma AllUnpinned(buf: seq<Buf>, disk: Disk)
    requires Coherent(buf, disk) && Pinned(buf) == {}
    ensures Contents(buf, disk) == disk
  {
    forall x | 0 <= x < |disk|
      ensures Contents(buf, disk)[x] == disk[x]
    {
      UnpinnedShowsDisk(buf, disk, x);
    }
  }

  lemma RecoveryTracked(d: Disk, g: Geometry)
    requires WellFormed(d, g)
    ensures var trace := [d] + RecoveryTrace(d, g);
            Tracked(trace, g, [Recovered(d, g)], seq(|trace|, _ => 0), Recovered(d, g))
  {
    var trace := [d] + RecoveryTrace(d, g);
    forall k | 0 <= k < |trace|
      ensures RecoversTo(trace[k], g, [Recovered(d, g)], 0)
    {
      RecoveryRestarts(d, g, k);
      assert trace[k] == RecoveryPoint(d, g, k);
    }
  }

  /** Epochs of the images of a commit: old until the header is on disk. */
  ghost function CommitEpochs(n: nat, e: nat): (r: seq<nat>)
    ensures |r| == 2 * n + 2 && forall k :: 0 <= k < |r| ==> r[k] == if k < n then e else e + 1
  {
    seq(2 * n + 2, k requires 0 <= k < 2 * n + 2 => if k < n then e else e + 1)
  }

  lemma CommitImageRecovers(g: Geometry, history: seq<Disk>, d: Disk, blocks: seq<nat>, contents: seq<Block>, k: nat)
    requires |history| > 0 && HomesEqual(history[|history| - 1], d, g)
    requires Transaction(d, g, blocks, contents) && Count(d[g.start]) == 0 && k <= 2 * |blocks| + 2
    ensures RecoversTo(CommitPoint(d, g, blocks, contents, k), g, history + [Applied(d, blocks, contents)],
                       if k <= |blocks| then |history| - 1 else |history|)
  {
    CommitIsAtomic(d, g, blocks, contents, k);
  }

  lemma EpochsAppend(a: seq<nat>, b: seq<nat>)
    requires |a| > 0 && |b| > 0 && a[|a| - 1] <= b[0]
    requires forall j, k :: 0 <= j < k < |a| ==> a[j] <= a[k]
    requires forall j, k :: 0 <= j < k < |b| ==> b[j] <= b[k]
    ensures forall j, k :: 0 <= j < k < |a + b| ==> (a + b)[j] <= (a + b)[k]
  {
    forall j, k | 0 <= j < k < |a + b|
      ensures (a + b)[j] <= (a + b)[k]
    {
      if j < |a| {
        assert j < |a| - 1 ==> a[j] <= a[|a| - 1];
      }
      if k > |a| {
        assert b[0] <= b[k - |a|];
      }
    }
  }

  lemma TrackedAppend(trace: seq<Disk>, g: Geometry, history: seq<Disk>, epoch: seq<nat>, d: Disk,
                      more: seq<Disk>, epochs: seq<nat>, next: Disk, d': Disk)
    requires Tracked(trace, g, history, epoch, d)
    requires |more| == |epochs| > 0 && epochs[|more| - 1] == |history| && HomesEqual(next, d', g)
    requires forall k :: 0 <= k < |more| ==> RecoversTo(more[k], g, history + [next], epochs[k])
    requires epochs[0] >= |history| - 1
    requires forall j, k :: 0 <= j < k < |more| ==> epochs[j] <= epochs[k]
    ensures Tracked(trace + more, g, history + [next], epoch + epochs, d')
  {
    forall k | 0 <= k < |trace + more|
      ensures RecoversTo((trace + more)[k], g, history + [next], (epoch + epochs)[k])
    {
      if k < |trace| {
        assert RecoversTo(trace[k], g, history, epoch[k]);
      }
    }
    EpochsAppend(epoch, epochs);
  }

  lemma CommitImageAt(g: Geometry, history: seq<Disk>, d: Disk, blocks: seq<nat>, contents: seq<Block>, k: nat,
      image: Disk, e: nat)
    requires |history| > 0 && HomesEqual(history[|history| - 1], d, g)
    requires Transaction(d, g, blocks, contents) && Count(d[g.start]) == 0 && k < 2 * |blocks| + 2
    requires image == CommitTrace(d, g, blocks, contents)[k] && e == CommitEpochs(|blocks|, |history| - 1)[k]
    ensures RecoversTo(image, g, history + [Applied(d, blocks, contents)], e)
  {
    CommitImageRecovers(g, history, d, blocks, contents, k + 1);
  }

  lemma CommitImagesRecover(g: Geometry, history: seq<Disk>, d: Disk, blocks: seq<nat>, contents: seq<Block>)
    requires |history| > 0 && HomesEqual(history[|history| - 1], d, g)
    requires Transaction(d, g, blocks, contents) && Count(d[g.start]) == 0
    ensures var more, epochs := CommitTrace(d, g, blocks, contents), CommitEpochs(|blocks|, |history| - 1);
            forall k :: 0 <= k < |more| ==> RecoversTo(more[k], g, history + [Applied(d, blocks, contents)], epochs[k])
  {
    var more, epochs := CommitTrace(d, g, blocks, contents), CommitEpochs(|blocks|, |history| - 1);
    forall k | 0 <= k < |more|
      ensures RecoversTo(more[k], g, history + [Applied(d, blocks, contents)], epochs[k])
    {
      CommitImageAt(g, history, d, blocks, contents, k, more[k], epochs[k]);
    }
  }

  lemma CommitTracked(trace: seq<Disk>, g: Geometry, history: seq<Disk>, epoch: seq<nat>,
                      d: Disk, blocks: seq<nat>, contents: seq<Block>)
    requires Tracked(trace, g, history, epoch, d)
    requires Transaction(d, g, blocks, contents) && Count(d[g.start]) == 0
    ensures WellFormed(Committed(d, g, blocks, contents), g)
    ensures Tracked(trace + CommitTrace(d, g, blocks, contents), g, history + [Applied(d, blocks, contents)],
                    epoch + CommitEpochs(|blocks|, |history| - 1), Recovered(Committed(d, g, blocks, contents), g))
  {
    CommittedRecovers(d, g, blocks, contents);
    CommitImagesRecover(g, history, d, blocks, contents);
    TrackedAppend(trace, g, history, epoch, d, CommitTrace(d, g, blocks, contents),
                  CommitEpochs(|blocks|, |history| - 1), Applied(d, blocks, contents),
                  Recovered(Committed(d, g, blocks, contents), g));
  }

  /** Everything a commit leaves behind, as facts about disk images. */
  lemma CommitOutcome(trace: seq<Disk>, g: Geometry, history: seq<Disk>, epoch: seq<nat>, buf: seq<Buf>, d: Disk,
      blocks: seq<nat>)
    requires Tracked(trace, g, history, epoch, d) && Count(d[g.start]) == 0
    requires Coherent(buf, d) && Pinned(buf) == ToSet(blocks) && Fits(g, d) && Loggable(g, blocks, |d|)
    ensures var contents := Gather(Contents(buf, d), blocks);
            var c := Committed(d, g, blocks, contents);
            && WellFormed(c, g) && Listed(c[g.start]) == blocks
            && Fits(g, Recovered(c, g)) && Count(Recovered(c, g)[g.start]) == 0
            && HomesEqual(Recovered(c, g), Contents(buf, d), g)
            && trace + LogPoints(d, g, contents, |blocks|) + [c] + RecoveryTrace(c, g) ==
                trace + CommitTrace(d, g, blocks, contents)
            && Tracked(trace + CommitTrace(d, g, blocks, contents), g, history + [Applied(d, blocks, contents)],
                       epoch + CommitEpochs(|blocks|, |history| - 1), Recovered(c, g))
  {
    var contents := Gather(Contents(buf, d), blocks);
    var c := Committed(d, g, blocks, contents);
    CommitTracked(trace, g, history, epoch, d, blocks, contents);
    CommittedHeader(d, g, blocks, contents);
    RecoveredHeader(c, g);
    CommittedRecovers(d, g, blocks, contents);
    AppliedShows(buf, d, g, blocks);
    CommitTraceParts(d, g, blocks, contents);
    Regroup(trace, LogPoints(d, g, contents, |blocks|), [c], RecoveryTrace(c, g));
  }

  lemma Regroup(a: seq<Disk>, b: seq<Disk>, c: seq<Disk>, d: seq<Disk>)
    ensures a + b + c + d == a + (b + c + d)
  {
  }

  /** Applying the transaction to the disk gives what the cache shows. */
  lemma AppliedShows(buf: seq<Buf>, d: Disk, g: Geometry, blocks: seq<nat>)
    requires Coherent(buf, d) && Pinned(buf) == ToSet(blocks) && Fits(g, d) && Loggable(g, blocks, |d|)
    ensures Applied(d, blocks, Gather(Contents(buf, d), blocks)) == Contents(buf, d)
  {
    var shown := Contents(buf, d);
    forall x | 0 <= x < |d|
      ensures Applied(d, blocks, Gather(shown, blocks))[x] == shown[x]
    {
      AppliedAt(d, blocks, Gather(shown, blocks), x);
      if x !in blocks {
        UnpinnedShowsDisk(buf, d, x);
      }
    }
  }

  lemma LoggableAppend(g: Geometry, blocks: seq<nat>, limit: nat, x: nat)
    requires Loggable(g, blocks, limit) && x < limit && !InLog(g, x) && x !in blocks
    requires |blocks| < LOGSIZE && |blocks| < g.size - 1
    ensures Loggable(g, blocks + [x], limit)
  {
  }

  class Log {
    const bc: Bcache
    const g: Geometry
    var outstanding: nat
    var committing: bool
    var n: nat
    var block: seq<nat>
    /** The disk as of each committed transaction, oldest first. */
    ghost var history: seq<Disk>
    /** For each image in bc.trace, the snapshot that it recovers to. */
    ghost var epoch: seq<nat>

    /** initlog: boots from a well-formed image with an empty cache. */
    constructor (bc: Bcache, g: Geometry)
      requires bc.Valid() && bc.trace == [bc.disk] && WellFormed(bc.disk, g)
      requires Settled(bc.buf, bc.disk, []) && g.size <= bc.nbuf && 2 <= bc.nbuf
      modifies bc
      ensures this.bc == bc && this.g == g && outstanding == 0 && !committing && n == 0
      ensures Valid() && Shown() == bc.disk
      ensures bc.disk == Recovered(old(bc.disk), g)
      ensures bc.trace == [old(bc.disk)] + RecoveryTrace(old(bc.disk), g)
      ensures history == [bc.disk]
    {
      this.bc, this.g := bc, g;
      outstanding, committing, n, block := 0, false, 0, seq(LOGSIZE, _ => 0);
      new;
      Recover();
    }

    ghost predicate Ready()
      reads this, bc
    {
      && bc.Valid() && Fits(g, bc.disk) && g.size <= bc.nbuf && 2 <= bc.nbuf
      && n <= |block| == LOGSIZE
    }

    /** bread where a buffer is known to be available. */
    method Get(blk: nat, ghost pinned: seq<nat>, ghost held: set<nat>) returns (b: nat)
      requires bc.Valid() && Coherent(bc.buf, bc.disk) && blk < |bc.disk| && blk !in held
      requires forall i :: 0 <= i < |bc.buf| && bc.buf[i].refcnt > 0 ==>
          bc.buf[i].dev == ROOTDEV && bc.buf[i].blockno in held
      requires Pinned(bc.buf) == ToSet(pinned) && (blk in pinned || |pinned| + |held| < bc.nbuf)
      modifies bc`buf
      ensures bc.Valid() && Coherent(bc.buf, bc.disk)
      ensures b < bc.nbuf && bc.buf == old(bc.buf)[b := bc.buf[b]] && old(bc.buf)[b].refcnt == 0
      ensures Held(bc.buf, blk, b) && bc.buf[b].locked && bc.buf[b].refcnt == 1
      ensures bc.buf[b].data == old(Contents(bc.buf, bc.disk)[blk])
      ensures Contents(bc.buf, bc.disk) == old(Contents(bc.buf, bc.disk)) && Pinned(bc.buf) == old(Pinned(bc.buf))
    {
      var ok;
      if blk in pinned {
        PinnedIffDirty(bc.buf);
        assert Dirty(bc.buf, blk);
      } else {
        RoomToFetch(bc.buf, bc.disk, pinned, held);
      }
      var waits;
      ok, b, waits := bc.Bread(blk);
      assert ok && !waits;
      FetchKeepsView(old(bc.buf), bc.disk, blk, b, bc.buf);
    }

    /** Buffers of two blocks, asked for in the order first, second. */
    method GetTwo(first: nat, second: nat, ghost pinned: seq<nat>) returns (a: nat, b: nat)
      requires Ready() && Settled(bc.buf, bc.disk, pinned)
      requires first != second && first < |bc.disk| && second < |bc.disk|
      requires |pinned| < bc.nbuf && (second in pinned || |pinned| + 1 < bc.nbuf)
      modifies bc`buf
      ensures Ready() && Coherent(bc.buf, bc.disk)
      ensures a < bc.nbuf && b < bc.nbuf && a != b
      ensures Held(bc.buf, first, a) && bc.buf[a].locked && bc.buf[a].data == old(Contents(bc.buf, bc.disk)[first])
      ensures Held(bc.buf, second, b) && bc.buf[b].locked
      ensures forall i :: 0 <= i < |bc.buf| ==> bc.buf[i].refcnt == if i == a || i == b then 1 else 0
      ensures Contents(bc.buf, bc.disk) == old(Contents(bc.buf, bc.disk)) && Pinned(bc.buf) == old(Pinned(bc.buf))
      ensures bc.buf[b].data == old(Contents(bc.buf, bc.disk)[second])
    {
      a := Get(first, pinned, {});
      b := Get(second, pinned, {first});
    }

    /** bwrite of a held buffer with new data. */
    method Put(blk: nat, b: nat, data: Block)
      requires bc.Valid() && Coherent(bc.buf, bc.disk) && blk < |bc.disk| && b < bc.nbuf
      requires Held(bc.buf, blk, b) && bc.buf[b].locked
      modifies bc`buf, bc`disk, bc`trace
      ensures bc.Valid() && bc.buf == old(bc.buf)[b := bc.buf[b]] && bc.buf[b].locked
          && bc.buf[b].refcnt == old(bc.buf)[b].refcnt
      ensures bc.disk == old(bc.disk)[blk := data] && bc.trace == old(bc.trace) + [bc.disk]
      ensures Coherent(bc.buf, bc.disk)
      ensures Contents(bc.buf, bc.disk) == old(Contents(bc.buf, bc.disk))[blk := data]
      ensures Pinned(bc.buf) == old(Pinned(bc.buf)) - {blk}
    {
      bc.Fill(b, data);
      bc.Bwrite(b);
      StoreChangesView(old(bc.buf), old(bc.disk), blk, b, data, false);
      assert bc.buf == old(bc.buf)[b := old(bc.buf)[b].(data := data, dirty := false)];
    }

    method Release(b: nat)
      requires bc.Valid() && Coherent(bc.buf, bc.disk) && b < bc.nbuf && bc.buf[b].locked
      modifies bc`buf, bc`next, bc`prev, bc`order, bc`stamp, bc`clock
      ensures bc.Valid() && Coherent(bc.buf, bc.disk)
      ensures bc.buf == old(bc.buf)[b := old(bc.buf)[b].(locked := false, refcnt := old(bc.buf)[b].refcnt - 1)]
      ensures Contents(bc.buf, bc.disk) == old(Contents(bc.buf, bc.disk)) && Pinned(bc.buf) == old(Pinned(bc.buf))
    {
      bc.Brelse(b);
      ReleaseKeepsView(old(bc.buf), bc.disk, b, bc.buf);
    }

    /** memmove between two held buffers, bwrite of the target, two releases. */
    method Transfer(src: nat, dst: nat, s: nat, d: nat)
      requires Ready() && Coherent(bc.buf, bc.disk) && src < |bc.disk| && dst < |bc.disk|
      requires s < bc.nbuf && d < bc.nbuf && s != d && bc.buf[s].locked && bc.buf[d].locked && Held(bc.buf, dst, d)
      requires forall i :: 0 <= i < |bc.buf| ==> bc.buf[i].refcnt == if i == s || i == d then 1 else 0
      requires bc.buf[s].data == Contents(bc.buf, bc.disk)[src]
      modifies bc
      ensures Ready() && Quiet(bc.buf) && Coherent(bc.buf, bc.disk)
      ensures bc.disk == old(bc.disk)[dst := old(Contents(bc.buf, bc.disk)[src])]
      ensures bc.trace == old(bc.trace) + [bc.disk]
      ensures Contents(bc.buf, bc.disk) == old(Contents(bc.buf, bc.disk))[dst := old(Contents(bc.buf, bc.disk)[src])]
      ensures Pinned(bc.buf) == old(Pinned(bc.buf)) - {dst}
    {
      Put(dst, d, bc.buf[s].data);
      Release(s);
      Release(d);
    }

    ghost function Shown(): (r: Disk)
      reads bc
    {
      Contents(bc.buf, bc.disk)
    }

    /** An iteration of write_log: a pinned block goes to a log block. */
    method CopyToLog(src: nat, dst: nat, ghost pinned: seq<nat>)
      requires Ready() && Settled(bc.buf, bc.disk, pinned) && |pinned| < bc.nbuf
      requires src < |bc.disk| && dst < |bc.disk| && src in pinned && dst !in pinned
      modifies bc
      ensures Ready() && Settled(bc.buf, bc.disk, pinned)
      ensures bc.disk == old(bc.disk)[dst := old(Shown()[src])] && bc.trace == old(bc.trace) + [bc.disk]
      ensures Shown() == old(Shown())[dst := old(Shown()[src])]
    {
      var d, s := GetTwo(dst, src, pinned);
      Transfer(src, dst, s, d);
      assert Pinned(bc.buf) == ToSet(pinned);
    }

    /** An iteration of install_trans: a log block goes to its home block. */
    method CopyHome(src: nat, dst: nat, ghost pinned: seq<nat>)
      requires Ready() && Settled(bc.buf, bc.disk, pinned) && |pinned| < bc.nbuf
      requires src < |bc.disk| && dst < |bc.disk| && src != dst
      requires if pinned == [] then true else pinned[0] == dst && dst !in pinned[1..]
      modifies bc
      ensures Ready() && Settled(bc.buf, bc.disk, if pinned == [] then [] else pinned[1..])
      ensures bc.disk == old(bc.disk)[dst := old(Shown()[src])] && bc.trace == old(bc.trace) + [bc.disk]
      ensures Shown() == old(Shown())[dst := old(Shown()[src])]
    {
      var s, d := GetTwo(src, dst, pinned);
      Transfer(src, dst, s, d);
      assert pinned != [] ==> ToSet(pinned) - {dst} == ToSet(pinned[1..]);
    }

    ghost function Blocks(): (r: seq<nat>)
      requires n <= |block|
      reads this
    {
      block[..n]
    }

    /** The state after k iterations of write_log that started from the
        images d (disk), shown (cache) and trace t. */
    ghost predicate LogWritten(k: nat, d: Disk, shown: Disk, t: seq<Disk>, contents: seq<Block>)
      requires Fits(g, d) && |shown| == |d| && |contents| < g.size && k <= |contents|
      reads this, bc
    {
      && Ready() && Settled(bc.buf, bc.disk, Blocks())
      && bc.disk == Logged(d, g, contents, k)
      && bc.trace == t + LogPoints(d, g, contents, k)
      && Shown() == Logged(shown, g, contents, k)
    }

    method WriteLogEntry(tail: nat, ghost d: Disk, ghost shown: Disk, ghost t: seq<Disk>)
      requires Fits(g, d) && |shown| == |d| && n <= |block| && Loggable(g, Blocks(), |d|) && tail < n
      requires LogWritten(tail, d, shown, t, Gather(shown, Blocks()))
      modifies bc
      ensures LogWritten(tail + 1, d, shown, t, Gather(shown, Blocks()))
    {
      ghost var blocks := Blocks();
      LoggedAt(shown, g, Gather(shown, blocks), tail, block[tail]);
      assert block[tail] == blocks[tail];
      CopyToLog(block[tail], g.start + tail + 1, blocks);
    }

    /** write_log: copies the pinned blocks to the disk log. */
    method WriteLog()
      requires Ready() && Loggable(g, Blocks(), |bc.disk|) && Settled(bc.buf, bc.disk, Blocks())
      modifies bc
      ensures LogWritten(n, old(bc.disk), old(Shown()), old(bc.trace), Gather(old(Shown()), Blocks()))
    {
      var tail := 0;
      while tail < n
        invariant 0 <= tail <= n
        invariant LogWritten(tail, old(bc.disk), old(Shown()), old(bc.trace), Gather(old(Shown()), Blocks()))
      {
        WriteLogEntry(tail, old(bc.disk), old(Shown()), old(bc.trace));
        tail := tail + 1;
      }
    }

    /** The loop of write_head over the header block. */
    method EncodeHead(h0: Block) returns (h: Block)
      requires n <= |block| == LOGSIZE && forall i :: 0 <= i < n ==> block[i] < 0x1_0000_0000
      ensures h == WithEntries(h0, Blocks(), n)
    {
      h := h0[0 := n];
      var i := 0;
      while i < n
        invariant 0 <= i <= n && h == WithEntries(h0, Blocks(), i)
      {
        h := h[i + 1 := block[i]];
        i := i + 1;
      }
    }

    /** write_head: the in-memory header becomes the header on disk. */
    method WriteHead(ghost pinned: seq<nat>)
      requires Ready() && Settled(bc.buf, bc.disk, pinned) && |pinned| < bc.nbuf && g.start !in pinned
      requires forall i :: 0 <= i < n ==> block[i] < 0x1_0000_0000
      modifies bc
      ensures Ready() && Settled(bc.buf, bc.disk, pinned)
      ensures bc.disk == old(bc.disk)[g.start := WithEntries(old(bc.disk)[g.start], Blocks(), n)]
      ensures bc.trace == old(bc.trace) + [bc.disk]
    {
      var b := Get(g.start, pinned, {});
      UnpinnedShowsDisk(old(bc.buf), bc.disk, g.start);
      var h := EncodeHead(bc.buf[b].data);
      Put(g.start, b, h);
      Release(b);
      assert ToSet(pinned) - {g.start} == ToSet(pinned);
    }

    /** The blocks still pinned after k iterations of install_trans. */
    ghost function StillPinned(pinned: seq<nat>, k: nat): (r: seq<nat>) {
      if k <= |pinned| then pinned[k..] else []
    }

    /** The state after k iterations of install_trans that started from the
        image d and trace t with the given blocks pinned. */
    ghost predicate InstalledUpTo(k: nat, d: Disk, t: seq<Disk>, pinned: seq<nat>)
      requires Fits(g, d) && n <= |block| && Loggable(g, Blocks(), |d|) && k <= n
      reads this, bc
    {
      && Ready() && Settled(bc.buf, bc.disk, StillPinned(pinned, k))
      && bc.disk == Installed(d, g, Blocks(), k)
      && bc.trace == t + InstallPoints(d, g, Blocks(), k)
    }

    method InstallEntry(tail: nat, ghost d: Disk, ghost t: seq<Disk>, ghost pinned: seq<nat>)
      requires Fits(g, d) && n <= |block| && Loggable(g, Blocks(), |d|) && tail < n
      requires pinned == [] || pinned == Blocks()
      requires InstalledUpTo(tail, d, t, pinned)
      modifies bc
      ensures InstalledUpTo(tail + 1, d, t, pinned)
    {
      ghost var rest := StillPinned(pinned, tail);
      assert block[tail] == Blocks()[tail];
      UnpinnedShowsDisk(bc.buf, bc.disk, g.start + tail + 1);
      CopyHome(g.start + tail + 1, block[tail], rest);
    }

    /** install_trans: copies the logged blocks to their home locations,
        which also unpins them. */
    method InstallTrans(ghost pinned: seq<nat>)
      requires Ready() && Loggable(g, Blocks(), |bc.disk|) && Settled(bc.buf, bc.disk, pinned)
      requires pinned == [] || pinned == Blocks()
      modifies bc
      ensures InstalledUpTo(n, old(bc.disk), old(bc.trace), pinned)
    {
      var tail := 0;
      while tail < n
        invariant 0 <= tail <= n && InstalledUpTo(tail, old(bc.disk), old(bc.trace), pinned)
      {
        InstallEntry(tail, old(bc.disk), old(bc.trace), pinned);
        tail := tail + 1;
      }
    }

    ghost predicate Valid()
      reads this, bc
    {
      && Ready() && Loggable(g, Blocks(), |bc.disk|) && Settled(bc.buf, bc.disk, Blocks())
      && Count(bc.disk[g.start]) == 0
      && Tracked(bc.trace, g, history, epoch, bc.disk)
    }

    /** Crash safety: a crash at any disk write since the boot, followed by any
        number of recoveries cut short, brings back a committed snapshot, and
        a later crash never an older one. */
    lemma CrashSafe(k: nat, ds: seq<Disk>, l: nat)
      requires Valid() && k < |bc.trace| && CrashChain(ds, g) && ds[0] == bc.trace[k]
      ensures |epoch| == |bc.trace| && RecoversTo(ds[|ds| - 1], g, history, epoch[k])
      ensures k <= l < |bc.trace| ==> epoch[k] <= epoch[l]
    {
      CrashAnywhere(bc.trace, g, history, epoch, k, ds);
    }

    /** Durability: a crash between commits brings back the last one in full,
        and nothing of the operations still under way. */
    lemma CrashNow(ds: seq<Disk>)
      requires Valid() && CrashChain(ds, g) && ds[0] == bc.disk
      ensures WellFormed(ds[|ds| - 1], g) && HomesEqual(Recovered(ds[|ds| - 1], g), history[|history| - 1], g)
    {
      CrashChainOutcome(ds, g);
      EmptyLogRecovers(bc.disk, g);
    }

    /** recover_from_log, run on an empty cache by initlog. */
    method Recover()
      requires Ready() && Settled(bc.buf, bc.disk, []) && WellFormed(bc.disk, g) && bc.trace == [bc.disk]
      modifies this`n, this`block, this`history, this`epoch, bc
      ensures Valid() && n == 0 && Shown() == bc.disk
      ensures bc.disk == Recovered(old(bc.disk), g)
      ensures bc.trace == [old(bc.disk)] + RecoveryTrace(old(bc.disk), g)
      ensures history == [bc.disk]
    {
      ghost var d := bc.disk;
      ReadHead();
      Replay([]);
      RecoveredHeader(d, g);
      history, epoch := [bc.disk], seq(|bc.trace|, _ => 0);
      RecoveryTracked(d, g);
    }

    /** read_head: the header on disk becomes the in-memory header. */
    method ReadHead()
      requires Ready() && Settled(bc.buf, bc.disk, []) && WellFormed(bc.disk, g)
      modifies this`n, this`block, bc
      ensures Ready() && Settled(bc.buf, bc.disk, []) && bc.disk == old(bc.disk) && bc.trace == old(bc.trace)
      ensures Blocks() == Listed(bc.disk[g.start])
    {
      var b := Get(g.start, [], {});
      UnpinnedShowsDisk(old(bc.buf), bc.disk, g.start);
      DecodeHead(bc.buf[b].data);
      Release(b);
    }

    /** The loop of read_head over the header block. */
    method DecodeHead(h: Block)
      requires |block| == LOGSIZE && Count(h) <= LOGSIZE
      modifies this`n, this`block
      ensures n <= |block| == LOGSIZE && Blocks() == Listed(h)
    {
      n := h[0];
      var i := 0;
      while i < n
        invariant 0 <= i <= n == h[0] && |block| == LOGSIZE
        invariant forall j :: 0 <= j < i ==> block[j] == h[j + 1]
      {
        block := block[i := h[i + 1]];
        i := i + 1;
      }
    }

    /** The first half of commit: after it the transaction is durable. */
    method PersistLog()
      requires Ready() && Loggable(g, Blocks(), |bc.disk|) && Settled(bc.buf, bc.disk, Blocks())
      modifies bc
      ensures Ready() && Settled(bc.buf, bc.disk, Blocks())
      ensures var contents := Gather(old(Shown()), Blocks());
              && Transaction(old(bc.disk), g, Blocks(), contents)
              && bc.disk == Committed(old(bc.disk), g, Blocks(), contents)
              && bc.trace == old(bc.trace) + LogPoints(old(bc.disk), g, contents, n) + [bc.disk]
    {
      WriteLog();
      LoggedAt(old(bc.disk), g, Gather(old(Shown()), Blocks()), n, g.start);
      WriteHead(Blocks());
    }

    /** commit: afterwards nothing is pinned, the disk equals what the cache
        shows, and every image on the way recovers to the disk before or after
        the transaction. Readers see no change. */
    method Commit()
      requires Valid()
      modifies this`n, this`history, this`epoch, bc
      ensures Valid() && n == 0 && Shown() == bc.disk
      ensures HomesEqual(bc.disk, old(Shown()), g)
      ensures old(n) == 0 ==> bc.trace == old(bc.trace) && history == old(history)
      ensures old(n) > 0 ==>
        var contents := Gather(old(Shown()), old(Blocks()));
        && bc.trace == old(bc.trace) + CommitTrace(old(bc.disk), g, old(Blocks()), contents)
        && history == old(history) + [Applied(old(bc.disk), old(Blocks()), contents)]
    {
      if n > 0 {
        CommitLogged();
      } else {
        AllUnpinned(bc.buf, bc.disk);
      }
    }

    /** The body of commit, for a log that is not empty. */
    method CommitLogged()
      requires Valid()
      modifies this`n, this`history, this`epoch, bc
      ensures Valid() && n == 0 && Shown() == bc.disk
      ensures HomesEqual(bc.disk, old(Shown()), g)
      ensures var contents := Gather(old(Shown()), old(Blocks()));
              && bc.trace == old(bc.trace) + CommitTrace(old(bc.disk), g, old(Blocks()), contents)
              && history == old(history) + [Applied(old(bc.disk), old(Blocks()), contents)]
    {
      ghost var d, blocks, contents := bc.disk, Blocks(), Gather(Shown(), Blocks());
      ghost var trace, c := bc.trace + CommitTrace(d, g, blocks, contents), Committed(d, g, blocks, contents);
      CommitOutcome(bc.trace, g, history, epoch, bc.buf, d, blocks);
      epoch := epoch + CommitEpochs(|blocks|, |history| - 1);
      history := history + [Applied(d, blocks, contents)];
      ghost var tracked := Tracked(trace, g, history, epoch, Recovered(c, g));
      assert tracked;
      PersistAndReplay(d, blocks, contents);
      CleanIsValid(trace, Recovered(c, g));
    }

    /** A clean log on a tracked disk. */
    lemma CleanIsValid(trace: seq<Disk>, d: Disk)
      requires Ready() && n == 0 && Settled(bc.buf, bc.disk, [])
      requires bc.trace == trace && bc.disk == d && Count(d[g.start]) == 0 && Tracked(trace, g, history, epoch, d)
      ensures Valid()
    {
      assert Blocks() == [];
    }

    method PersistAndReplay(ghost d: Disk, ghost blocks: seq<nat>, ghost contents: seq<Block>)
      requires Ready() && Loggable(g, Blocks(), |bc.disk|) && Settled(bc.buf, bc.disk, Blocks())
          && Count(bc.disk[g.start]) == 0
      requires d == bc.disk && blocks == Blocks() && contents == Gather(Shown(), blocks)
      modifies this`n, bc
      ensures Ready() && n == 0 && Settled(bc.buf, bc.disk, []) && Shown() == bc.disk
      ensures Transaction(d, g, blocks, contents) && WellFormed(Committed(d, g, blocks, contents), g)
      ensures bc.disk == Recovered(Committed(d, g, blocks, contents), g)
      ensures bc.trace == old(bc.trace) + CommitTrace(d, g, blocks, contents)
    {
      CommitTraceParts(d, g, blocks, contents);
      CommittedHeader(d, g, blocks, contents);
      PersistLog();
      Replay(blocks);
    }

    /** Installs what the header on disk lists and clears it: the second half
        of commit, and all of recovery after read_head. */
    method Replay(ghost pinned: seq<nat>)
      requires Ready() && WellFormed(bc.disk, g) && Blocks() == Listed(bc.disk[g.start])
      requires Settled(bc.buf, bc.disk, pinned) && (pinned == [] || pinned == Blocks())
      modifies this`n, bc
      ensures Ready() && n == 0 && Settled(bc.buf, bc.disk, []) && Shown() == bc.disk
      ensures bc.disk == Recovered(old(bc.disk), g)
      ensures bc.trace == old(bc.trace) + RecoveryTrace(old(bc.disk), g)
    {
      ghost var d := bc.disk;
      InstallTrans(pinned);
      assert bc.disk[g.start] == d[g.start] by {
        InstalledKeepsLog(d, g, Blocks(), n);
      }
      n := 0;
      WriteHead([]);
      RecoveryTraceParts(d, g);
      AllUnpinned(bc.buf, bc.disk);
    }

    /** log_write: records the block of a held buffer and pins the buffer.
        Fails ("too big a transaction", "outside of trans") exactly under the
        source's guards, which run before absorption: a full log refuses even
        a block that is already recorded. */
    method LogWrite(b: nat) returns (ok: bool)
      requires bc.Valid() && n <= |block| == LOGSIZE && b < bc.nbuf && bc.buf[b].locked && bc.buf[b].valid
      modifies this`n, this`block, bc`buf
      ensures bc.Valid() && n <= |block| == LOGSIZE
      ensures ok <==> old(n) < LOGSIZE && old(n) < g.size - 1 && outstanding >= 1
      ensures !ok ==> n == old(n) && block == old(block) && bc.buf == old(bc.buf)
      ensures ok ==> bc.buf == old(bc.buf)[b := old(bc.buf)[b].(dirty := true)]
      ensures ok ==> var x := bc.buf[b].blockno;
        Blocks() == if x in old(Blocks()) then old(Blocks()) else old(Blocks()) + [x]
    {
      if n >= LOGSIZE || n >= g.size - 1 || outstanding < 1 {
        return false;
      }
      var i := 0;
      while i < n && block[i] != bc.buf[b].blockno
        invariant 0 <= i <= n && forall j :: 0 <= j < i ==> block[j] != bc.buf[b].blockno
      {
        i := i + 1;
      }
      block := block[i := bc.buf[b].blockno];
      if i == n {
        n := n + 1;
      }
      bc.MarkDirty(b);
      return true;
    }

    /** The use of the log that fs.c makes: bread, change the data, log_write,
        brelse. Readers see the new contents at once, while the disk keeps the
        old ones until the commit (no-steal). */
    method Update(blk: nat, data: Block) returns (ok: bool)
      requires Valid() && blk < |bc.disk| && !InLog(g, blk)
      modifies this`n, this`block, bc
      ensures ok <==> old(n) < LOGSIZE && old(n) < g.size - 1 && outstanding >= 1
      ensures bc.disk == old(bc.disk) && bc.trace == old(bc.trace)
      ensures ok ==> Valid() && Shown() == old(Shown())[blk := data]
      ensures ok && blk in old(Blocks()) ==> Blocks() == old(Blocks())
      ensures ok && blk !in old(Blocks()) ==> Blocks() == old(Blocks()) + [blk]
    {
      if n < LOGSIZE && n < g.size - 1 && blk !in Blocks() {
        LoggableAppend(g, Blocks(), |bc.disk|, blk);
      }
      var b := Get(blk, Blocks(), {});
      ok := StoreAndRelease(blk, b, data);
    }

    /** The part of Update from the held buffer on. */
    method StoreAndRelease(blk: nat, b: nat, data: Block) returns (ok: bool)
      requires Ready() && Coherent(bc.buf, bc.disk) && Pinned(bc.buf) == ToSet(Blocks())
      requires blk < |bc.disk| && b < bc.nbuf && Held(bc.buf, blk, b) && bc.buf[b].locked && bc.buf[b].refcnt == 1
      requires forall i :: 0 <= i < |bc.buf| && i != b ==> bc.buf[i].refcnt == 0
      modifies this`n, this`block, bc`buf, bc`next, bc`prev, bc`order, bc`stamp, bc`clock
      ensures ok <==> old(n) < LOGSIZE && old(n) < g.size - 1 && outstanding >= 1
      ensures ok ==> Ready() && Settled(bc.buf, bc.disk, Blocks()) && Shown() == old(Shown())[blk := data]
      ensures ok && blk in old(Blocks()) ==> Blocks() == old(Blocks())
      ensures ok && blk !in old(Blocks()) ==> Blocks() == old(Blocks()) + [blk]
    {
      ok := StoreAndLog(blk, b, data);
      if ok {
        Release(b);
      }
    }

    method StoreAndLog(blk: nat, b: nat, data: Block) returns (ok: bool)
      requires Ready() && Coherent(bc.buf, bc.disk) && Pinned(bc.buf) == ToSet(Blocks())
      requires blk < |bc.disk| && b < bc.nbuf && Held(bc.buf, blk, b) && bc.buf[b].locked
      modifies this`n, this`block, bc`buf
      ensures ok <==> old(n) < LOGSIZE && old(n) < g.size - 1 && outstanding >= 1
      ensures ok ==> Ready() && Coherent(bc.buf, bc.disk) && Pinned(bc.buf) == ToSet(Blocks())
      ensures ok ==> Shown() == old(Shown())[blk := data]
      ensures ok ==>
          bc.buf == old(bc.buf)[b := bc.buf[b]] && bc.buf[b].locked && bc.buf[b].refcnt == old(bc.buf)[b].refcnt
      ensures ok && blk in old(Blocks()) ==> Blocks() == old(Blocks())
      ensures ok && blk !in old(Blocks()) ==> Blocks() == old(Blocks()) + [blk]
    {
      bc.Fill(b, data);
      ok := LogWrite(b);
      if ok {
        assert bc.buf == old(bc.buf)[b := old(bc.buf)[b].(data := data, dirty := true)];
        StoreChangesView(old(bc.buf), bc.disk, blk, b, data, true);
        assert ToSet(Blocks()) == ToSet(old(Blocks())) + {blk};
      }
    }

    /** One turn of the loop of begin_op: an operation is admitted unless a
        commit is under way or the active operations could not all still log
        MAXOPBLOCKS blocks; otherwise the caller sleeps and tries again. */
    method BeginOp() returns (admitted: bool)
      modifies this`outstanding
      ensures admitted <==> !committing && n + (old(outstanding) + 1) * MAXOPBLOCKS <= LOGSIZE
      ensures outstanding == if admitted then old(outstanding) + 1 else old(outstanding)
    {
      if committing {
        return false;
      }
      if n + (outstanding + 1) * MAXOPBLOCKS > LOGSIZE {
        return false;
      }
      outstanding := outstanding + 1;
      return true;
    }

    /** end_op: the last operation commits. */
    method EndOp()
      requires Valid() && outstanding > 0 && !committing
      modifies this`outstanding, this`committing, this`n, this`history, this`epoch, bc
      ensures Valid() && outstanding == old(outstanding) - 1 && !committing
      ensures outstanding > 0 ==>
          n == old(n) && bc.disk == old(bc.disk) && Shown() == old(Shown()) && history == old(history)
      ensures outstanding == 0 ==> n == 0 && Shown() == bc.disk && HomesEqual(bc.disk, old(Shown()), g)
    {
      outstanding := outstanding - 1;
      if outstanding == 0 {
        committing := true;
        Commit();
        committing := false;
      }
    }
  }
}
