/** The on-disk redo log as pure functions of a disk image: the images that a
    commit and a recovery pass through, and what recovery makes of each. */
module RedoLog {
  import opened Params
  import opened DiskBlocks

  type Disk = seq<Block>

  /** Where the log lives: a header at start, then size - 1 log blocks. */
  datatype Geometry = Geometry(start: nat, size: nat)

  predicate InLog(g: Geometry, b: int) {
    g.start <= b < g.start + g.size
  }

  ghost predicate Fits(g: Geometry, d: Disk) {
    g.size > 0 && g.start + g.size <= |d| < 0x1_0000_0000
  }

  /** A list of block numbers a transaction may carry. */
  ghost predicate Loggable(g: Geometry, blocks: seq<nat>, limit: nat) {
    && |blocks| <= LOGSIZE && |blocks| < g.size
    && (forall i :: 0 <= i < |blocks| ==> blocks[i] < limit && !InLog(g, blocks[i]))
    && (forall i, j :: 0 <= i < j < |blocks| ==> blocks[i] != blocks[j])
  }

  function Count(h: Block): uint32 {
    h[0]
  }

  /** The block numbers listed in a header that counts at most LOGSIZE. */
  function Listed(h: Block): (blocks: seq<nat>)
    requires Count(h) <= LOGSIZE
    ensures |blocks| == Count(h)
  {
    seq(Count(h), i requires 0 <= i < Count(h) => h[1 + i] as nat)
  }

  ghost predicate WellFormed(d: Disk, g: Geometry) {
    Fits(g, d) && Count(d[g.start]) <= LOGSIZE && Loggable(g, Listed(d[g.start]), |d|)
  }

  /** The header block after write_head has stored the first k entries. */
  function WithEntries(h: Block, blocks: seq<nat>, k: nat): (r: Block)
    requires k <= |blocks| <= LOGSIZE && forall i :: 0 <= i < |blocks| ==> blocks[i] < 0x1_0000_0000
  {
    if k == 0 then h[0 := |blocks|] else WithEntries(h, blocks, k - 1)[k := blocks[k - 1]]
  }

  lemma {:induction false} WithEntriesAt(h: Block, blocks: seq<nat>, k: nat, j: nat)
    requires k <= |blocks| <= LOGSIZE && j < WORDS_PER_BLOCK
    requires forall i :: 0 <= i < |blocks| ==> blocks[i] < 0x1_0000_0000
    ensures WithEntries(h, blocks, k)[j] == if j == 0 then |blocks| else if j <= k then blocks[j - 1] else h[j]
  {
    if k > 0 {
      WithEntriesAt(h, blocks, k - 1, j);
    }
  }

  lemma HeaderRoundTrip(h: Block, blocks: seq<nat>)
    requires |blocks| <= LOGSIZE && forall i :: 0 <= i < |blocks| ==> blocks[i] < 0x1_0000_0000
    ensures Count(WithEntries(h, blocks, |blocks|)) == |blocks|
    ensures Listed(WithEntries(h, blocks, |blocks|)) == blocks
  {
    var r := WithEntries(h, blocks, |blocks|);
    WithEntriesAt(h, blocks, |blocks|, 0);
    forall i | 0 <= i < |blocks|
      ensures Listed(r)[i] == blocks[i]
    {
      WithEntriesAt(h, blocks, |blocks|, 1 + i);
    }
  }

  /** The image after install_trans has copied the first k log blocks home. */
  function Installed(d: Disk, g: Geometry, blocks: seq<nat>, k: nat): (r: Disk)
    requires Fits(g, d) && Loggable(g, blocks, |d|) && k <= |blocks|
    ensures |r| == |d|
  {
    if k == 0 then d
    else
      var e := Installed(d, g, blocks, k - 1);
      e[blocks[k - 1] := e[g.start + k]]
  }

  lemma {:induction false} InstalledAt(d: Disk, g: Geometry, blocks: seq<nat>, k: nat, b: nat)
    requires Fits(g, d) && Loggable(g, blocks, |d|) && k <= |blocks| && b < |d|
    ensures b !in blocks[..k] ==> Installed(d, g, blocks, k)[b] == d[b]
    ensures forall i :: 0 <= i < k && blocks[i] == b ==> Installed(d, g, blocks, k)[b] == d[g.start + 1 + i]
  {
    if k > 0 {
      InstalledAt(d, g, blocks, k - 1, b);
      InstalledAt(d, g, blocks, k - 1, g.start + k);
      assert blocks[..k] == blocks[..k - 1] + [blocks[k - 1]];
    }
  }

  /** recover_from_log: installs what the header lists and clears the header. */
  function Recovered(d: Disk, g: Geometry): (r: Disk)
    requires WellFormed(d, g)
    ensures |r| == |d|
  {
    var blocks := Listed(d[g.start]);
    Installed(d, g, blocks, |blocks|)[g.start := Cleared(d[g.start])]
  }

  /** The image after k block writes of a recovery from d. */
  function RecoveryPoint(d: Disk, g: Geometry, k: nat): (r: Disk)
    requires WellFormed(d, g) && k <= Count(d[g.start]) + 1
    ensures |r| == |d|
  {
    if k <= Count(d[g.start]) then Installed(d, g, Listed(d[g.start]), k) else Recovered(d, g)
  }

  /** Two images agree on every block outside the log. */
  ghost predicate HomesEqual(d: Disk, e: Disk, g: Geometry) {
    |d| == |e| && forall b :: 0 <= b < |d| && !InLog(g, b) ==> d[b] == e[b]
  }

  ghost predicate LogSame(d: Disk, e: Disk, g: Geometry)
    requires Fits(g, d)
  {
    |d| == |e| && forall b :: InLog(g, b) ==> d[b] == e[b]
  }

  lemma InstalledKeepsLog(d: Disk, g: Geometry, blocks: seq<nat>, k: nat)
    requires Fits(g, d) && Loggable(g, blocks, |d|) && k <= |blocks|
    ensures LogSame(d, Installed(d, g, blocks, k), g)
  {
    forall b | InLog(g, b)
      ensures d[b] == Installed(d, g, blocks, k)[b]
    {
      InstalledAt(d, g, blocks, k, b);
    }
  }

  /** Installing again from an image that was partly installed changes nothing. */
  lemma InstallAgain(d: Disk, g: Geometry, blocks: seq<nat>, k: nat)
    requires Fits(g, d) && Loggable(g, blocks, |d|) && k <= |blocks|
    ensures Installed(Installed(d, g, blocks, k), g, blocks, |blocks|) == Installed(d, g, blocks, |blocks|)
  {
    var e := Installed(d, g, blocks, k);
    var n := |blocks|;
    InstalledKeepsLog(d, g, blocks, k);
    forall b | 0 <= b < |d|
      ensures Installed(e, g, blocks, n)[b] == Installed(d, g, blocks, n)[b]
    {
      InstalledAt(d, g, blocks, n, b);
      InstalledAt(e, g, blocks, n, b);
      InstalledAt(d, g, blocks, k, b);
    }
  }

  function Cleared(h: Block): (r: Block)
    ensures Count(r) == 0
  {
    h[0 := 0]
  }

  lemma RecoveredAt(d: Disk, g: Geometry, b: nat)
    requires WellFormed(d, g) && b < |d|
    ensures Recovered(d, g)[b] ==
      if b == g.start then Cleared(d[b]) else Installed(d, g, Listed(d[g.start]), Count(d[g.start]))[b]
  {
  }

  lemma RecoveredHeader(d: Disk, g: Geometry)
    requires WellFormed(d, g)
    ensures Fits(g, Recovered(d, g)) && Count(Recovered(d, g)[g.start]) == 0
  {
    RecoveredAt(d, g, g.start);
  }

  lemma EmptyLogWellFormed(d: Disk, g: Geometry)
    requires Fits(g, d) && Count(d[g.start]) == 0
    ensures WellFormed(d, g) && Listed(d[g.start]) == []
  {
  }

  /** Recovery of an image with an empty log leaves the home blocks alone. */
  lemma EmptyLogRecovers(d: Disk, g: Geometry)
    requires Fits(g, d) && Count(d[g.start]) == 0
    ensures WellFormed(d, g) && HomesEqual(Recovered(d, g), d, g)
  {
    EmptyLogWellFormed(d, g);
    forall b | 0 <= b < |d| && !InLog(g, b)
      ensures Recovered(d, g)[b] == d[b]
    {
      RecoveredAt(d, g, b);
    }
  }

  /** A crash at any point of a recovery loses nothing: recovering again gives
      the home blocks that the interrupted recovery would have given. */
  lemma RecoveryRestarts(d: Disk, g: Geometry, k: nat)
    requires WellFormed(d, g) && k <= Count(d[g.start]) + 1
    ensures WellFormed(RecoveryPoint(d, g, k), g)
    ensures HomesEqual(Recovered(RecoveryPoint(d, g, k), g), Recovered(d, g), g)
  {
    if k <= Count(d[g.start]) {
      var blocks := Listed(d[g.start]);
      InstalledKeepsLog(d, g, blocks, k);
      InstallAgain(d, g, blocks, k);
    } else {
      RecoveredHeader(d, g);
      EmptyLogRecovers(Recovered(d, g), g);
    }
  }

  /** e is an image at which a recovery from d can be cut short. */
  ghost predicate CutShort(d: Disk, g: Geometry, e: Disk) {
    WellFormed(d, g) && exists k: nat :: k <= Count(d[g.start]) + 1 && e == RecoveryPoint(d, g, k)
  }

  /** A run of reboots in which each recovery is cut short by the next crash. */
  ghost predicate CrashChain(ds: seq<Disk>, g: Geometry) {
    && |ds| > 0
    && WellFormed(ds[0], g)
    && (forall i, j :: 0 <= i < j < |ds| && j == i + 1 ==> CutShort(ds[i], g, ds[j]))
  }

  /** Any number of crashes inside recovery leaves the outcome of the first
      crash: the recovery that completes restores the same home blocks. */
  lemma {:induction false} CrashChainOutcome(ds: seq<Disk>, g: Geometry)
    requires CrashChain(ds, g)
    ensures WellFormed(ds[|ds| - 1], g)
    ensures HomesEqual(Recovered(ds[|ds| - 1], g), Recovered(ds[0], g), g)
    ensures Count(Recovered(ds[|ds| - 1], g)[g.start]) == 0
  {
    if |ds| > 1 {
      var n := |ds| - 2;
      CrashChainOutcome(ds[..n + 1], g);
      assert CutShort(ds[n], g, ds[n + 1]);
      var k: nat :| k <= Count(ds[n][g.start]) + 1 && ds[n + 1] == RecoveryPoint(ds[n], g, k);
      RecoveryRestarts(ds[n], g, k);
    }
    RecoveredHeader(ds[|ds| - 1], g);
  }

  /** The image after write_log has written the first k log blocks. */
  function Logged(d: Disk, g: Geometry, contents: seq<Block>, k: nat): (r: Disk)
    requires Fits(g, d) && |contents| < g.size && k <= |contents|
    ensures |r| == |d|
  {
    if k == 0 then d else Logged(d, g, contents, k - 1)[g.start + k := contents[k - 1]]
  }

  lemma {:induction false} LoggedAt(d: Disk, g: Geometry, contents: seq<Block>, k: nat, b: nat)
    requires Fits(g, d) && |contents| < g.size && k <= |contents| && b < |d|
    ensures Logged(d, g, contents, k)[b] == if g.start < b <= g.start + k then contents[b - g.start - 1] else d[b]
  {
    if k > 0 {
      LoggedAt(d, g, contents, k - 1, b);
    }
  }

  ghost predicate Transaction(d: Disk, g: Geometry, blocks: seq<nat>, contents: seq<Block>) {
    Fits(g, d) && Loggable(g, blocks, |d|) && |contents| == |blocks|
  }

  /** The image once the header that lists the transaction is on disk. */
  function Committed(d: Disk, g: Geometry, blocks: seq<nat>, contents: seq<Block>): (r: Disk)
    requires Transaction(d, g, blocks, contents)
    ensures |r| == |d|
  {
    Logged(d, g, contents, |contents|)[g.start := WithEntries(d[g.start], blocks, |blocks|)]
  }

  lemma CommittedHeader(d: Disk, g: Geometry, blocks: seq<nat>, contents: seq<Block>)
    requires Transaction(d, g, blocks, contents)
    ensures var c := Committed(d, g, blocks, contents); WellFormed(c, g) && Listed(c[g.start]) == blocks
  {
    HeaderRoundTrip(d[g.start], blocks);
  }

  /** The image after k block writes of a commit that starts from d. */
  function CommitPoint(d: Disk, g: Geometry, blocks: seq<nat>, contents: seq<Block>, k: nat): (r: Disk)
    requires Transaction(d, g, blocks, contents) && k <= 2 * |blocks| + 2
    ensures |r| == |d|
  {
    if k <= |blocks| then Logged(d, g, contents, k)
    else
      CommittedHeader(d, g, blocks, contents);
      RecoveryPoint(Committed(d, g, blocks, contents), g, k - |blocks| - 1)
  }

  /** The transaction written straight to the home locations. */
  function Applied(d: Disk, blocks: seq<nat>, contents: seq<Block>): (r: Disk)
    requires |contents| == |blocks| && forall i :: 0 <= i < |blocks| ==> blocks[i] < |d|
    ensures |r| == |d|
  {
    if blocks == [] then d
    else
      var n := |blocks| - 1;
      Applied(d, blocks[..n], contents[..n])[blocks[n] := contents[n]]
  }

  lemma {:induction false} AppliedAt(d: Disk, blocks: seq<nat>, contents: seq<Block>, b: nat)
    requires |contents| == |blocks| && b < |d| && forall i :: 0 <= i < |blocks| ==> blocks[i] < |d|
    requires forall i, j :: 0 <= i < j < |blocks| ==> blocks[i] != blocks[j]
    ensures b !in blocks ==> Applied(d, blocks, contents)[b] == d[b]
    ensures forall i :: 0 <= i < |blocks| && blocks[i] == b ==> Applied(d, blocks, contents)[b] == contents[i]
  {
    if blocks != [] {
      var n := |blocks| - 1;
      AppliedAt(d, blocks[..n], contents[..n], b);
      assert blocks == blocks[..n] + [blocks[n]];
    }
  }

  lemma CommittedAt(d: Disk, g: Geometry, blocks: seq<nat>, contents: seq<Block>, b: nat)
    requires Transaction(d, g, blocks, contents) && b < |d| && b != g.start
    ensures Committed(d, g, blocks, contents)[b] ==
      if g.start < b <= g.start + |blocks| then contents[b - g.start - 1] else d[b]
  {
    LoggedAt(d, g, contents, |contents|, b);
  }

  lemma RecoversListed(c: Disk, g: Geometry, b: nat)
    requires WellFormed(c, g) && b < |c| && b != g.start
    ensures b !in Listed(c[g.start]) ==> Recovered(c, g)[b] == c[b]
    ensures forall i :: 0 <= i < Count(c[g.start]) && Listed(c[g.start])[i] == b ==>
        Recovered(c, g)[b] == c[g.start + 1 + i]
  {
    var blocks := Listed(c[g.start]);
    RecoveredAt(c, g, b);
    InstalledAt(c, g, blocks, |blocks|, b);
    assert blocks[..|blocks|] == blocks;
  }

  lemma CommittedRecoversAt(d: Disk, g: Geometry, blocks: seq<nat>, contents: seq<Block>, b: nat)
    requires Transaction(d, g, blocks, contents) && b < |d| && !InLog(g, b)
    ensures WellFormed(Committed(d, g, blocks, contents), g)
    ensures Recovered(Committed(d, g, blocks, contents), g)[b] == Applied(d, blocks, contents)[b]
  {
    CommittedHeader(d, g, blocks, contents);
    RecoversListed(Committed(d, g, blocks, contents), g, b);
    AppliedAt(d, blocks, contents, b);
    CommittedAt(d, g, blocks, contents, b);
    if i :| 0 <= i < |blocks| && blocks[i] == b {
      CommittedAt(d, g, blocks, contents, g.start + 1 + i);
    }
  }

  lemma CommittedRecovers(d: Disk, g: Geometry, blocks: seq<nat>, contents: seq<Block>)
    requires Transaction(d, g, blocks, contents)
    ensures WellFormed(Committed(d, g, blocks, contents), g)
    ensures HomesEqual(Recovered(Committed(d, g, blocks, contents), g), Applied(d, blocks, contents), g)
  {
    CommittedHeader(d, g, blocks, contents);
    forall b: nat | b < |d| && !InLog(g, b)
      ensures Recovered(Committed(d, g, blocks, contents), g)[b] == Applied(d, blocks, contents)[b]
    {
      CommittedRecoversAt(d, g, blocks, contents, b);
    }
  }

  /** Crash atomicity of a commit. From a clean log, a crash after any number
      of the commit's block writes recovers to all of the old home blocks or
      all of the new ones, and to the new ones exactly when the header of the
      transaction has reached the disk. */
  lemma CommitIsAtomic(d: Disk, g: Geometry, blocks: seq<nat>, contents: seq<Block>, k: nat)
    requires Transaction(d, g, blocks, contents) && k <= 2 * |blocks| + 2
    requires Count(d[g.start]) == 0
    ensures var s := CommitPoint(d, g, blocks, contents, k);
            && WellFormed(s, g)
            && HomesEqual(Recovered(s, g), if k <= |blocks| then d else Applied(d, blocks, contents), g)
  {
    var s := CommitPoint(d, g, blocks, contents, k);
    if k <= |blocks| {
      LoggedAt(d, g, contents, k, g.start);
      EmptyLogRecovers(s, g);
      forall b | 0 <= b < |d| && !InLog(g, b)
        ensures s[b] == d[b]
      {
        LoggedAt(d, g, contents, k, b);
      }
    } else {
      CommittedHeader(d, g, blocks, contents);
      CommittedRecovers(d, g, blocks, contents);
      RecoveryRestarts(Committed(d, g, blocks, contents), g, k - |blocks| - 1);
    }
  }

  /** The images of a commit, one per block write. */
  ghost function CommitTrace(d: Disk, g: Geometry, blocks: seq<nat>, contents: seq<Block>): (r: seq<Disk>)
    requires Transaction(d, g, blocks, contents)
    ensures |r| == 2 * |blocks| + 2
  {
    seq(2 * |blocks| + 2, k requires 0 <= k < 2 * |blocks| + 2 => CommitPoint(d, g, blocks, contents, k + 1))
  }

  ghost function LogPoints(d: Disk, g: Geometry, contents: seq<Block>, k: nat): (r: seq<Disk>)
    requires Fits(g, d) && |contents| < g.size && k <= |contents|
  {
    seq(k, i requires 0 <= i < k => Logged(d, g, contents, i + 1))
  }

  ghost function InstallPoints(d: Disk, g: Geometry, blocks: seq<nat>, k: nat): (r: seq<Disk>)
    requires Fits(g, d) && Loggable(g, blocks, |d|) && k <= |blocks|
  {
    seq(k, i requires 0 <= i < k => Installed(d, g, blocks, i + 1))
  }

  /** The images of a recovery, one per block write. */
  ghost function RecoveryTrace(d: Disk, g: Geometry): (r: seq<Disk>)
    requires WellFormed(d, g)
  {
    var n := Count(d[g.start]);
    seq(n + 1, k requires 0 <= k < n + 1 => RecoveryPoint(d, g, k + 1))
  }

  lemma RecoveryTraceParts(d: Disk, g: Geometry)
    requires WellFormed(d, g)
    ensures RecoveryTrace(d, g) == InstallPoints(d, g, Listed(d[g.start]), Count(d[g.start])) + [Recovered(d, g)]
  {
  }

  lemma CommitTraceParts(d: Disk, g: Geometry, blocks: seq<nat>, contents: seq<Block>)
    requires Transaction(d, g, blocks, contents)
    ensures WellFormed(Committed(d, g, blocks, contents), g)
    ensures CommitTrace(d, g, blocks, contents) ==
            LogPoints(d, g, contents, |blocks|) + [Committed(d, g, blocks, contents)]
            + RecoveryTrace(Committed(d, g, blocks, contents), g)
  {
    CommittedHeader(d, g, blocks, contents);
  }

  /** Every image of the trace recovers to a snapshot of the history, and
      later images never to an earlier snapshot. */
  ghost predicate Recoverable(trace: seq<Disk>, g: Geometry, history: seq<Disk>, epoch: seq<nat>) {
    && |epoch| == |trace|
    && (forall k :: 0 <= k < |trace| ==> RecoversTo(trace[k], g, history, epoch[k]))
    && (forall j, k :: 0 <= j < k < |trace| ==> epoch[j] <= epoch[k])
  }

  ghost predicate RecoversTo(d: Disk, g: Geometry, history: seq<Disk>, e: nat) {
    e < |history| && WellFormed(d, g) && HomesEqual(Recovered(d, g), history[e], g)
  }

  /** Wherever the first crash hits, and however often the following
      recoveries are cut short, the recovery that completes restores the
      snapshot of the history that the crashed image stands for. */
  lemma CrashAnywhere(trace: seq<Disk>, g: Geometry, history: seq<Disk>, epoch: seq<nat>, k: nat, ds: seq<Disk>)
    requires Recoverable(trace, g, history, epoch) && k < |trace|
    requires CrashChain(ds, g) && ds[0] == trace[k]
    ensures RecoversTo(ds[|ds| - 1], g, history, epoch[k])
  {
    CrashChainOutcome(ds, g);
    assert RecoversTo(trace[k], g, history, epoch[k]);
  }
}
