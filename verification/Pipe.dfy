/** pipe.c over the two-lock sleep of SleepWakeup: any number of readers and
    writers, with 32-bit counters that wrap. */
module Pipe {
  import opened SleepWakeup

  const SIZE: nat := 512
  const WORD: nat := 0x1_0000_0000
  /** The channels: &p->nread, where readers sleep, and &p->nwrite. */
  const NREAD: nat := 0
  const NWRITE: nat := 1

  /** struct pipe; accepted and delivered record all bytes put in and taken out
      so far. */
  datatype Ring = Ring(data: seq<char>, nread: nat, nwrite: nat, readopen: bool, writeopen: bool, accepted: seq<char>,
      delivered: seq<char>)

  /** Local states. pipewrite: WTest at the top of its loops, WKick and WDoze
      before wakeup and sleep on a full pipe, WLast before the last wakeup.
      piperead: RTest, RDoze, RCopy, RWake. pipeclose: CWrite and CRead before
      the store, CKickR and CKickW before the wakeup. The rest return. */
  datatype Local =
    | Idle
    | WTest(src: seq<char>, i: nat) | WKick(src: seq<char>, i: nat) | WDoze(src: seq<char>, i: nat)
        | WLast(src: seq<char>)
    | WClosed | WKilled | WDone(src: seq<char>)
    | RTest(n: nat) | RDoze(n: nat) | RCopy(n: nat, got: seq<char>) | RWake(got: seq<char>) | RKilled
        | RDone(got: seq<char>)
    | CWrite | CRead | CKickR | CKickW | CDone

  predicate Full(d: Ring) {
    d.nwrite == (d.nread + SIZE) % WORD
  }

  predicate Empty(d: Ring) {
    d.nread == d.nwrite
  }

  /** p->data[p->nwrite++ % PIPESIZE] = c. */
  function Put(d: Ring, c: char): (r: Ring)
    requires |d.data| == SIZE
    ensures |r.data| == SIZE
  {
    d.(data := d.data[d.nwrite % SIZE := c], nwrite := (d.nwrite + 1) % WORD, accepted := d.accepted + [c])
  }

  /** The byte that p->data[p->nread++ % PIPESIZE] takes. */
  function Head(d: Ring): char
    requires |d.data| == SIZE
  {
    d.data[d.nread % SIZE]
  }

  function Take(d: Ring): Ring
    requires |d.data| == SIZE
  {
    d.(nread := (d.nread + 1) % WORD, delivered := d.delivered + [Head(d)])
  }

  /** First in, first out: what was delivered is the beginning of what was
      accepted, the rest is in the ring in order, and there is room for it. */
  ghost predicate Fifo(d: Ring) {
    && |d.data| == SIZE && d.delivered <= d.accepted && |d.accepted| - |d.delivered| <= SIZE
    && d.nread == |d.delivered| % WORD && d.nwrite == |d.accepted| % WORD
    && forall k :: |d.delivered| <= k < |d.accepted| ==> d.data[k % SIZE] == d.accepted[k]
  }

  lemma Wraps(x: nat)
    ensures (x % WORD) % SIZE == x % SIZE && ((x % WORD) + 1) % WORD == (x + 1) % WORD
  {
  }

  lemma SamePlace(a: nat, b: nat)
    requires a <= b < a + SIZE && a % SIZE == b % SIZE
    ensures a == b
  {
  }

  /** The tests of the code say how many bytes are in the ring. */
  lemma FullEmpty(d: Ring)
    requires Fifo(d)
    ensures Full(d) <==> |d.accepted| - |d.delivered| == SIZE
    ensures Empty(d) <==> |d.accepted| == |d.delivered|
  {
  }

  lemma PutKeeps(d: Ring, c: char)
    requires Fifo(d) && !Full(d)
    ensures Fifo(Put(d, c))
  {
    var e, n := Put(d, c), |d.accepted|;
    FullEmpty(d);
    Wraps(n);
    forall k | |e.delivered| <= k < |e.accepted|
      ensures e.data[k % SIZE] == e.accepted[k]
    {
      if k < n && k % SIZE == n % SIZE {
        SamePlace(k, n);
      }
    }
  }

  lemma TakeKeeps(d: Ring)
    requires Fifo(d) && !Empty(d)
    ensures Fifo(Take(d)) && Head(d) == d.accepted[|d.delivered|]
  {
    FullEmpty(d);
    Wraps(|d.delivered|);
  }

  function IntentOf(l: Local): Intent {
    match l
    case WKick(_, _) => Intent.Wake(NREAD)
    case WDoze(_, _) => Intent.Sleep(NWRITE)
    case WLast(_) => Intent.Wake(NREAD)
    case RDoze(_) => Intent.Sleep(NREAD)
    case RWake(_) => Intent.Wake(NWRITE)
    case CKickR => Intent.Wake(NREAD)
    case CKickW => Intent.Wake(NWRITE)
    case WClosed => Leave
    case WKilled => Leave
    case WDone(_) => Leave
    case RKilled => Leave
    case RDone(_) => Leave
    case CDone => Leave
    case _ => Run
  }

  function AfterOf(l: Local): Local {
    match l
    case WKick(src, i) => WDoze(src, i)
    case WDoze(src, i) => WTest(src, i)
    case WLast(src) => WDone(src)
    case RDoze(n) => RTest(n)
    case RWake(got) => RDone(got)
    case CKickR => CDone
    case CKickW => CDone
    case _ => Idle
  }

  /** A step of the code inside the guard. Whether the process has been killed
      by then is up to the others. */
  predicate Runs(p: nat, l: Local, d: Ring, m: Local, e: Ring) {
    |d.data| == SIZE &&
    match l
    case WTest(src, i) =>
      if i >= |src| then m == WLast(src) && e == d
      else if !Full(d) then m == WTest(src, i + 1) && e == Put(d, src[i])
      else if !d.readopen then m == WClosed && e == d
      else (m == WKilled || m == WKick(src, i)) && e == d
    case RTest(n) =>
      if Empty(d) && d.writeopen then (m == RKilled || m == RDoze(n)) && e == d
      else m == RCopy(n, []) && e == d
    case RCopy(n, got) =>
      if |got| < n && !Empty(d) then m == RCopy(n, got + [Head(d)]) && e == Take(d)
      else m == RWake(got) && e == d
    case CWrite => m == CKickR && e == d.(writeopen := false)
    case CRead => m == CKickW && e == d.(readopen := false)
    case _ => false
  }

  predicate Starts(p: nat, l: Local, m: Local) {
    l == Idle && ((m.WTest? && m.i == 0) || m.RTest? || m == CWrite || m == CRead)
  }

  function Prog(): Program<Local, Ring> {
    Program(IntentOf, AfterOf, Runs, Starts)
  }

  lemma RunsKeepFifo(p: nat, l: Local, d: Ring, m: Local, e: Ring)
    requires Fifo(d) && Runs(p, l, d, m, e)
    ensures Fifo(e)
  {
    if l.WTest? && l.i < |l.src| && !Full(d) {
      PutKeeps(d, l.src[l.i]);
    } else if l.RCopy? && |l.got| < l.n && !Empty(d) {
      TakeKeeps(d);
    }
  }

  ghost predicate Begin(s: Fine<Local, Ring>) {
    && FineStart(s) && |s.data.data| == SIZE && s.data.nread == 0 == s.data.nwrite
    && s.data.accepted == [] == s.data.delivered
    && forall p: nat :: p < |s.local| ==> s.local[p] == Idle
  }

  /** In every state of every run, killed writers and all, bytes come out in
      the order they went in, across any number of counter wraps. */
  lemma AlwaysFifo(run: seq<Fine<Local, Ring>>, took: seq<(nat, Kind)>, n: nat)
    requires FineRun(Prog(), run, took) && Begin(run[0]) && n < |run|
    ensures Fifo(run[n].data)
  {
    var good := (s: Coarse<Local, Ring>) => Fifo(s.data);
    forall s: Coarse<Local, Ring>, t: Coarse<Local, Ring>, p: nat, k: Kind | good(s) && CoarseStep(Prog(), s, t, p, k)
      ensures good(t)
    {
      if k == Act {
        RunsKeepFifo(p, s.local[p], s.data, t.local[p], t.data);
      }
    }
    Transfer(Prog(), good, _ => true, run, took, n);
  }

  predicate Reading(l: Local) {
    l.RTest? || l.RDoze? || l.RCopy? || l.RWake?
  }

  /** The process inside has yet to wake the writers. */
  ghost predicate WakesWriters(s: Coarse<Local, Ring>) {
    s.guard.By? && s.guard.p < |s.local| && var l := s.local[s.guard.p]; l.RCopy? || l.RWake? || l == CKickW
  }

  ghost predicate WritersOk(s: Coarse<Local, Ring>) {
    forall p: nat :: p < |s.spot| && s.spot[p] == Sleeping(NWRITE) ==>
      (Full(s.data) && s.data.readopen) || WakesWriters(s)
  }

  predicate Placed(q: Spot, l: Local) {
    match q
    case Out => l == Idle
    case Waits => l.WTest? || l.RTest? || l == CWrite || l == CRead
    case In => l != Idle
    case Sleeping(c) => (l.RTest? && c == NREAD) || (l.WTest? && c == NWRITE)
    case Woken => l.WTest? || l.RTest?
  }

  /** Who is about to sleep has a reason for it. */
  predicate Grounded(l: Local, d: Ring) {
    && (l.WKick? || l.WDoze? ==> Full(d) && d.readopen)
    && (l.RDoze? ==> Empty(d) && d.writeopen)
  }

  /** What every step of every run keeps, killed processes and all. */
  ghost predicate Good(s: Coarse<Local, Ring>) {
    && |s.spot| == |s.local| && Fifo(s.data)
    && (forall p: nat :: p < |s.spot| ==> (s.spot[p] == In <==> s.guard == By(p)) && Placed(s.spot[p], s.local[p]))
    && (forall p: nat :: p < |s.spot| && s.spot[p] == In ==> Grounded(s.local[p], s.data))
    && WritersOk(s)
  }

  lemma ActKeeps(s: Coarse<Local, Ring>, t: Coarse<Local, Ring>, p: nat)
    requires Good(s) && CoarseStep(Prog(), s, t, p, Act)
    ensures Good(t)
  {
    RunsKeepFifo(p, s.local[p], s.data, t.local[p], t.data);
    assert t.spot == s.spot && t.local == s.local[p := t.local[p]] && t.guard == s.guard == By(p);
  }

  lemma WakeKeeps(s: Coarse<Local, Ring>, t: Coarse<Local, Ring>, p: nat)
    requires Good(s) && CoarseStep(Prog(), s, t, p, WakeMark)
    ensures Good(t)
  {
    assert t.local == s.local[p := t.local[p]] && t.guard == s.guard == By(p) && t.data == s.data;
    assert forall q: nat :: q < |s.spot| && t.spot[q].Sleeping? ==> s.spot[q] == t.spot[q];
  }

  lemma LeaveKeeps(s: Coarse<Local, Ring>, t: Coarse<Local, Ring>, p: nat, k: Kind)
    requires Good(s) && CoarseStep(Prog(), s, t, p, k) && (k == Exit || k == SleepUnlock)
    ensures Good(t)
  {
    assert t.data == s.data;
  }

  lemma MoveKeeps(s: Coarse<Local, Ring>, t: Coarse<Local, Ring>, p: nat, k: Kind)
    requires Good(s) && CoarseStep(Prog(), s, t, p, k)
    requires k != Act && k != WakeMark && k != Exit && k != SleepUnlock
    ensures Good(t)
  {
    assert t.data == s.data;
  }

  lemma StepKeeps(s: Coarse<Local, Ring>, t: Coarse<Local, Ring>, p: nat, k: Kind)
    requires Good(s) && CoarseStep(Prog(), s, t, p, k)
    ensures Good(t)
  {
    if k == Act {
      ActKeeps(s, t, p);
    } else if k == WakeMark {
      WakeKeeps(s, t, p);
    } else if k == Exit || k == SleepUnlock {
      LeaveKeeps(s, t, p, k);
    } else {
      MoveKeeps(s, t, p, k);
    }
  }

  lemma AlwaysGood(run: seq<Fine<Local, Ring>>, took: seq<(nat, Kind)>, n: nat)
    requires FineRun(Prog(), run, took) && Begin(run[0]) && n < |run|
    ensures Good(View(run[n]))
  {
    var good := (s: Coarse<Local, Ring>) => Good(s);
    forall s: Coarse<Local, Ring>, t: Coarse<Local, Ring>, p: nat, k: Kind |
      good(s) && CoarseStep(Prog(), s, t, p, k)
      ensures good(t)
    {
      StepKeeps(s, t, p, k);
    }
    Transfer(Prog(), good, _ => true, run, took, n);
  }

  /** In every run, with the lock free, a sleeping writer means a full pipe
      whose read end is open. */
  lemma NoLostWriter(run: seq<Fine<Local, Ring>>, took: seq<(nat, Kind)>, n: nat, p: nat)
    requires FineRun(Prog(), run, took) && Begin(run[0]) && n < |run|
    requires p < |run[n].place| && run[n].guard == Free
    requires run[n].place[p] == Asleep(NWRITE) || run[n].place[p] == Falling(NWRITE)
    ensures |run[n].data.accepted| - |run[n].data.delivered| == SIZE && run[n].data.readopen
  {
    AlwaysGood(run, took, n);
    FullEmpty(run[n].data);
    assert View(run[n]).spot[p] == Seen(run[n].place[p]);
  }

  /** With the lock free, a sleeping reader means an empty pipe whose write end
      is open. */
  ghost predicate ReaderSafe(s: Fine<Local, Ring>) {
    s.guard == Free ==> forall p: nat ::
      p < |s.place| && (s.place[p] == Asleep(NREAD) || s.place[p] == Falling(NREAD)) ==>
        s.data.accepted == s.data.delivered && s.data.writeopen
  }

  /** The process inside has yet to wake the readers. */
  predicate Kicks(l: Local) {
    l.WTest? || l.WKick? || l.WLast? || l == CKickR
  }

  /** The same, for a process that cannot return before it does: what is in the
      pipe is its own, so it writes its last byte before the pipe is full. */
  predicate KicksShort(l: Local, d: Ring) {
    || (l.WTest? && |d.accepted| - |d.delivered| <= l.i <= |l.src| <= SIZE)
    || l.WLast? || l == CKickR
  }

  ghost predicate ReadersOk(s: Coarse<Local, Ring>) {
    (exists p: nat :: p < |s.spot| && s.spot[p] == Sleeping(NREAD)) ==>
      || (Empty(s.data) && s.data.writeopen)
      || (s.guard.By? && s.guard.p < |s.local| && Kicks(s.local[s.guard.p]))
  }

  ghost predicate ReadersOkShort(s: Coarse<Local, Ring>) {
    (exists p: nat :: p < |s.spot| && s.spot[p] == Sleeping(NREAD)) ==>
      || (Empty(s.data) && s.data.writeopen)
      || (s.guard.By? && s.guard.p < |s.local| && KicksShort(s.local[s.guard.p], s.data))
  }

  /** The read end is closed only by its last user, and no writer has found
      itself killed. */
  ghost predicate Within(s: Coarse<Local, Ring>) {
    && (!s.data.readopen ==> forall p: nat :: p < |s.local| ==> !Reading(s.local[p]))
    && forall p: nat :: p < |s.local| ==> s.local[p] != WKilled
  }

  /** No call of pipewrite is for more than most bytes. */
  ghost predicate Short(s: Coarse<Local, Ring>, most: nat) {
    forall p: nat :: p < |s.local| && s.local[p].WTest? ==> |s.local[p].src| <= most
  }

  lemma StillAsleep(s: Coarse<Local, Ring>, t: Coarse<Local, Ring>, p: nat, k: Kind, q: nat)
    requires CoarseStep(Prog(), s, t, p, k) && q < |t.spot| && t.spot[q] == Sleeping(NREAD)
    ensures q < |s.spot| && (s.spot[q] == Sleeping(NREAD) || (q == p && k == SleepUnlock && s.local[p].RDoze?))
    ensures k == WakeMark ==> IntentOf(s.local[p]) != Intent.Wake(NREAD)
  {
  }

  lemma ReadersKeep(s: Coarse<Local, Ring>, t: Coarse<Local, Ring>, p: nat, k: Kind)
    requires Good(s) && Good(t) && ReadersOk(s) && Within(s) && Within(t) && CoarseStep(Prog(), s, t, p, k)
    ensures ReadersOk(t)
  {
    if q: nat :| q < |t.spot| && t.spot[q] == Sleeping(NREAD) {
      StillAsleep(s, t, p, k, q);
    }
  }

  lemma ReadersKeepShort(s: Coarse<Local, Ring>, t: Coarse<Local, Ring>, p: nat, k: Kind)
    requires Good(s) && Good(t) && ReadersOkShort(s) && Short(s, SIZE) && Short(t, SIZE)
    requires CoarseStep(Prog(), s, t, p, k)
    ensures ReadersOkShort(t)
  {
    if q: nat :| q < |t.spot| && t.spot[q] == Sleeping(NREAD) {
      StillAsleep(s, t, p, k, q);
      FullEmpty(s.data);
    }
  }

  /** In every run in which no writer is killed and the read end outlives its
      readers, no reader sleeps beside a byte. */
  lemma NoLostReader(run: seq<Fine<Local, Ring>>, took: seq<(nat, Kind)>, n: nat)
    requires FineRun(Prog(), run, took) && Begin(run[0]) && n < |run|
    requires forall i: nat :: i < |run| ==> Within(View(run[i]))
    ensures ReaderSafe(run[n])
  {
    var within := (s: Coarse<Local, Ring>) => Within(s);
    var good := (s: Coarse<Local, Ring>) => Good(s) && ReadersOk(s) && Within(s);
    forall s: Coarse<Local, Ring>, t: Coarse<Local, Ring>, p: nat, k: Kind |
      good(s) && within(t) && CoarseStep(Prog(), s, t, p, k)
      ensures good(t)
    {
      StepKeeps(s, t, p, k);
      ReadersKeep(s, t, p, k);
    }
    assert Inductive(Prog(), good, within);
    Transfer(Prog(), good, within, run, took, n);
    SafeFromView(run[n]);
  }

  lemma SafeFromView(s: Fine<Local, Ring>)
    requires Good(View(s)) && (ReadersOk(View(s)) || ReadersOkShort(View(s)))
    ensures ReaderSafe(s)
  {
    FullEmpty(s.data);
    forall p: nat | s.guard == Free && p < |s.place| && (s.place[p] == Asleep(NREAD) || s.place[p] == Falling(NREAD))
      ensures s.data.accepted == s.data.delivered && s.data.writeopen
    {
      assert View(s).spot[p] == Seen(s.place[p]);
    }
  }

  /** With writes of at most SIZE bytes no reader is lost, whoever is killed and
      whatever is closed. */
  lemma ShortWritesLoseNobody(run: seq<Fine<Local, Ring>>, took: seq<(nat, Kind)>, n: nat)
    requires FineRun(Prog(), run, took) && Begin(run[0]) && n < |run|
    requires forall i: nat :: i < |run| ==> Short(View(run[i]), SIZE)
    ensures ReaderSafe(run[n])
  {
    var within := (s: Coarse<Local, Ring>) => Short(s, SIZE);
    var good := (s: Coarse<Local, Ring>) => Good(s) && ReadersOkShort(s) && Short(s, SIZE);
    forall s: Coarse<Local, Ring>, t: Coarse<Local, Ring>, p: nat, k: Kind |
      good(s) && within(t) && CoarseStep(Prog(), s, t, p, k)
      ensures good(t)
    {
      StepKeeps(s, t, p, k);
      ReadersKeepShort(s, t, p, k);
    }
    assert Inductive(Prog(), good, within);
    Transfer(Prog(), good, within, run, took, n);
    SafeFromView(run[n]);
  }

  /** The ring after k bytes from an empty start. */
  ghost function Filled(k: nat): (d: Ring)
    ensures |d.data| == SIZE && d.readopen && d.writeopen
  {
    if k == 0 then Ring(seq(SIZE, _ => 'x'), 0, 0, true, true, [], []) else Put(Filled(k - 1), 'x')
  }

  lemma {:induction false} FilledIs(k: nat)
    requires k <= SIZE
    ensures Fifo(Filled(k)) && |Filled(k).accepted| == k && Filled(k).delivered == []
        && (Full(Filled(k)) <==> k == SIZE) && (Empty(Filled(k)) <==> k == 0)
  {
    if k > 0 {
      FilledIs(k - 1);
      PutKeeps(Filled(k - 1), 'x');
    }
    FullEmpty(Filled(k));
  }

  ghost function Text(): (t: seq<char>)
    ensures |t| == SIZE + 1 && forall i :: 0 <= i < |t| ==> t[i] == 'x'
  {
    seq(SIZE + 1, _ => 'x')
  }

  /** A reader falls asleep on the empty pipe, a writer fills it and then finds
      itself killed. */
  ghost function LostAt(i: nat): Fine<Local, Ring> {
    var d, r := Filled(0), RTest(1);
    if i == 0 then Fine([Outside, Outside], [Idle, Idle], d, Free, Free)
    else if i == 1 then Fine([Entering, Outside], [r, Idle], d, Free, Free)
    else if i == 2 then Fine([Inside, Outside], [r, Idle], d, By(0), Free)
    else if i == 3 then Fine([Inside, Outside], [RDoze(1), Idle], d, By(0), Free)
    else if i == 4 then Fine([Calling(NREAD), Outside], [RDoze(1), Idle], d, By(0), Free)
    else if i == 5 then Fine([Both(NREAD), Outside], [RDoze(1), Idle], d, By(0), By(0))
    else if i == 6 then Fine([Falling(NREAD), Outside], [r, Idle], d, Free, By(0))
    else if i == 7 then Fine([Asleep(NREAD), Outside], [r, Idle], d, Free, Free)
    else if i == 8 then Fine([Asleep(NREAD), Entering], [r, WTest(Text(), 0)], d, Free, Free)
    else if i <= 9 + SIZE then Fine([Asleep(NREAD), Inside], [r, WTest(Text(), i - 9)], Filled(i - 9), By(1), Free)
    else if i == 10 + SIZE then Fine([Asleep(NREAD), Inside], [r, WKilled], Filled(SIZE), By(1), Free)
    else Fine([Asleep(NREAD), Outside], [r, Idle], Filled(SIZE), Free, Free)
  }

  ghost function LostStep(i: nat): (nat, Kind) {
    if i == 0 then (0, Call)
        else if i == 1 then (0, Enter) else if i == 2 then (0, Act) else if i == 3 then (0, SleepBegin)
    else if i == 4 then (0, SleepLock) else if i == 5 then (0, SleepUnlock) else if i == 6 then (0, SleepEnd)
    else if i == 7 then (1, Call) else if i == 8 then (1, Enter) else if i <= 9 + SIZE then (1, Act) else (1, Exit)
  }

  /** A two-process state with one entry of each sequence replaced. */
  lemma Replaced<T>(a: T, b: T, c: T)
    ensures [a, b][0 := c] == [c, b] && [a, b][1 := c] == [a, c]
  {
  }

  lemma LostReaderSleeps(i: nat)
    requires i < 7
    ensures FineStep(Prog(), LostAt(i), LostAt(i + 1), LostStep(i).0, LostStep(i).1)
  {
    FilledIs(0);
    var s, t := LostAt(i), LostAt(i + 1);
    Replaced(s.place[0], s.place[1], t.place[0]);
    Replaced(s.local[0], s.local[1], t.local[0]);
    assert s.place[0 := t.place[0]] == t.place && s.local[0 := t.local[0]] == t.local;
    if i == 0 {
      assert Prog().starts(0, Idle, RTest(1));
    } else if i == 2 {
      assert Prog().runs(0, RTest(1), Filled(0), RDoze(1), Filled(0));
    }
  }

  lemma LostPut(k: nat)
    requires k < SIZE
    ensures FineStep(Prog(), LostAt(9 + k), LostAt(10 + k), 1, Act)
  {
    FilledIs(k);
    var s, t := LostAt(9 + k), LostAt(10 + k);
    Replaced(s.local[0], s.local[1], t.local[1]);
    assert Prog().runs(1, WTest(Text(), k), Filled(k), WTest(Text(), k + 1), Filled(k + 1));
  }

  lemma LostWriterRuns(i: nat)
    requires 7 <= i <= 10 + SIZE
    ensures FineStep(Prog(), LostAt(i), LostAt(i + 1), LostStep(i).0, LostStep(i).1)
  {
    if 9 <= i < 9 + SIZE {
      LostPut(i - 9);
    } else {
      LostRest(i);
    }
  }

  lemma LostRest(i: nat)
    requires i == 7 || i == 8 || i == 9 + SIZE || i == 10 + SIZE
    ensures FineStep(Prog(), LostAt(i), LostAt(i + 1), LostStep(i).0, LostStep(i).1)
  {
    FilledIs(SIZE);
    var s, t := LostAt(i), LostAt(i + 1);
    Replaced(s.place[0], s.place[1], t.place[1]);
    Replaced(s.local[0], s.local[1], t.local[1]);
    assert s.place[1 := t.place[1]] == t.place && s.local[1 := t.local[1]] == t.local;
    if i == 7 {
      assert Prog().starts(1, Idle, WTest(Text(), 0));
    } else if i == 9 + SIZE {
      assert Prog().runs(1, WTest(Text(), SIZE), Filled(SIZE), WKilled, Filled(SIZE));
    }
  }

  /** The readers' half fails in a run with a killed writer: the pipe is full,
      the lock free, and a reader asleep. */
  lemma KilledWriterLosesReader() returns (run: seq<Fine<Local, Ring>>, took: seq<(nat, Kind)>)
    ensures FineRun(Prog(), run, took) && Begin(run[0])
    ensures var s := run[|took|];
        s.guard == Free && |s.place| == 2 && s.place[0] == Asleep(NREAD) && Full(s.data) && !Empty(s.data)
    ensures forall i: nat :: i < |run| ==> Short(View(run[i]), SIZE + 1)
  {
    run, took := seq(12 + SIZE, i requires i >= 0 => LostAt(i)), seq(11 + SIZE, i requires i >= 0 => LostStep(i));
    forall i: nat | i < |took|
      ensures FineStep(Prog(), run[i], run[i + 1], took[i].0, took[i].1)
    {
      if i < 7 {
        LostReaderSleeps(i);
      } else {
        LostWriterRuns(i);
      }
    }
    FilledIs(0);
    FilledIs(SIZE);
  }

  /** No reader is lost in any run whose writes are at most most bytes. */
  ghost predicate SafeUpTo(most: nat) {
    forall run: seq<Fine<Local, Ring>>, took: seq<(nat, Kind)>, n: nat ::
      && FineRun(Prog(), run, took) && Begin(run[0]) && n < |run|
      && (forall i: nat :: i < |run| ==> Short(View(run[i]), most))
      ==> ReaderSafe(run[n])
  }

  /** A caller of pipewrite can tell: writes up to most bytes lose no reader, in
      every run with killed writers and early closes, just when most is at most
      the size of the pipe. */
  lemma ShortWritesExact(most: nat)
    ensures SafeUpTo(most) <==> most <= SIZE
  {
    if most <= SIZE {
      forall run: seq<Fine<Local, Ring>>, took: seq<(nat, Kind)>, n: nat |
        && FineRun(Prog(), run, took) && Begin(run[0]) && n < |run|
        && (forall i: nat :: i < |run| ==> Short(View(run[i]), most))
        ensures ReaderSafe(run[n])
      {
        ShortWritesLoseNobody(run, took, n);
      }
    } else {
      var run, took := KilledWriterLosesReader();
      assert forall i: nat :: i < |run| ==> Short(View(run[i]), most);
      AlwaysFifo(run, took, |took|);
      FullEmpty(run[|took|].data);
      assert !ReaderSafe(run[|took|]);
    }
  }
}
