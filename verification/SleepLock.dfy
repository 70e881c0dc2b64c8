/** sleeplock.c, over the two-lock sleep of SleepWakeup, for any number of
    processes. */
module SleepLock {
  import opened SleepWakeup

  /** The fields that lk->lk guards. */
  datatype Lock = Lock(locked: bool, pid: nat)

  /** acquiresleep: Try at the loop test, Doze before sleep, Got before the
      release; releasesleep: Drop before the store, Tell before wakeup, Done
      before the release. Idle and Holds are outside. */
  datatype Pc = Idle | Try | Doze | Got | Holds | Drop | Tell | Done

  function IntentOf(l: Pc): Intent {
    match l
    case Doze => Intent.Sleep(0)
    case Tell => Intent.Wake(0)
    case Got => Leave
    case Done => Leave
    case _ => Run
  }

  function AfterOf(l: Pc): Pc {
    match l
    case Doze => Try
    case Got => Holds
    case Tell => Done
    case Done => Idle
    case _ => l
  }

  predicate Runs(p: nat, l: Pc, d: Lock, m: Pc, e: Lock) {
    match l
    case Try => if d.locked then m == Doze && e == d else m == Got && e == Lock(true, p)
    case Drop => m == Tell && e == Lock(false, 0)
    case _ => false
  }

  /** A process acquires when it does not hold the lock, and releases when it
      does. */
  predicate Starts(p: nat, l: Pc, m: Pc) {
    (l == Idle && m == Try) || (l == Holds && m == Drop)
  }

  function Prog(): Program<Pc, Lock> {
    Program(IntentOf, AfterOf, Runs, Starts)
  }

  predicate Owns(l: Pc) {
    l == Got || l == Holds || l == Drop
  }

  /** The guard is with the process inside; the lock is with at most one
      process, whose number it records; whoever sleeps, or is about to, finds
      the lock taken, unless the one inside has yet to wake the sleepers. */
  ghost predicate Good(s: Coarse<Pc, Lock>) {
    && |s.spot| == |s.local|
    && (forall p: nat :: p < |s.spot| ==> (s.spot[p] == In <==> s.guard == By(p)))
    && (forall p: nat :: p < |s.spot| ==> (Owns(s.local[p]) <==> s.data.locked && s.data.pid == p))
    && (forall p: nat :: p < |s.spot| && s.spot[p] == In && s.local[p] == Doze ==> s.data.locked)
    && (forall p: nat :: p < |s.spot| && s.spot[p].Sleeping? ==> s.data.locked || ToWake(s))
    && (forall p: nat :: p < |s.spot| ==> Placed(s.spot[p], s.local[p]))
  }

  ghost predicate ToWake(s: Coarse<Pc, Lock>)
    requires |s.spot| == |s.local|
  {
    s.guard.By? && s.guard.p < |s.spot| && s.local[s.guard.p] == Tell
  }

  predicate Placed(q: Spot, l: Pc) {
    match q
    case Out => l == Idle || l == Holds
    case Waits => l == Try || l == Drop
    case In => l != Idle && l != Holds
    case Sleeping(c) => l == Try && c == 0
    case Woken => l == Try
  }

  lemma ActKeepsGood(s: Coarse<Pc, Lock>, t: Coarse<Pc, Lock>, p: nat)
    requires Good(s) && CoarseStep(Prog(), s, t, p, Act)
    ensures Good(t)
  {
  }

  lemma WakeKeepsGood(s: Coarse<Pc, Lock>, t: Coarse<Pc, Lock>, p: nat)
    requires Good(s) && CoarseStep(Prog(), s, t, p, WakeMark)
    ensures Good(t)
  {
  }

  lemma LeaveKeepsGood(s: Coarse<Pc, Lock>, t: Coarse<Pc, Lock>, p: nat, k: Kind)
    requires Good(s) && CoarseStep(Prog(), s, t, p, k) && (k == Exit || k == SleepUnlock)
    ensures Good(t)
  {
  }

  lemma CallKeepsGood(s: Coarse<Pc, Lock>, t: Coarse<Pc, Lock>, p: nat, k: Kind)
    requires Good(s) && CoarseStep(Prog(), s, t, p, k) && (k == Call || k == Enter)
    ensures Good(t)
  {
  }

  lemma MoveKeepsGood(s: Coarse<Pc, Lock>, t: Coarse<Pc, Lock>, p: nat, k: Kind)
    requires Good(s) && CoarseStep(Prog(), s, t, p, k) && k != Act && k != WakeMark && k != Exit && k != SleepUnlock
        && k != Call && k != Enter
    ensures Good(t)
  {
  }

  lemma StepKeepsGood(s: Coarse<Pc, Lock>, t: Coarse<Pc, Lock>, p: nat, k: Kind)
    requires Good(s) && CoarseStep(Prog(), s, t, p, k)
    ensures Good(t)
  {
    if k == Act {
      ActKeepsGood(s, t, p);
    } else if k == WakeMark {
      WakeKeepsGood(s, t, p);
    } else if k == Exit || k == SleepUnlock {
      LeaveKeepsGood(s, t, p, k);
    } else if k == Call || k == Enter {
      CallKeepsGood(s, t, p, k);
    } else {
      MoveKeepsGood(s, t, p, k);
    }
  }

  ghost predicate Begin(s: Fine<Pc, Lock>) {
    FineStart(s) && !s.data.locked && forall p: nat :: p < |s.local| ==> s.local[p] == Idle
  }

  lemma AlwaysGood(run: seq<Fine<Pc, Lock>>, took: seq<(nat, Kind)>, n: nat)
    requires FineRun(Prog(), run, took) && Begin(run[0]) && n < |run|
    ensures FineInv(Prog(), run[n]) && Good(View(run[n]))
  {
    var good := (s: Coarse<Pc, Lock>) => Good(s);
    forall s: Coarse<Pc, Lock>, t: Coarse<Pc, Lock>, p: nat, k: Kind | good(s) && CoarseStep(Prog(), s, t, p, k)
      ensures good(t)
    {
      StepKeepsGood(s, t, p, k);
    }
    Transfer(Prog(), good, _ => true, run, took, n);
  }

  /** In every state of every run: with the guard free, a process asleep on the
      lock, or past letting go of the guard to sleep, means that the lock is
      held. */
  lemma NoLostWakeup(run: seq<Fine<Pc, Lock>>, took: seq<(nat, Kind)>, n: nat, p: nat)
    requires FineRun(Prog(), run, took) && Begin(run[0]) && n < |run|
    requires p < |run[n].place| && run[n].guard == Free && (run[n].place[p].Asleep? || run[n].place[p].Falling?)
    ensures run[n].data.locked
  {
    AlwaysGood(run, took, n);
    assert View(run[n]).spot[p].Sleeping?;
  }

  /** In every state of every run at most one process holds the sleep lock. */
  lemma MutualExclusion(run: seq<Fine<Pc, Lock>>, took: seq<(nat, Kind)>, n: nat, p: nat, q: nat)
    requires FineRun(Prog(), run, took) && Begin(run[0]) && n < |run| && p < |run[n].place| && q < |run[n].place|
    requires |run[n].local| == |run[n].place| && run[n].local[p] == Holds && run[n].local[q] == Holds
    ensures p == q && run[n].data == Lock(true, p)
  {
    AlwaysGood(run, took, n);
    assert Owns(View(run[n]).local[p]) && Owns(View(run[n]).local[q]);
  }
}
