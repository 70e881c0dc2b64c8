/** sleep and wakeup with two locks: a guard lock lk that protects some data,
    and ptable.lock. Programs use the data inside the guard, sleep on channels
    and wake sleepers. The detailed machine takes the steps of proc.c one by
    one; it refines a machine in which going to sleep and letting go of the
    guard are one step, for any program and any number of processes. */
module SleepWakeup {

  /** What a process does next inside the guard. */
  datatype Intent = Run | Leave | Sleep(c: nat) | Wake(c: nat)

  /** A program over local states L and guarded data D: what a local state is
      about to do, where it goes after leaving, sleeping or waking others, the
      steps on the data, and the calls that start from outside. */
  datatype Program<!L(!new), !D(!new)> =
    Program(intent: L -> Intent, after: L -> L, runs: (nat, L, D, L, D) -> bool, starts: (nat, L, L) -> bool)

  datatype Holder = Free | By(p: nat) | Elsewhere

  /** Where a process is, step by step. */
  datatype Place =
    | Outside | Entering | Inside
    | Calling(c: nat) | Both(c: nat) | Falling(c: nat) | Asleep(c: nat) | Ready | Back
    | Waking(c: nat) | Marking(c: nat)

  datatype Fine<L, D> = Fine(place: seq<Place>, local: seq<L>, data: D, guard: Holder, pt: Holder)

  /** Where a process is when sleep is one step. */
  datatype Spot = Out | Waits | In | Sleeping(c: nat) | Woken

  datatype Coarse<L, D> = Coarse(spot: seq<Spot>, local: seq<L>, data: D, guard: Holder)

  /** A step, and who takes it. */
  datatype Kind =
    | Call | Enter | Act | Exit
    | SleepBegin | SleepLock | SleepUnlock | SleepEnd
    | WakeBegin | WakeLock | WakeMark | Resume | Reenter | Kill | Other

  predicate InGuard(q: Place) {
    q == Inside || q.Calling? || q.Both? || q.Waking? || q.Marking?
  }

  predicate InTable(q: Place) {
    q.Both? || q.Falling? || q == Back || q.Marking?
  }

  ghost predicate FineInv<L(!new), D(!new)>(pr: Program<L, D>, s: Fine<L, D>) {
    && |s.place| == |s.local|
    && (forall p: nat :: p < |s.place| ==> (InGuard(s.place[p]) <==> s.guard == By(p)))
    && (forall p: nat :: p < |s.place| ==> (InTable(s.place[p]) <==> s.pt == By(p)))
    && (forall p: nat :: p < |s.place| && (s.place[p].Calling? || s.place[p].Both?) ==>
        pr.intent(s.local[p]) == Sleep(s.place[p].c))
    && (forall p: nat :: p < |s.place| && (s.place[p].Waking? || s.place[p].Marking?) ==>
        pr.intent(s.local[p]) == Wake(s.place[p].c))
  }

  /** wakeup1 on the places. */
  function Marked(place: seq<Place>, c: nat): (r: seq<Place>)
    ensures |r| == |place|
  {
    seq(|place|, i requires 0 <= i < |place| => if place[i] == Asleep(c) then Ready else place[i])
  }

  function WokenUp(spot: seq<Spot>, c: nat): (r: seq<Spot>)
    ensures |r| == |spot|
  {
    seq(|spot|, i requires 0 <= i < |spot| => if spot[i] == Sleeping(c) then Woken else spot[i])
  }

  /** One step of the detailed machine. */
  ghost predicate FineStep<L(!new), D(!new)>(pr: Program<L, D>, s: Fine<L, D>, t: Fine<L, D>, p: nat, k: Kind)
  {
    && |s.place| == |s.local| && p < |s.place|
    && var q, l := s.place[p], s.local[p];
       match k
       case Call => q == Outside
           && exists m :: pr.starts(p, l, m) && t == s.(place := s.place[p := Entering], local := s.local[p := m])
       case Enter => q == Entering && s.guard == Free && t == s.(place := s.place[p := Inside], guard := By(p))
       case Act => q == Inside && pr.intent(l) == Run
           && exists m, d :: pr.runs(p, l, s.data, m, d) && t == s.(local := s.local[p := m], data := d)
       case Exit => q == Inside && pr.intent(l) == Leave
           && t == s.(place := s.place[p := Outside], local := s.local[p := pr.after(l)], guard := Free)
       case SleepBegin => q == Inside && pr.intent(l).Sleep? && t == s.(place := s.place[p := Calling(pr.intent(l).c)])
       case SleepLock => q.Calling? && s.pt == Free && t == s.(place := s.place[p := Both(q.c)], pt := By(p))
       case SleepUnlock => q.Both? && t ==
           s.(place := s.place[p := Falling(q.c)], local := s.local[p := pr.after(l)], guard := Free)
       case SleepEnd => q.Falling? && t == s.(place := s.place[p := Asleep(q.c)], pt := Free)
       case WakeBegin => q == Inside && pr.intent(l).Wake? && t == s.(place := s.place[p := Waking(pr.intent(l).c)])
       case WakeLock => q.Waking? && s.pt == Free && t == s.(place := s.place[p := Marking(q.c)], pt := By(p))
       case WakeMark => q.Marking? && t ==
           s.(place := Marked(s.place, q.c)[p := Inside], local := s.local[p := pr.after(l)], pt := Free)
       case Resume => q == Ready && s.pt == Free && t == s.(place := s.place[p := Back], pt := By(p))
       case Reenter => q == Back && t == s.(place := s.place[p := Entering], pt := Free)
       case Kill => q.Asleep? && s.pt == Free && t == s.(place := s.place[p := Ready])
       case Other => (s.pt == Free && t == s.(pt := Elsewhere)) || (s.pt == Elsewhere && t == s.(pt := Free))
  }

  /** One step of the machine with one-step sleep. */
  ghost predicate CoarseStep<L(!new), D(!new)>(pr: Program<L, D>, s: Coarse<L, D>, t: Coarse<L, D>, p: nat, k: Kind)
  {
    && |s.spot| == |s.local| && p < |s.spot|
    && var q, l := s.spot[p], s.local[p];
       match k
       case Call => q == Out
           && exists m :: pr.starts(p, l, m) && t == s.(spot := s.spot[p := Waits], local := s.local[p := m])
       case Enter => q == Waits && s.guard == Free && t == s.(spot := s.spot[p := In], guard := By(p))
       case Act => q == In && pr.intent(l) == Run
           && exists m, d :: pr.runs(p, l, s.data, m, d) && t == s.(local := s.local[p := m], data := d)
       case Exit => q == In && pr.intent(l) == Leave
           && t == s.(spot := s.spot[p := Out], local := s.local[p := pr.after(l)], guard := Free)
       case SleepUnlock => q == In && pr.intent(l).Sleep?
           && t == s.(spot := s.spot[p := Sleeping(pr.intent(l).c)], local := s.local[p := pr.after(l)], guard := Free)
       case WakeMark => q == In && pr.intent(l).Wake?
           && t == s.(spot := WokenUp(s.spot, pr.intent(l).c), local := s.local[p := pr.after(l)])
       case Reenter => q == Woken && t == s.(spot := s.spot[p := Waits])
       case Kill => q.Sleeping? && t == s.(spot := s.spot[p := Woken])
       case _ => t == s
  }

  /** A process that has let go of the guard to sleep counts as asleep. */
  function Seen(q: Place): Spot {
    match q
    case Outside => Out
    case Entering => Waits
    case Inside => In
    case Calling(_) => In
    case Both(_) => In
    case Waking(_) => In
    case Marking(_) => In
    case Falling(c) => Sleeping(c)
    case Asleep(c) => Sleeping(c)
    case Ready => Woken
    case Back => Woken
  }

  function SeenAll(place: seq<Place>): (r: seq<Spot>)
    ensures |r| == |place|
  {
    seq(|place|, i requires 0 <= i < |place| => Seen(place[i]))
  }

  function View<L, D>(s: Fine<L, D>): Coarse<L, D> {
    Coarse(SeenAll(s.place), s.local, s.data, s.guard)
  }

  lemma SeenUpdate(place: seq<Place>, p: nat, q: Place)
    requires p < |place|
    ensures SeenAll(place[p := q]) == SeenAll(place)[p := Seen(q)]
    ensures Seen(q) == Seen(place[p]) ==> SeenAll(place[p := q]) == SeenAll(place)
  {
  }

  /** While p marks, nobody is between letting go of the guard and sleeping, so
      waking the sleepers wakes all that count as asleep. */
  lemma SeenMarked(place: seq<Place>, p: nat, c: nat)
    requires p < |place| && place[p].Marking? && forall i: nat :: i < |place| ==> !place[i].Falling?
    ensures SeenAll(Marked(place, c)[p := Inside]) == WokenUp(SeenAll(place), c)
  {
  }

  /** Steps that take or drop neither lock, or the guard alone. */
  lemma GuardStepKeeps<L(!new), D(!new)>(pr: Program<L, D>, s: Fine<L, D>, t: Fine<L, D>, p: nat, k: Kind)
    requires FineInv(pr, s) && FineStep(pr, s, t, p, k)
    requires k == Call || k == Enter || k == Act || k == Exit || k == SleepBegin || k == WakeBegin || k == SleepUnlock
    ensures FineInv(pr, t)
  {
  }

  lemma TableStepKeeps<L(!new), D(!new)>(pr: Program<L, D>, s: Fine<L, D>, t: Fine<L, D>, p: nat, k: Kind)
    requires FineInv(pr, s) && FineStep(pr, s, t, p, k)
    requires k == SleepLock || k == SleepEnd || k == WakeLock
    ensures FineInv(pr, t)
  {
  }

  lemma QuietStepKeeps<L(!new), D(!new)>(pr: Program<L, D>, s: Fine<L, D>, t: Fine<L, D>, p: nat, k: Kind)
    requires FineInv(pr, s) && FineStep(pr, s, t, p, k)
    requires k == Resume || k == Reenter || k == Kill || k == Other
    ensures FineInv(pr, t)
  {
  }

  lemma MarkStepKeeps<L(!new), D(!new)>(pr: Program<L, D>, s: Fine<L, D>, t: Fine<L, D>, p: nat)
    requires FineInv(pr, s) && FineStep(pr, s, t, p, WakeMark)
    ensures FineInv(pr, t)
  {
  }

  /** The two locks and the places agree in every reachable state. */
  lemma FineStepKeeps<L(!new), D(!new)>(pr: Program<L, D>, s: Fine<L, D>, t: Fine<L, D>, p: nat, k: Kind)
    requires FineInv(pr, s) && FineStep(pr, s, t, p, k)
    ensures FineInv(pr, t)
  {
    if k == Call || k == Enter || k == Act || k == Exit || k == SleepBegin || k == WakeBegin || k == SleepUnlock {
      GuardStepKeeps(pr, s, t, p, k);
    } else if k == WakeMark {
      MarkStepKeeps(pr, s, t, p);
    } else if k == SleepLock || k == SleepEnd || k == WakeLock {
      TableStepKeeps(pr, s, t, p, k);
    } else {
      QuietStepKeeps(pr, s, t, p, k);
    }
  }

  /** Each detailed step is a step of the coarse machine, or none at all. */
  lemma StepRefines<L(!new), D(!new)>(pr: Program<L, D>, s: Fine<L, D>, t: Fine<L, D>, p: nat, k: Kind)
    requires FineInv(pr, s) && FineStep(pr, s, t, p, k)
    ensures CoarseStep(pr, View(s), View(t), p, k) || View(t) == View(s)
  {
    var q := s.place[p];
    match k
    case WakeMark =>
      forall i: nat | i < |s.place|
        ensures !s.place[i].Falling?
      {
        assert InTable(s.place[p]) && (InTable(s.place[i]) ==> i == p);
      }
      SeenMarked(s.place, p, q.c);
    case Other =>
    case Act =>
    case _ =>
      SeenUpdate(s.place, p, t.place[p]);
  }

  /** Everybody outside, both locks free. */
  ghost predicate FineStart<L(!new), D(!new)>(s: Fine<L, D>) {
    |s.place| == |s.local| && s.guard == Free && s.pt == Free
        && forall p: nat :: p < |s.place| ==> s.place[p] == Outside
  }

  /** A run of the detailed machine, with the steps that were taken. */
  ghost predicate FineRun<L(!new), D(!new)>(pr: Program<L, D>, run: seq<Fine<L, D>>, took: seq<(nat, Kind)>) {
    && |run| == |took| + 1 && FineStart(run[0])
    && forall i: nat :: i < |took| ==> FineStep(pr, run[i], run[i + 1], took[i].0, took[i].1)
  }

  /** Every coarse step into a state within bounds keeps good. */
  ghost predicate Inductive<L(!new), D(!new)>(pr: Program<L, D>, good: Coarse<L, D> -> bool,
      within: Coarse<L, D> -> bool) {
    forall s: Coarse<L, D>, t: Coarse<L, D>, p: nat, k: Kind :: good(s) && within(t) && CoarseStep(pr, s, t, p, k) ==>
        good(t)
  }

  /** What every coarse step keeps holds all along every detailed run that
      stays within bounds. */
  lemma {:induction false} Transfer<L(!new), D(!new)>(pr: Program<L, D>, good: Coarse<L, D> -> bool,
      within: Coarse<L, D> -> bool, run: seq<Fine<L, D>>, took: seq<(nat, Kind)>, n: nat)
    requires FineRun(pr, run, took) && n < |run| && Inductive(pr, good, within) && good(View(run[0]))
    requires forall i: nat :: i < |run| ==> within(View(run[i]))
    ensures FineInv(pr, run[n]) && good(View(run[n]))
  {
    if n > 0 {
      Transfer(pr, good, within, run, took, n - 1);
      var p, k := took[n - 1].0, took[n - 1].1;
      assert FineStep(pr, run[n - 1], run[n - 1 + 1], p, k);
      FineStepKeeps(pr, run[n - 1], run[n], p, k);
      StepRefines(pr, run[n - 1], run[n], p, k);
    }
  }
}
