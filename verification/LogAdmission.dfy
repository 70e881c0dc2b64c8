/** Admission to the log as a state machine over any number of processes:
    begin_op, log_write, end_op and the commit, in every interleaving. Each
    step is a critical section of log.lock (or the commit, which runs without
    the lock while `committing` is set). */
module LogAdmission {
  import opened Params

  /** Where a process is. Active(used) has appended `used` blocks since its
      begin_op; Asleep waits in begin_op. */
  datatype Pc = Idle | Asleep | Active(used: nat) | Committing

  datatype State = State(n: nat, outstanding: int, committing: bool, pcs: seq<Pc>)

  datatype Step =
    | Begin(p: nat)
    | Append(p: nat)
    | End(p: nat)
    | Finish(p: nat)

  function Woken(pcs: seq<Pc>): (r: seq<Pc>)
    ensures |r| == |pcs| && forall i :: 0 <= i < |r| ==> r[i] == if pcs[i].Asleep? then Idle else pcs[i]
  {
    seq(|pcs|, i requires 0 <= i < |pcs| => if pcs[i].Asleep? then Idle else pcs[i])
  }

  ghost predicate Init(s: State) {
    s.n == 0 && s.outstanding == 0 && !s.committing && forall i :: 0 <= i < |s.pcs| ==> s.pcs[i] == Idle
  }

  predicate MustWait(s: State) {
    s.committing || s.n + (s.outstanding + 1) * MAXOPBLOCKS > LOGSIZE
  }

  /** The step can be taken; an append stays within the operation's allowance. */
  predicate Enabled(s: State, step: Step) {
    && step.p < |s.pcs|
    && match step
       case Begin(p) => s.pcs[p] == Idle
       case Append(p) => s.pcs[p].Active? && s.pcs[p].used < MAXOPBLOCKS
       case End(p) => s.pcs[p].Active?
       case Finish(p) => s.pcs[p] == Committing
  }

  function Next(s: State, step: Step): State
    requires Enabled(s, step)
  {
    match step
    case Begin(p) =>
      if MustWait(s) then s.(pcs := s.pcs[p := Asleep])
      else s.(outstanding := s.outstanding + 1, pcs := s.pcs[p := Active(0)])
    case Append(p) =>
      s.(n := s.n + 1, pcs := s.pcs[p := Active(s.pcs[p].used + 1)])
    case End(p) =>
      if s.outstanding - 1 == 0 then s.(outstanding := 0, committing := true, pcs := s.pcs[p := Committing])
      else s.(outstanding := s.outstanding - 1, pcs := Woken(s.pcs[p := Idle]))
    case Finish(p) =>
      s.(n := 0, committing := false, pcs := Woken(s.pcs[p := Idle]))
  }

  function ActiveCount(pcs: seq<Pc>): nat {
    if pcs == [] then 0 else ActiveCount(pcs[1..]) + if pcs[0].Active? then 1 else 0
  }

  /** Blocks that the active operations may still append. */
  function Unused(pcs: seq<Pc>): int {
    if pcs == [] then 0 else Unused(pcs[1..]) + if pcs[0].Active? then MAXOPBLOCKS - pcs[0].used else 0
  }

  function UnusedBy(pc: Pc): int {
    if pc.Active? then MAXOPBLOCKS - pc.used else 0
  }

  lemma {:induction false} CountsUpdate(pcs: seq<Pc>, p: nat, pc: Pc)
    requires p < |pcs|
    ensures ActiveCount(pcs[p := pc]) ==
        ActiveCount(pcs) - (if pcs[p].Active? then 1 else 0) + (if pc.Active? then 1 else 0)
    ensures Unused(pcs[p := pc]) == Unused(pcs) - UnusedBy(pcs[p]) + UnusedBy(pc)
  {
    if p == 0 {
      assert pcs[p := pc][1..] == pcs[1..];
    } else {
      assert pcs[p := pc][1..] == pcs[1..][p - 1 := pc];
      CountsUpdate(pcs[1..], p - 1, pc);
    }
  }

  lemma {:induction false} CountsWoken(pcs: seq<Pc>)
    ensures ActiveCount(Woken(pcs)) == ActiveCount(pcs) && Unused(Woken(pcs)) == Unused(pcs)
  {
    if pcs != [] {
      CountsWoken(pcs[1..]);
      assert Woken(pcs)[1..] == Woken(pcs[1..]);
    }
  }

  lemma {:induction false} CountsBound(pcs: seq<Pc>)
    requires forall i :: 0 <= i < |pcs| && pcs[i].Active? ==> pcs[i].used <= MAXOPBLOCKS
    ensures 0 <= Unused(pcs) <= MAXOPBLOCKS * ActiveCount(pcs)
    ensures forall i :: 0 <= i < |pcs| && pcs[i].Active? ==> ActiveCount(pcs) >= 1 && Unused(pcs) >= UnusedBy(pcs[i])
  {
    if pcs != [] {
      CountsBound(pcs[1..]);
      assert forall i :: 0 < i < |pcs| ==> pcs[i] == pcs[1..][i - 1];
    }
  }

  ghost predicate OneCommitter(s: State) {
    && (forall i, j :: 0 <= i < j < |s.pcs| ==> !(s.pcs[i] == Committing && s.pcs[j] == Committing))
    && (!s.committing ==> forall i :: 0 <= i < |s.pcs| ==> s.pcs[i] != Committing)
    && (s.committing ==> exists i :: 0 <= i < |s.pcs| && s.pcs[i] == Committing)
  }

  /** What every interleaving keeps. */
  ghost predicate Inv(s: State) {
    && s.outstanding == ActiveCount(s.pcs)
    && (s.committing ==> s.outstanding == 0)
    && (s.outstanding == 0 && !s.committing ==> s.n == 0)
    && OneCommitter(s)
    && (forall i :: 0 <= i < |s.pcs| && s.pcs[i].Active? ==> s.pcs[i].used <= MAXOPBLOCKS)
    && s.n + Unused(s.pcs) <= LOGSIZE
    && (forall i :: 0 <= i < |s.pcs| && s.pcs[i] == Asleep ==> MustWait(s))
  }

  lemma {:induction false} InitInv(s: State)
    requires Init(s)
    ensures Inv(s)
  {
    AllIdle(s.pcs);
  }

  lemma {:induction false} AllIdle(pcs: seq<Pc>)
    requires forall i :: 0 <= i < |pcs| ==> pcs[i] == Idle
    ensures ActiveCount(pcs) == 0 && Unused(pcs) == 0
  {
    if pcs != [] {
      AllIdle(pcs[1..]);
    }
  }

  lemma BeginKeepsInv(s: State, p: nat)
    requires Inv(s) && Enabled(s, Begin(p))
    ensures Inv(Next(s, Begin(p)))
  {
    CountsUpdate(s.pcs, p, Asleep);
    CountsUpdate(s.pcs, p, Active(0));
    CountsBound(s.pcs[p := Active(0)]);
    if s.committing {
      var i :| 0 <= i < |s.pcs| && s.pcs[i] == Committing;
      assert s.pcs[p := Asleep][i] == Committing;
    }
  }

  lemma AppendKeepsInv(s: State, p: nat)
    requires Inv(s) && Enabled(s, Append(p))
    ensures Inv(Next(s, Append(p)))
  {
    CountsUpdate(s.pcs, p, Active(s.pcs[p].used + 1));
    CountsBound(s.pcs);
  }

  lemma EndKeepsInv(s: State, p: nat)
    requires Inv(s) && Enabled(s, End(p))
    ensures Inv(Next(s, End(p)))
  {
    CountsBound(s.pcs);
    CountsUpdate(s.pcs, p, Committing);
    CountsUpdate(s.pcs, p, Idle);
    CountsWoken(s.pcs[p := Idle]);
    assert s.pcs[p := Committing][p] == Committing;
    NoneActive(s.pcs[p := Committing]);
  }

  /** A zero count means that no process is active. */
  lemma {:induction false} NoneActive(pcs: seq<Pc>)
    ensures ActiveCount(pcs) == 0 ==> Unused(pcs) == 0 && forall i :: 0 <= i < |pcs| ==> !pcs[i].Active?
  {
    if pcs != [] {
      NoneActive(pcs[1..]);
      assert forall i :: 0 < i < |pcs| ==> pcs[i] == pcs[1..][i - 1];
    }
  }

  lemma FinishKeepsInv(s: State, p: nat)
    requires Inv(s) && Enabled(s, Finish(p))
    ensures Inv(Next(s, Finish(p)))
  {
    CountsUpdate(s.pcs, p, Idle);
    CountsWoken(s.pcs[p := Idle]);
    NoneActive(s.pcs);
  }

  lemma NextKeepsInv(s: State, step: Step)
    requires Inv(s) && Enabled(s, step)
    ensures Inv(Next(s, step))
  {
    match step
    case Begin(p) => BeginKeepsInv(s, p);
    case Append(p) => AppendKeepsInv(s, p);
    case End(p) => EndKeepsInv(s, p);
    case Finish(p) => FinishKeepsInv(s, p);
  }

  ghost predicate Legal(s: State, steps: seq<Step>)
    decreases |steps|
  {
    steps == [] || (Enabled(s, steps[0]) && Legal(Next(s, steps[0]), steps[1..]))
  }

  ghost function After(s: State, steps: seq<Step>): State
    requires Legal(s, steps)
    decreases |steps|
  {
    if steps == [] then s else After(Next(s, steps[0]), steps[1..])
  }

  ghost predicate Reachable(s: State) {
    exists init: State, steps: seq<Step> :: Init(init) && Legal(init, steps) && After(init, steps) == s
  }

  lemma {:induction false} RunKeepsInv(s: State, steps: seq<Step>)
    requires Inv(s) && Legal(s, steps)
    ensures Inv(After(s, steps))
    decreases |steps|
  {
    if steps != [] {
      NextKeepsInv(s, steps[0]);
      RunKeepsInv(Next(s, steps[0]), steps[1..]);
    }
  }

  /** In every reachable state: a commit runs with no operation active, so it
      holds only whole operations; the blocks logged and the unused allowance
      of the active operations fit in LOGSIZE; hence an append within its
      allowance passes the LOGSIZE guard; and a process asleep in begin_op has
      an active or committing process that will wake it. */
  lemma AdmissionIsSafe(s: State)
    requires Reachable(s)
    ensures Inv(s)
    ensures s.committing ==> forall i :: 0 <= i < |s.pcs| ==> !s.pcs[i].Active?
    ensures forall p: nat :: Enabled(s, Append(p)) ==> s.n < LOGSIZE
    ensures forall p: nat :: Enabled(s, End(p)) ==> !s.committing
    ensures (exists i :: 0 <= i < |s.pcs| && s.pcs[i] == Asleep) ==>
            exists i :: 0 <= i < |s.pcs| && (s.pcs[i].Active? || s.pcs[i] == Committing)
  {
    var init: State, steps: seq<Step> :| Init(init) && Legal(init, steps) && After(init, steps) == s;
    InitInv(init);
    RunKeepsInv(init, steps);
    NoneActive(s.pcs);
    CountsBound(s.pcs);
    SomeActive(s.pcs);
  }

  lemma {:induction false} SomeActive(pcs: seq<Pc>)
    ensures ActiveCount(pcs) > 0 ==> exists i :: 0 <= i < |pcs| && pcs[i].Active?
  {
    if pcs != [] && !pcs[0].Active? {
      SomeActive(pcs[1..]);
      if ActiveCount(pcs) > 0 {
        var i :| 0 <= i < |pcs[1..]| && pcs[1..][i].Active?;
        assert pcs[i + 1].Active?;
      }
    }
  }

  lemma {:induction false} RunsCompose(s: State, a: seq<Step>, b: seq<Step>)
    requires Legal(s, a) && Legal(After(s, a), b)
    ensures Legal(s, a + b) && After(s, a + b) == After(After(s, a), b)
    decreases |a|
  {
    if a == [] {
      assert a + b == b;
    } else {
      RunsCompose(Next(s, a[0]), a[1..], b);
      assert (a + b)[1..] == a[1..] + b;
    }
  }

  ghost function Appends(p: nat, k: nat): seq<Step> {
    if k == 0 then [] else [Append(p)] + Appends(p, k - 1)
  }

  lemma {:induction false} AppendMany(s: State, p: nat, k: nat)
    requires p < |s.pcs| && s.pcs[p].Active? && s.pcs[p].used + k <= MAXOPBLOCKS
    ensures Legal(s, Appends(p, k))
    ensures After(s, Appends(p, k)) == s.(n := s.n + k, pcs := s.pcs[p := Active(s.pcs[p].used + k)])
    decreases k
  {
    if k > 0 {
      AppendMany(Next(s, Append(p)), p, k - 1);
      assert Appends(p, k)[1..] == Appends(p, k - 1);
    } else {
      assert s.pcs[p := s.pcs[p]] == s.pcs;
    }
  }

  lemma ThreeBegins() returns (s0: State, begins: seq<Step>)
    ensures Init(s0) && Legal(s0, begins) && After(s0, begins) == State(0, 3, false, [Active(0), Active(0), Active(0)])
  {
    s0 := State(0, 0, false, [Idle, Idle, Idle]);
    var s1 := Next(s0, Begin(0));
    var s2 := Next(s1, Begin(1));
    var s3 := Next(s2, Begin(2));
    assert s3.pcs == [Active(0), Active(0), Active(0)];
    begins := [Begin(0), Begin(1), Begin(2)];
    assert begins[1..] == [Begin(1), Begin(2)] && begins[1..][1..] == [Begin(2)] && begins[1..][1..][1..] == [];
    assert After(s2, [Begin(2)]) == s3 && After(s1, begins[1..]) == s3;
  }

  /** Three operations admitted at once, appending a, b and c blocks. */
  lemma ThreeOperations(a: nat, b: nat, c: nat)
    requires a <= MAXOPBLOCKS && b <= MAXOPBLOCKS && c <= MAXOPBLOCKS
    ensures Reachable(State(a + b + c, 3, false, [Active(a), Active(b), Active(c)]))
  {
    var s0, begins := ThreeBegins();
    var s3 := After(s0, begins);
    AppendMany(s3, 0, a);
    var s4 := After(s3, Appends(0, a));
    AppendMany(s4, 1, b);
    var s5 := After(s4, Appends(1, b));
    AppendMany(s5, 2, c);
    RunsCompose(s4, Appends(1, b), Appends(2, c));
    RunsCompose(s3, Appends(0, a), Appends(1, b) + Appends(2, c));
    RunsCompose(s0, begins, Appends(0, a) + (Appends(1, b) + Appends(2, c)));
    assert After(s5, Appends(2, c)).pcs == [Active(a), Active(b), Active(c)];
  }

  /** An operation that has appended u blocks passes the guard on the on-disk
      size (which counts the header block) in every reachable state. */
  ghost predicate SurePast(size: nat, u: nat) {
    forall s: State, p: nat :: Reachable(s) && p < |s.pcs| && s.pcs[p] == Active(u) ==> s.n < size - 1
  }

  /** What is left of the allowance: each block that the disk log lacks takes one
      away. */
  lemma GuardExact(size: nat, u: nat)
    requires u <= MAXOPBLOCKS
    ensures SurePast(size, u) <==> u < MAXOPBLOCKS - (LOGSIZE + 1 - size)
  {
    if u < MAXOPBLOCKS - (LOGSIZE + 1 - size) {
      forall s: State, p: nat | Reachable(s) && p < |s.pcs| && s.pcs[p] == Active(u)
        ensures s.n < size - 1
      {
        AdmissionIsSafe(s);
        CountsBound(s.pcs);
      }
    } else {
      ThreeOperations(MAXOPBLOCKS, MAXOPBLOCKS, u);
      var s := State(2 * MAXOPBLOCKS + u, 3, false, [Active(MAXOPBLOCKS), Active(MAXOPBLOCKS), Active(u)]);
      assert Reachable(s) && s.pcs[2] == Active(u);
    }
  }

  /** Every append within the allowance passes exactly when the disk log has room
      for LOGSIZE data blocks. mkfs makes size == LOGSIZE, one block short: there
      an operation is sure of one block less than its allowance. */
  lemma SizeGuardExact(size: nat)
    ensures (forall u: nat :: u < MAXOPBLOCKS ==> SurePast(size, u)) <==> size > LOGSIZE
    ensures forall u: nat :: u <= MAXOPBLOCKS ==> (SurePast(LOGSIZE, u) <==> u < MAXOPBLOCKS - 1)
  {
    forall u: nat | u <= MAXOPBLOCKS
      ensures SurePast(size, u) <==> u < MAXOPBLOCKS - (LOGSIZE + 1 - size)
      ensures SurePast(LOGSIZE, u) <==> u < MAXOPBLOCKS - 1
    {
      GuardExact(size, u);
      GuardExact(LOGSIZE, u);
    }
    assert size <= LOGSIZE ==> !SurePast(size, MAXOPBLOCKS - 1);
  }

  /** log_write tests n before it looks for the block, so an operation can be
      refused for rewriting a block it has already logged. */
  lemma FullLogIsReachable()
    ensures exists s: State, p: nat :: Reachable(s) && p < |s.pcs| && s.pcs[p].Active? && s.n == LOGSIZE
  {
    ThreeOperations(MAXOPBLOCKS, MAXOPBLOCKS, MAXOPBLOCKS);
    var s := State(LOGSIZE, 3, false, [Active(MAXOPBLOCKS), Active(MAXOPBLOCKS), Active(MAXOPBLOCKS)]);
    assert Reachable(s) && s.pcs[2].Active?;
  }

  /** The other guard, on LOGSIZE: an operation is sure to find room just when it
      is below its allowance. */
  lemma RoomExact(u: nat)
    requires u <= MAXOPBLOCKS
    ensures (forall s: State, p: nat :: Reachable(s) && p < |s.pcs| && s.pcs[p] == Active(u) ==> s.n < LOGSIZE) <==>
        u < MAXOPBLOCKS
  {
    GuardExact(LOGSIZE + 1, u);
    assert SurePast(LOGSIZE + 1, u) <==>
        forall s: State, p: nat :: Reachable(s) && p < |s.pcs| && s.pcs[p] == Active(u) ==> s.n < LOGSIZE;
  }
}
