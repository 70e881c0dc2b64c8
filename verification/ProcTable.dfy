/** proc.c: the process table. Each method is one stretch of code that runs
    under ptable.lock (or on a slot that only its caller uses), so a run of the
    system is any sequence of calls. */
module ProcTable {

  datatype State = Unused | Embryo | Sleeping | Runnable | Running | Zombie
  datatype Parent = Nobody | Slot(i: nat)
  /** What a process sleeps on: a process (in wait), or something else. */
  datatype Chan = Nothing | OfProc(i: nat) | Other(c: nat)
  datatype Proc = Proc(state: State, pid: nat, parent: Parent, chan: Chan, killed: bool)

  /** Where a process is in its own code. */
  datatype Activity = Idle | Forking(child: nat) | Waiting

  datatype WaitResult = Reaped(pid: nat) | NoChild | Asleep

  predicate Live(s: State) {
    s == Sleeping || s == Runnable || s == Running
  }

  predicate Started(s: State) {
    Live(s) || s == Zombie
  }

  predicate IsChild(ps: seq<Proc>, p: nat, q: nat)
    requires p < |ps|
  {
    ps[p].parent == Slot(q)
  }

  ghost predicate HasChild(ps: seq<Proc>, q: nat) {
    exists p: nat :: p < |ps| && IsChild(ps, p, q)
  }

  ghost predicate NoZombieChild(ps: seq<Proc>, q: nat) {
    forall p: nat :: p < |ps| && IsChild(ps, p, q) ==> ps[p].state != Zombie
  }

  predicate InWait(ps: seq<Proc>, q: nat)
    requires q < |ps|
  {
    ps[q].state == Sleeping && ps[q].chan == OfProc(q)
  }

  /** Parents are live and older than their children, every started process but
      init has one, and free slots have none. */
  ghost predicate Tree(ps: seq<Proc>, birth: seq<nat>, init: nat) {
    && |birth| == |ps| && init < |ps| && Live(ps[init].state) && ps[init].parent == Nobody
    && (forall p: nat :: p < |ps| && ps[p].parent.Slot? ==>
          ps[p].parent.i < |ps| && Live(ps[ps[p].parent.i].state) && birth[ps[p].parent.i] < birth[p])
    && (forall p: nat :: p < |ps| && Started(ps[p].state) && p != init ==> ps[p].parent.Slot?)
    && (forall p: nat :: p < |ps| && ps[p].state == Unused ==> ps[p].parent == Nobody)
    && (forall p: nat :: p < |ps| && p != init ==> birth[init] < birth[p])
  }

  /** Nobody sleeps in wait with a zombie child, or without a child. */
  ghost predicate Waiters(ps: seq<Proc>) {
    && (forall p: nat :: p < |ps| && InWait(ps, p) ==> HasChild(ps, p) && NoZombieChild(ps, p))
    && (forall p: nat :: p < |ps| && ps[p].state == Sleeping && ps[p].chan.OfProc? ==> ps[p].chan.i == p)
  }

  /** A process that is forking has an embryo of its own: maker says who took each
      slot last. */
  ghost predicate Forks(ps: seq<Proc>, birth: seq<nat>, at: seq<Activity>, maker: seq<nat>) {
    && |at| == |ps| == |maker| == |birth|
    && (forall p: nat :: p < |ps| && at[p].Forking? ==>
          && at[p].child < |ps| && ps[at[p].child].state == Embryo && Live(ps[p].state)
          && (ps[at[p].child].parent == Nobody || ps[at[p].child].parent == Slot(p)))
    && (forall p: nat :: p < |ps| && at[p].Forking? ==>
        maker[at[p].child] == p && ps[at[p].child].pid > 0 && birth[p] < birth[at[p].child])
  }

  /** No pid is used twice, among slots and those already reaped: slot says
      which slot each pid was given to. */
  ghost predicate Pids(ps: seq<Proc>, nextpid: nat, reaped: set<nat>, slot: map<nat, nat>) {
    && nextpid > 0 && (forall x :: x in reaped ==> 0 < x < nextpid)
    && (forall p: nat :: p < |ps| ==> ps[p].pid < nextpid && ps[p].pid !in reaped)
    && (forall p: nat :: p < |ps| && Started(ps[p].state) ==> ps[p].pid > 0)
    && (forall p: nat :: p < |ps| && ps[p].pid > 0 ==> ps[p].pid in slot && slot[ps[p].pid] == p)
  }

  ghost function Zombies(ps: seq<Proc>): set<nat> {
    set p: nat | p < |ps| && ps[p].state == Zombie :: ps[p].pid
  }

  /** What the table alone does not show: when each slot was last taken and by
      whom, what each process is doing, which slot each pid was given to, the
      pids that have gone through exit and those that wait returned. */
  datatype History = History(birth: seq<nat>, clock: nat, maker: seq<nat>, at: seq<Activity>, slot: map<nat, nat>,
      exited: set<nat>, reaped: set<nat>)

  ghost predicate Inv(ps: seq<Proc>, nextpid: nat, init: nat, h: History) {
    && Tree(ps, h.birth, init) && Waiters(ps) && Forks(ps, h.birth, h.at, h.maker)
    && Pids(ps, nextpid, h.reaped, h.slot)
    && h.exited == Zombies(ps) + h.reaped
    && forall p: nat :: p < |ps| ==> h.birth[p] < h.clock
  }

  /** Parent links followed k times. */
  ghost function Ancestor(ps: seq<Proc>, p: nat, k: nat): nat
    decreases k
  {
    if k == 0 || p >= |ps| || ps[p].parent.Nobody? then p else Ancestor(ps, ps[p].parent.i, k - 1)
  }

  /** From every started process the parent links lead to init, by live
      processes only. */
  lemma {:induction false} ReachesInit(ps: seq<Proc>, birth: seq<nat>, init: nat, p: nat) returns (k: nat)
    requires Tree(ps, birth, init) && p < |ps| && Started(ps[p].state)
    ensures Ancestor(ps, p, k) == init
    decreases birth[p]
  {
    if p == init {
      k := 0;
    } else {
      var j := ReachesInit(ps, birth, init, ps[p].parent.i);
      k := j + 1;
    }
  }

  /** Zombies and free slots have no children. */
  lemma DeadHaveNoChildren(ps: seq<Proc>, birth: seq<nat>, init: nat, q: nat)
    requires Tree(ps, birth, init) && q < |ps| && !Live(ps[q].state)
    ensures !HasChild(ps, q)
  {
  }

  /** wakeup1. */
  function Woken(ps: seq<Proc>, c: Chan): (r: seq<Proc>)
    ensures |r| == |ps|
  {
    seq(|ps|, i requires 0 <= i < |ps| => WokenOne(ps[i], c))
  }

  function WokenOne(p: Proc, c: Chan): Proc {
    if p.state == Sleeping && p.chan == c then p.(state := Runnable) else p
  }

  /** The children of me handed to init. */
  function Adopted(ps: seq<Proc>, me: nat, init: nat): (r: seq<Proc>)
    ensures |r| == |ps|
  {
    seq(|ps|, i requires 0 <= i < |ps| => if IsChild(ps, i, me) then ps[i].(parent := Slot(init)) else ps[i])
  }

  ghost function AdoptedUpTo(ps: seq<Proc>, me: nat, init: nat, n: nat): (r: seq<Proc>)
    requires n <= |ps|
    ensures |r| == |ps|
  {
    seq(|ps|, i requires 0 <= i < |ps| => if i < n && IsChild(ps, i, me) then ps[i].(parent := Slot(init)) else ps[i])
  }

  ghost predicate ZombieChildBelow(ps: seq<Proc>, q: nat, n: nat)
    requires n <= |ps|
  {
    exists p: nat :: p < n && IsChild(ps, p, q) && ps[p].state == Zombie
  }

  /** What exit leaves: the parent awake, the children with init, and init awake
      when one of them is a zombie. */
  ghost function Exited(ps: seq<Proc>, me: nat, init: nat): (r: seq<Proc>)
    requires me < |ps| && ps[me].parent.Slot?
    ensures |r| == |ps|
  {
    var a := Woken(ps, OfProc(ps[me].parent.i));
    var b := Adopted(a, me, init);
    var c := if ZombieChildBelow(a, me, |a|) then Woken(b, OfProc(init)) else b;
    c[me := c[me].(state := Zombie)]
  }

  lemma WokenTree(ps: seq<Proc>, birth: seq<nat>, init: nat, c: Chan)
    requires Tree(ps, birth, init)
    ensures Tree(Woken(ps, c), birth, init)
  {
  }

  lemma WokenWaiters(ps: seq<Proc>, c: Chan)
    requires Waiters(ps)
    ensures Waiters(Woken(ps, c))
  {
    var r := Woken(ps, c);
    forall p: nat | p < |r| && InWait(r, p)
      ensures HasChild(r, p) && NoZombieChild(r, p)
    {
      assert InWait(ps, p);
      var k: nat :| k < |ps| && IsChild(ps, k, p);
      assert IsChild(r, k, p);
      forall l: nat | l < |r| && IsChild(r, l, p)
        ensures r[l].state != Zombie
      {
        assert IsChild(ps, l, p);
      }
    }
  }

  lemma WokenRest(ps: seq<Proc>, birth: seq<nat>, at: seq<Activity>, nextpid: nat, reaped: set<nat>,
      slot: map<nat, nat>, maker: seq<nat>, c: Chan)
    requires Forks(ps, birth, at, maker) && Pids(ps, nextpid, reaped, slot)
    ensures Forks(Woken(ps, c), birth, at, maker) && Pids(Woken(ps, c), nextpid, reaped, slot)
        && Zombies(Woken(ps, c)) == Zombies(ps)
  {
    var r := Woken(ps, c);
    assert forall p: nat :: p < |ps| ==> r[p].pid == ps[p].pid && (r[p].state == Zombie <==> ps[p].state == Zombie);
    forall x
      ensures x in Zombies(r) <==> x in Zombies(ps)
    {
    }
  }

  lemma AdoptedTree(ps: seq<Proc>, birth: seq<nat>, init: nat, me: nat)
    requires Tree(ps, birth, init) && me < |ps| && me != init
    ensures Tree(Adopted(ps, me, init), birth, init)
  {
  }

  /** A process without children ends. */
  lemma EndedTree(ps: seq<Proc>, birth: seq<nat>, init: nat, me: nat)
    requires Tree(ps, birth, init) && me < |ps| && me != init && Live(ps[me].state)
    requires forall p: nat :: p < |ps| ==> !IsChild(ps, p, me)
    ensures Tree(ps[me := ps[me].(state := Zombie)], birth, init)
  {
    forall p: nat | p < |ps|
      ensures ps[p].parent != Slot(me)
    {
      assert !IsChild(ps, p, me);
    }
  }

  lemma AdoptedAwakeTree(a: seq<Proc>, birth: seq<nat>, init: nat, me: nat, c: seq<Proc>)
    requires Tree(a, birth, init) && me < |a| && me != init
        && (c == Woken(Adopted(a, me, init), OfProc(init)) || c == Adopted(a, me, init))
    ensures Tree(c, birth, init) && forall p: nat :: p < |c| ==> !IsChild(c, p, me)
  {
    AdoptedTree(a, birth, init, me);
    WokenTree(Adopted(a, me, init), birth, init, OfProc(init));
  }

  lemma ExitTree(ps: seq<Proc>, birth: seq<nat>, init: nat, me: nat)
    requires Tree(ps, birth, init) && me < |ps| && me != init && ps[me].state == Running && ps[me].parent.Slot?
    ensures Tree(Exited(ps, me, init), birth, init)
  {
    var a := Woken(ps, OfProc(ps[me].parent.i));
    var b := Adopted(a, me, init);
    var c := if ZombieChildBelow(a, me, |a|) then Woken(b, OfProc(init)) else b;
    WokenTree(ps, birth, init, OfProc(ps[me].parent.i));
    AdoptedAwakeTree(a, birth, init, me, c);
    EndedTree(c, birth, init, me);
  }

  /** No process still asleep in wait has got a zombie child. */
  lemma ExitWaiters(ps: seq<Proc>, init: nat, me: nat)
    requires Waiters(ps) && me < |ps| && init < |ps| && me != init && ps[me].state == Running && ps[me].parent.Slot?
        && ps[me].parent.i != me
    ensures Waiters(Exited(ps, me, init))
  {
    var q := ps[me].parent.i;
    var a := Woken(ps, OfProc(q));
    var r := Exited(ps, me, init);
    forall p: nat | p < |r| && InWait(r, p)
      ensures HasChild(r, p) && NoZombieChild(r, p)
    {
      assert InWait(ps, p) && p != q && p != me;
      var k: nat :| k < |ps| && IsChild(ps, k, p);
      assert IsChild(r, k, p);
      forall l: nat | l < |r| && IsChild(r, l, p)
        ensures r[l].state != Zombie
      {
        if IsChild(ps, l, p) {
          assert l != me;
        } else {
          assert p == init && l != me && IsChild(a, l, me) && r[l].state == a[l].state;
          assert !ZombieChildBelow(a, me, |a|);
        }
      }
    }
  }

  /** Same pids, and one slot more is a zombie. */
  lemma OneMoreZombie(ps: seq<Proc>, r: seq<Proc>, me: nat)
    requires |r| == |ps| && me < |ps|
    requires forall p: nat :: p < |ps| ==>
        r[p].pid == ps[p].pid && (r[p].state == Zombie <==> ps[p].state == Zombie || p == me)
    ensures Zombies(r) == Zombies(ps) + {ps[me].pid}
  {
    forall x
      ensures x in Zombies(r) <==> x in Zombies(ps) || x == ps[me].pid
    {
      if x in Zombies(ps) {
        var p: nat :| p < |ps| && ps[p].state == Zombie && ps[p].pid == x;
        assert r[p].state == Zombie;
      }
      assert r[me].state == Zombie;
    }
  }

  /** What exit does to one slot. */
  lemma ExitedAt(ps: seq<Proc>, me: nat, init: nat, p: nat)
    requires me < |ps| && ps[me].parent.Slot? && p < |ps| && ps[me].state == Running
    ensures Exited(ps, me, init)[p].pid == ps[p].pid && Exited(ps, me, init)[p].killed == ps[p].killed
        && Exited(ps, me, init)[p].chan == ps[p].chan
    ensures Exited(ps, me, init)[p].parent == if ps[p].parent == Slot(me) then Slot(init) else ps[p].parent
    ensures p == me ==> Exited(ps, me, init)[p].state == Zombie
    ensures p != me ==>
        Exited(ps, me, init)[p].state == ps[p].state
        || (ps[p].state == Sleeping && Exited(ps, me, init)[p].state == Runnable)
  {
  }

  /** Exactly the sleepers on the parent wake up, and those on init when it
      takes over a zombie. */
  lemma ExitWakes(ps: seq<Proc>, me: nat, init: nat, p: nat)
    requires me < |ps| && ps[me].parent.Slot? && p < |ps| && p != me && ps[p].state == Sleeping
    ensures Exited(ps, me, init)[p].state == Runnable <==>
              ps[p].chan == OfProc(ps[me].parent.i) || (ps[p].chan == OfProc(init) && !NoZombieChild(ps, me))
  {
    var a := Woken(ps, OfProc(ps[me].parent.i));
    assert forall q: nat :: q < |ps| ==>
        (IsChild(a, q, me) <==> IsChild(ps, q, me)) && (a[q].state == Zombie <==> ps[q].state == Zombie);
    assert ZombieChildBelow(a, me, |a|) <==> !NoZombieChild(ps, me);
  }

  lemma ExitRest(ps: seq<Proc>, birth: seq<nat>, at: seq<Activity>, nextpid: nat, reaped: set<nat>,
      slot: map<nat, nat>, maker: seq<nat>, init: nat, me: nat)
    requires Forks(ps, birth, at, maker) && Pids(ps, nextpid, reaped, slot) && me < |ps| && at[me] == Idle
        && ps[me].state == Running && ps[me].parent.Slot?
    ensures Forks(Exited(ps, me, init), birth, at, maker) && Pids(Exited(ps, me, init), nextpid, reaped, slot)
    ensures Zombies(Exited(ps, me, init)) == Zombies(ps) + {ps[me].pid}
  {
    var r := Exited(ps, me, init);
    forall p: nat | p < |ps|
      ensures r[p].pid == ps[p].pid && (r[p].state == Zombie <==> ps[p].state == Zombie || p == me)
          && (r[p].state == Embryo <==> ps[p].state == Embryo)
      ensures Live(r[p].state) <==> Live(ps[p].state) && p != me
      ensures r[p].parent == if ps[p].parent == Slot(me) then Slot(init) else ps[p].parent
    {
      ExitedAt(ps, me, init, p);
    }
    OneMoreZombie(ps, r, me);
    SameForks(ps, r, birth, at, maker, me, init);
    SamePids(ps, r, nextpid, reaped, slot);
  }

  lemma SameForks(ps: seq<Proc>, r: seq<Proc>, birth: seq<nat>, at: seq<Activity>, maker: seq<nat>, me: nat, init: nat)
    requires Forks(ps, birth, at, maker) && |r| == |ps| && me < |ps| && at[me] == Idle
    requires forall p: nat :: p < |ps| ==>
        (r[p].state == Embryo <==> ps[p].state == Embryo) && (Live(ps[p].state) && p != me ==> Live(r[p].state))
        && r[p].pid == ps[p].pid
    requires forall p: nat :: p < |ps| ==> r[p].parent == if ps[p].parent == Slot(me) then Slot(init) else ps[p].parent
    ensures Forks(r, birth, at, maker)
  {
  }

  lemma SamePids(ps: seq<Proc>, r: seq<Proc>, nextpid: nat, reaped: set<nat>, slot: map<nat, nat>)
    requires Pids(ps, nextpid, reaped, slot) && |r| == |ps|
    requires forall p: nat :: p < |ps| ==> r[p].pid == ps[p].pid && (Started(r[p].state) ==> Started(ps[p].state))
    ensures Pids(r, nextpid, reaped, slot)
  {
  }

  /** The slot of a reaped child. */
  function Cleared(p: Proc): Proc {
    Proc(Unused, 0, Nobody, p.chan, false)
  }

  lemma ReapTree(ps: seq<Proc>, birth: seq<nat>, init: nat, p: nat)
    requires Tree(ps, birth, init) && p < |ps| && ps[p].state == Zombie
    ensures Tree(ps[p := Cleared(ps[p])], birth, init) && p != init
  {
  }

  lemma ReapWaiters(ps: seq<Proc>, p: nat, me: nat)
    requires Waiters(ps) && p < |ps| && me < |ps| && IsChild(ps, p, me) && ps[me].state == Running && p != me
    ensures Waiters(ps[p := Cleared(ps[p])])
  {
    var r := ps[p := Cleared(ps[p])];
    forall q: nat | q < |r| && InWait(r, q)
      ensures HasChild(r, q) && NoZombieChild(r, q)
    {
      assert InWait(ps, q) && q != me;
      var k: nat :| k < |ps| && IsChild(ps, k, q);
      assert k != p && IsChild(r, k, q);
      forall l: nat | l < |r| && IsChild(r, l, q)
        ensures r[l].state != Zombie
      {
        assert IsChild(ps, l, q);
      }
    }
  }

  lemma ReapPids(ps: seq<Proc>, nextpid: nat, reaped: set<nat>, slot: map<nat, nat>, p: nat)
    requires Pids(ps, nextpid, reaped, slot) && p < |ps| && ps[p].state == Zombie
    ensures ps[p].pid > 0 && ps[p].pid !in reaped
    ensures Pids(ps[p := Cleared(ps[p])], nextpid, reaped + {ps[p].pid}, slot)
    ensures Zombies(ps) == Zombies(ps[p := Cleared(ps[p])]) + {ps[p].pid}
  {
    var r := ps[p := Cleared(ps[p])];
    forall x
      ensures x in Zombies(ps) <==> x in Zombies(r) || x == ps[p].pid
    {
      if x in Zombies(ps) && x != ps[p].pid {
        var k: nat :| k < |ps| && ps[k].state == Zombie && ps[k].pid == x;
        assert r[k].state == Zombie;
      }
      if x in Zombies(r) {
        var k: nat :| k < |r| && r[k].state == Zombie && r[k].pid == x;
        assert ps[k].state == Zombie;
      }
    }
  }

  /** A zombie child is reaped: its pid moves from the zombies to the reaped. */
  lemma ReapKeeps(ps: seq<Proc>, nextpid: nat, init: nat, h: History, p: nat, me: nat)
    requires Inv(ps, nextpid, init, h) && p < |ps| && me < |ps| && IsChild(ps, p, me)
    requires ps[p].state == Zombie && ps[me].state == Running
    ensures ps[p].pid > 0 && ps[p].pid !in h.reaped && ps[p].pid in h.exited
    ensures Inv(ps[p := Cleared(ps[p])], nextpid, init, h.(reaped := h.reaped + {ps[p].pid}))
  {
    ReapTree(ps, h.birth, init, p);
    ReapWaiters(ps, p, me);
    ReapPids(ps, nextpid, h.reaped, h.slot, p);
  }

  /** The table after exit has gone through the slots below n, starting from a. */
  ghost function Adopting(a: seq<Proc>, me: nat, init: nat, n: nat): (r: seq<Proc>)
    requires n <= |a|
    ensures |r| == |a|
  {
    var b := AdoptedUpTo(a, me, init, n);
    if ZombieChildBelow(a, me, n) then Woken(b, OfProc(init)) else b
  }

  lemma AdoptNext(a: seq<Proc>, me: nat, init: nat, n: nat)
    requires n < |a| && me != init
    ensures Adopting(a, me, init, n)[n].parent == a[n].parent
        && (Adopting(a, me, init, n)[n].state == Zombie <==> a[n].state == Zombie)
    ensures !IsChild(a, n, me) ==> Adopting(a, me, init, n + 1) == Adopting(a, me, init, n)
    ensures IsChild(a, n, me) ==>
              var b := Adopting(a, me, init, n)[n := Adopting(a, me, init, n)[n].(parent := Slot(init))];
              Adopting(a, me, init, n + 1) == if a[n].state == Zombie then Woken(b, OfProc(init)) else b
  {
    assert ZombieChildBelow(a, me, n + 1) <==>
        ZombieChildBelow(a, me, n) || (IsChild(a, n, me) && a[n].state == Zombie);
  }

  lemma AdoptEnds(a: seq<Proc>, me: nat, init: nat)
    ensures Adopting(a, me, init, 0) == a
    ensures Adopting(a, me, init, |a|) ==
        if ZombieChildBelow(a, me, |a|) then Woken(Adopted(a, me, init), OfProc(init)) else Adopted(a, me, init)
  {
    assert AdoptedUpTo(a, me, init, |a|) == Adopted(a, me, init);
  }

  /** The slot of p with another state, channel and killed flag. */
  function Moved(ps: seq<Proc>, p: nat, s: State, c: Chan, k: bool): (r: seq<Proc>)
    requires p < |ps|
    ensures |r| == |ps|
  {
    ps[p := Proc(s, ps[p].pid, ps[p].parent, c, k)]
  }

  lemma MovedWaiters(ps: seq<Proc>, p: nat, s: State, c: Chan, k: bool)
    requires Waiters(ps) && p < |ps| && (s == ps[p].state || (Live(ps[p].state) && Live(s)))
    requires s == Sleeping && c.OfProc? ==> c.i == p && HasChild(ps, p) && NoZombieChild(ps, p)
    ensures Waiters(Moved(ps, p, s, c, k))
  {
    var r := Moved(ps, p, s, c, k);
    forall q: nat | q < |r| && InWait(r, q)
      ensures HasChild(r, q) && NoZombieChild(r, q)
    {
      assert q != p ==> InWait(ps, q);
      var l: nat :| l < |ps| && IsChild(ps, l, q);
      assert IsChild(r, l, q);
      forall m: nat | m < |r| && IsChild(r, m, q)
        ensures r[m].state != Zombie
      {
        assert IsChild(ps, m, q);
      }
    }
  }

  /** A process changes state or channel, or is marked killed. */
  lemma MovedKeeps(ps: seq<Proc>, nextpid: nat, init: nat, h: History, p: nat, s: State, c: Chan, k: bool)
    requires Inv(ps, nextpid, init, h) && p < |ps| && (s == ps[p].state || (Live(ps[p].state) && Live(s)))
    requires s == Sleeping && c.OfProc? ==> c.i == p && HasChild(ps, p) && NoZombieChild(ps, p)
    ensures Inv(Moved(ps, p, s, c, k), nextpid, init, h)
  {
    MovedWaiters(ps, p, s, c, k);
    SameZombies(ps, Moved(ps, p, s, c, k));
  }

  lemma SameZombies(ps: seq<Proc>, r: seq<Proc>)
    requires |r| == |ps|
        && forall p: nat :: p < |ps| ==> r[p].pid == ps[p].pid && (r[p].state == Zombie <==> ps[p].state == Zombie)
    ensures Zombies(r) == Zombies(ps)
  {
    forall x
      ensures x in Zombies(r) <==> x in Zombies(ps)
    {
    }
  }

  /** Children are the same when no parent link or zombie changes. */
  lemma ChildrenStay(ps: seq<Proc>, r: seq<Proc>, q: nat)
    requires |r| == |ps|
        && forall p: nat :: p < |ps| ==>
        r[p].parent == ps[p].parent && (r[p].state == Zombie <==> ps[p].state == Zombie)
    ensures HasChild(r, q) <==> HasChild(ps, q)
    ensures NoZombieChild(r, q) <==> NoZombieChild(ps, q)
    ensures forall p: nat :: p < |ps| ==> (IsChild(r, p, q) <==> IsChild(ps, p, q))
  {
    if HasChild(ps, q) {
      var p: nat :| p < |ps| && IsChild(ps, p, q);
      assert IsChild(r, p, q);
    }
    assert forall p: nat :: p < |ps| ==> (IsChild(r, p, q) <==> IsChild(ps, p, q));
  }

  /** p is the zombie child of me in the lowest slot. */
  ghost predicate FirstZombie(ps: seq<Proc>, me: nat, p: nat) {
    p < |ps| && IsChild(ps, p, me) && ps[p].state == Zombie
        && forall k: nat :: k < p && IsChild(ps, k, me) ==> ps[k].state != Zombie
  }

  /** me running with no channel. */
  function Awake(ps: seq<Proc>, me: nat): (r: seq<Proc>)
    requires me < |ps|
    ensures |r| == |ps|
  {
    Moved(ps, me, Running, Nothing, ps[me].killed)
  }

  /** What wait comes to: a zombie child's pid, an error when there is no child
      to wait for or me was killed, or sleep. */
  ghost function WaitOutcome(ps: seq<Proc>, me: nat, p: nat): WaitResult
    requires me < |ps|
  {
    if !NoZombieChild(ps, me) then Reaped(if p < |ps| then ps[p].pid else 0)
    else if !HasChild(ps, me) || ps[me].killed then NoChild
    else Asleep
  }

  /** Waking up changes neither the outcome of wait nor the child it finds. */
  lemma AwakeSame(ps: seq<Proc>, me: nat, p: nat)
    requires me < |ps| && ps[me].state == Running
    ensures WaitOutcome(Awake(ps, me), me, p) == WaitOutcome(ps, me, p)
    ensures FirstZombie(Awake(ps, me), me, p) ==> FirstZombie(ps, me, p) && Awake(ps, me)[p] == ps[p]
    ensures Moved(Awake(ps, me), me, Sleeping, OfProc(me), Awake(ps, me)[me].killed) ==
        Moved(ps, me, Sleeping, OfProc(me), ps[me].killed)
  {
    ChildrenStay(ps, Awake(ps, me), me);
    if FirstZombie(Awake(ps, me), me, p) {
      FirstStays(ps, Awake(ps, me), me, p);
    }
  }

  lemma FirstStays(ps: seq<Proc>, r: seq<Proc>, me: nat, p: nat)
    requires |r| == |ps| && FirstZombie(r, me, p)
        && forall k: nat :: k < |ps| ==>
        r[k].parent == ps[k].parent && (r[k].state == Zombie <==> ps[k].state == Zombie)
    ensures FirstZombie(ps, me, p)
  {
    assert forall k: nat :: k < |ps| ==> (IsChild(r, k, me) <==> IsChild(ps, k, me));
  }

  lemma EmbryoTree(ps: seq<Proc>, birth: seq<nat>, init: nat, clock: nat, pid: nat, p: nat)
    requires Tree(ps, birth, init) && p < |ps| && ps[p].state == Unused
        && forall k: nat :: k < |ps| ==> birth[k] < clock
    ensures Tree(ps[p := ps[p].(state := Embryo, pid := pid)], birth[p := clock], init)
  {
  }

  lemma EmbryoWaiters(ps: seq<Proc>, pid: nat, p: nat)
    requires Waiters(ps) && p < |ps| && ps[p].state == Unused
    ensures Waiters(ps[p := ps[p].(state := Embryo, pid := pid)])
  {
    var r := ps[p := ps[p].(state := Embryo, pid := pid)];
    forall q: nat | q < |r| && InWait(r, q)
      ensures HasChild(r, q) && NoZombieChild(r, q)
    {
      assert InWait(ps, q);
      ChildrenStay(ps, r, q);
    }
  }

  lemma EmbryoZombies(ps: seq<Proc>, pid: nat, p: nat)
    requires p < |ps| && ps[p].state == Unused
    ensures Zombies(ps[p := ps[p].(state := Embryo, pid := pid)]) == Zombies(ps)
  {
    var r := ps[p := ps[p].(state := Embryo, pid := pid)];
    forall x
      ensures x in Zombies(r) <==> x in Zombies(ps)
    {
      if x in Zombies(ps) {
        var k: nat :| k < |ps| && ps[k].state == Zombie && ps[k].pid == x;
        assert r[k] == ps[k];
      }
      if x in Zombies(r) {
        var k: nat :| k < |r| && r[k].state == Zombie && r[k].pid == x;
        assert r[k] == ps[k];
      }
    }
  }

  /** The history with slot p taken by me under the given pid. */
  ghost function Taken(h: History, me: nat, p: nat, pid: nat): History
    requires me < |h.at| && p < |h.birth| == |h.maker|
  {
    h.(birth := h.birth[p := h.clock], clock := h.clock + 1, maker := h.maker[p := me], at := h.at[me := Forking(p)],
        slot := h.slot[pid := p])
  }

  lemma TakenKeeps(ps: seq<Proc>, nextpid: nat, init: nat, h: History, me: nat, p: nat)
    requires Inv(ps, nextpid, init, h) && me < |ps| && ps[me].state == Running && h.at[me] == Idle && p < |ps|
        && ps[p].state == Unused
    ensures Inv(ps[p := ps[p].(state := Embryo, pid := nextpid)], nextpid + 1, init, Taken(h, me, p, nextpid))
  {
    EmbryoTree(ps, h.birth, init, h.clock, nextpid, p);
    EmbryoWaiters(ps, nextpid, p);
    EmbryoZombies(ps, nextpid, p);
  }

  /** The embryo np that me is forking changes state and parent. */
  function Grown(ps: seq<Proc>, np: nat, s: State, q: Parent): (r: seq<Proc>)
    requires np < |ps|
    ensures |r| == |ps|
  {
    ps[np := Proc(s, ps[np].pid, q, ps[np].chan, ps[np].killed)]
  }

  /** How an embryo may change: back to a free slot, to a child of me, or from
      there to a process that can run. */
  predicate GrowsTo(s: State, q: Parent, a: Activity, me: nat, np: nat) {
    (s == Unused && q == Nobody && a == Idle) || (s == Embryo && q == Slot(me) && a == Forking(np))
        || (s == Runnable && q == Slot(me) && a == Idle)
  }

  lemma GrownTree(ps: seq<Proc>, birth: seq<nat>, init: nat, me: nat, np: nat, s: State, q: Parent)
    requires Tree(ps, birth, init) && me < |ps| && np < |ps| && ps[me].state == Running && ps[np].state == Embryo
        && birth[me] < birth[np]
    requires (s == Unused && q == Nobody) || (s == Embryo && q == Slot(me)) || (s == Runnable && q == Slot(me))
    ensures Tree(Grown(ps, np, s, q), birth, init)
  {
  }

  lemma GrownWaiters(ps: seq<Proc>, me: nat, np: nat, s: State, q: Parent)
    requires Waiters(ps) && me < |ps| && np < |ps| && ps[me].state == Running && ps[np].state == Embryo
        && (s == Unused || s == Embryo || s == Runnable)
    requires (ps[np].parent == Nobody || ps[np].parent == Slot(me)) && (q == Nobody || q == Slot(me))
    ensures Waiters(Grown(ps, np, s, q))
  {
    var r := Grown(ps, np, s, q);
    forall p: nat | p < |r| && InWait(r, p)
      ensures HasChild(r, p) && NoZombieChild(r, p)
    {
      assert InWait(ps, p) && p != me;
      var k: nat :| k < |ps| && IsChild(ps, k, p);
      assert k != np && IsChild(r, k, p);
      forall l: nat | l < |r| && IsChild(r, l, p)
        ensures r[l].state != Zombie
      {
        assert IsChild(ps, l, p);
      }
    }
  }

  lemma GrownForks(ps: seq<Proc>, birth: seq<nat>, at: seq<Activity>, maker: seq<nat>, me: nat, np: nat, s: State,
      q: Parent, a: Activity)
    requires Forks(ps, birth, at, maker) && me < |ps| && ps[me].state == Running && at[me] == Forking(np)
        && GrowsTo(s, q, a, me, np)
    ensures Forks(Grown(ps, np, s, q), birth, at[me := a], maker)
  {
  }

  lemma GrownPids(ps: seq<Proc>, nextpid: nat, reaped: set<nat>, slot: map<nat, nat>, np: nat, s: State, q: Parent)
    requires Pids(ps, nextpid, reaped, slot) && np < |ps| && ps[np].pid > 0
    ensures Pids(Grown(ps, np, s, q), nextpid, reaped, slot)
  {
  }

  lemma GrownKeeps(ps: seq<Proc>, nextpid: nat, init: nat, h: History, me: nat, np: nat, s: State, q: Parent,
      a: Activity)
    requires Inv(ps, nextpid, init, h) && me < |ps| && ps[me].state == Running && h.at[me] == Forking(np)
        && GrowsTo(s, q, a, me, np)
    ensures Inv(Grown(ps, np, s, q), nextpid, init, h.(at := h.at[me := a]))
  {
    GrownTree(ps, h.birth, init, me, np, s, q);
    GrownWaiters(ps, me, np, s, q);
    GrownForks(ps, h.birth, h.at, h.maker, me, np, s, q, a);
    GrownPids(ps, nextpid, h.reaped, h.slot, np, s, q);
    SameZombies(ps, Grown(ps, np, s, q));
  }

  lemma ExitKeeps(ps: seq<Proc>, nextpid: nat, init: nat, h: History, me: nat)
    requires Inv(ps, nextpid, init, h) && me < |ps| && ps[me].state == Running && me != init && h.at[me] == Idle
    ensures ps[me].parent.Slot? && Inv(Exited(ps, me, init), nextpid, init, h.(exited := h.exited + {ps[me].pid}))
  {
    assert ps[me].parent.i != me;
    ExitTree(ps, h.birth, init, me);
    ExitWaiters(ps, init, me);
    ExitRest(ps, h.birth, h.at, nextpid, h.reaped, h.slot, h.maker, init, me);
  }

  lemma WokenKeeps(ps: seq<Proc>, nextpid: nat, init: nat, h: History, c: Chan)
    requires Inv(ps, nextpid, init, h)
    ensures Inv(Woken(ps, c), nextpid, init, h)
  {
    WokenTree(ps, h.birth, init, c);
    WokenWaiters(ps, c);
    WokenRest(ps, h.birth, h.at, nextpid, h.reaped, h.slot, h.maker, c);
  }

  /** The slot of p marked killed, and awake if it slept. */
  function Killed(ps: seq<Proc>, p: nat): (r: seq<Proc>)
    requires p < |ps|
    ensures |r| == |ps|
  {
    Moved(ps, p, if ps[p].state == Sleeping then Runnable else ps[p].state, ps[p].chan, true)
  }

  /** A pid above 0 is that of one slot. */
  lemma PidOnce(ps: seq<Proc>, nextpid: nat, init: nat, h: History, i: nat)
    requires Inv(ps, nextpid, init, h) && i < |ps|
    ensures forall k: nat :: k < |ps| && ps[k].pid == ps[i].pid > 0 ==> k == i
  {
  }

  /** No free slot has a killed flag, so that no process is born killed. */
  ghost predicate FreeUnmarked(ps: seq<Proc>) {
    forall p: nat :: p < |ps| && ps[p].state == Unused ==> !ps[p].killed
  }

  lemma OneUnmarked(ps: seq<Proc>, p: nat, q: Proc)
    requires FreeUnmarked(ps) && p < |ps|
    ensures FreeUnmarked(ps[p := q]) <==> (q.state == Unused ==> !q.killed)
  {
    assert ps[p := q][p] == q;
  }

  lemma WokenUnmarked(ps: seq<Proc>, c: Chan)
    ensures FreeUnmarked(Woken(ps, c)) <==> FreeUnmarked(ps)
  {
    var r := Woken(ps, c);
    assert forall p: nat :: p < |ps| ==>
        (r[p].state == Unused <==> ps[p].state == Unused) && r[p].killed == ps[p].killed;
  }

  lemma ExitUnmarked(ps: seq<Proc>, me: nat, init: nat)
    requires me < |ps| && ps[me].parent.Slot? && FreeUnmarked(ps)
    ensures FreeUnmarked(Exited(ps, me, init))
  {
    var a := Woken(ps, OfProc(ps[me].parent.i));
    var b := Adopted(a, me, init);
    WokenUnmarked(ps, OfProc(ps[me].parent.i));
    assert forall p: nat :: p < |b| ==> b[p].state == a[p].state && b[p].killed == a[p].killed;
    WokenUnmarked(b, OfProc(init));
  }

  class Table {
    const init: nat
    var procs: seq<Proc>
    var nextpid: nat
    ghost var h: History

    ghost predicate Valid()
      reads this
    {
      Inv(procs, nextpid, init, h)
    }

    /** wakeup1. */
    method Wakeup1(c: Chan)
      modifies this`procs
      ensures procs == Woken(old(procs), c)
    {
      var i := 0;
      while i < |procs|
        invariant i <= |procs| == |old(procs)|
        invariant forall k :: 0 <= k < |procs| ==>
            procs[k] == if k < i then WokenOne(old(procs)[k], c) else old(procs)[k]
      {
        if procs[i].state == Sleeping && procs[i].chan == c {
          procs := procs[i := procs[i].(state := Runnable)];
        }
        i := i + 1;
      }
    }

    /** wakeup: all sleepers on c become runnable, and nothing else changes. */
    method Wakeup(c: Chan)
      requires Valid()
      modifies this`procs
      ensures Valid() && procs == Woken(old(procs), c)
      ensures FreeUnmarked(procs) <==> FreeUnmarked(old(procs))
    {
      WokenUnmarked(procs, c);
      WokenKeeps(procs, nextpid, init, h, c);
      Wakeup1(c);
    }

    /** The loop of exit that passes the children of me to init. */
    method Adopt(me: nat)
      requires me != init
      modifies this`procs
      ensures procs == Adopting(old(procs), me, init, |old(procs)|)
    {
      ghost var a := procs;
      AdoptEnds(a, me, init);
      var i := 0;
      while i < |procs|
        invariant i <= |procs| == |a| && procs == Adopting(a, me, init, i)
      {
        AdoptNext(a, me, init, i);
        if procs[i].parent == Slot(me) {
          procs := procs[i := procs[i].(parent := Slot(init))];
          if procs[i].state == Zombie {
            Wakeup1(OfProc(init));
          }
        }
        i := i + 1;
      }
    }

    /** The statements of exit. */
    method Leave(me: nat)
      requires me < |procs| && me != init && procs[me].parent.Slot? && procs[me].state == Running
      modifies this`procs
      ensures procs == Exited(old(procs), me, init)
    {
      Wakeup1(OfProc(procs[me].parent.i));
      AdoptEnds(procs, me, init);
      Adopt(me);
      procs := procs[me := procs[me].(state := Zombie)];
    }

    /** exit, from the point where it takes the lock. */
    method Exit(me: nat)
      requires Valid() && me < |procs| && procs[me].state == Running && me != init && h.at[me] == Idle
      modifies this`procs, this`h
      ensures Valid() && old(procs)[me].parent.Slot? && procs == Exited(old(procs), me, init)
      ensures h == old(h).(exited := old(h).exited + {old(procs)[me].pid})
      ensures FreeUnmarked(old(procs)) ==> FreeUnmarked(procs)
    {
      ExitKeeps(procs, nextpid, init, h, me);
      if FreeUnmarked(procs) {
        ExitUnmarked(procs, me, init);
      }
      h := h.(exited := h.exited + {procs[me].pid});
      Leave(me);
    }

    /** A live process changes state and channel. */
    method Move(p: nat, s: State, c: Chan)
      requires Valid() && p < |procs| && Live(procs[p].state) && Live(s)
      requires s == Sleeping && c.OfProc? ==> c.i == p && HasChild(procs, p) && NoZombieChild(procs, p)
      modifies this`procs
      ensures Valid() && procs == Moved(old(procs), p, s, c, old(procs)[p].killed)
      ensures FreeUnmarked(old(procs)) ==> FreeUnmarked(procs)
    {
      MovedKeeps(procs, nextpid, init, h, p, s, c, procs[p].killed);
      procs := procs[p := procs[p].(state := s, chan := c)];
    }

    /** The scan of wait: the first zombie child, if any. */
    method FindZombie(me: nat) returns (havekids: bool, found: bool, p: nat)
      ensures havekids <==> HasChild(procs, me)
      ensures found <==> !NoZombieChild(procs, me)
      ensures found ==> FirstZombie(procs, me, p)
    {
      p, havekids, found := 0, false, false;
      while p < |procs|
        invariant p <= |procs|
        invariant havekids <==> exists k: nat :: k < p && IsChild(procs, k, me)
        invariant forall k: nat :: k < p && IsChild(procs, k, me) ==> procs[k].state != Zombie
      {
        if procs[p].parent == Slot(me) {
          assert IsChild(procs, p, me);
          havekids := true;
          if procs[p].state == Zombie {
            found := true;
            return;
          }
        }
        p := p + 1;
      }
    }

    /** Process p turns to something else than forking. */
    ghost method Turn(p: nat, a: Activity)
      requires Valid() && p < |procs| && !h.at[p].Forking? && !a.Forking?
      modifies this`h
      ensures Valid() && h == old(h).(at := old(h).at[p := a])
    {
      h := h.(at := h.at[p := a]);
    }

    /** The slot of a zombie child becomes free; no later call can return its
        pid again. */
    method Reap(me: nat, p: nat) returns (pid: nat)
      requires Valid() && me < |procs| && p < |procs| && procs[me].state == Running && IsChild(procs, p, me)
          && procs[p].state == Zombie
      modifies this`procs, this`h
      ensures Valid() && procs == old(procs)[p := Cleared(old(procs)[p])] && pid == old(procs)[p].pid
      ensures pid !in old(h).reaped && pid in old(h).exited && h == old(h).(reaped := old(h).reaped + {pid})
      ensures FreeUnmarked(old(procs)) ==> FreeUnmarked(procs)
    {
      ReapKeeps(procs, nextpid, init, h, p, me);
      pid := procs[p].pid;
      procs := procs[p := Cleared(procs[p])];
      h := h.(reaped := h.reaped + {pid});
    }

    /** sleep(curproc, &ptable.lock) in wait. */
    method SleepInWait(me: nat)
      requires Valid() && me < |procs| && procs[me].state == Running && h.at[me] == Idle && HasChild(procs, me)
          && NoZombieChild(procs, me)
      modifies this`procs, this`h
      ensures Valid() && procs == Moved(old(procs), me, Sleeping, OfProc(me), old(procs)[me].killed)
          && h == old(h).(at := old(h).at[me := Waiting])
      ensures FreeUnmarked(old(procs)) ==> FreeUnmarked(procs)
    {
      Move(me, Sleeping, OfProc(me));
      Turn(me, Waiting);
    }

    /** The scan of wait and what follows from it. */
    method WaitRound(me: nat) returns (r: WaitResult, ghost p: nat)
      requires Valid() && me < |procs| && procs[me].state == Running && h.at[me] == Idle
      modifies this`procs, this`h
      ensures Valid() && r == WaitOutcome(old(procs), me, p)
      ensures r.Reaped? ==> FirstZombie(old(procs), me, p) && procs == old(procs)[p := Cleared(old(procs)[p])]
      ensures r.Reaped? ==>
          r.pid !in old(h).reaped && r.pid in old(h).exited && h == old(h).(reaped := old(h).reaped + {r.pid})
      ensures r.NoChild? ==> procs == old(procs) && h == old(h)
      ensures r.Asleep? ==>
          procs == Moved(old(procs), me, Sleeping, OfProc(me), old(procs)[me].killed)
          && h == old(h).(at := old(h).at[me := Waiting])
      ensures FreeUnmarked(old(procs)) ==> FreeUnmarked(procs)
    {
      var havekids, found, z := FindZombie(me);
      p := z;
      if found {
        var pid := Reap(me, z);
        r := Reaped(pid);
      } else if !havekids || procs[me].killed {
        r := NoChild;
      } else {
        r := Asleep;
        SleepInWait(me);
      }
    }

    /** The end of sleep, and the head of wait's loop. */
    method StartRound(me: nat)
      requires Valid() && me < |procs| && procs[me].state == Running && (h.at[me] == Idle || h.at[me] == Waiting)
      modifies this`procs, this`h
      ensures Valid() && procs == Awake(old(procs), me) && h == old(h).(at := old(h).at[me := Idle])
      ensures h.at[me := Waiting] == old(h).at[me := Waiting]
      ensures FreeUnmarked(old(procs)) ==> FreeUnmarked(procs)
    {
      Move(me, Running, Nothing);
      Turn(me, Idle);
    }

    /** One round of wait, up to its return or its sleep. A process that comes
        back from the sleep starts over with a clean channel. */
    method Wait(me: nat) returns (r: WaitResult, ghost p: nat)
      requires Valid() && me < |procs| && procs[me].state == Running && (h.at[me] == Idle || h.at[me] == Waiting)
      modifies this`procs, this`h
      ensures Valid() && r == WaitOutcome(old(procs), me, p)
      ensures r.Reaped? ==>
          FirstZombie(old(procs), me, p) && procs == Awake(old(procs), me)[p := Cleared(old(procs)[p])]
      ensures r.Reaped? ==>
          r.pid !in old(h).reaped && r.pid in old(h).exited
          && h == old(h).(reaped := old(h).reaped + {r.pid}, at := old(h).at[me := Idle])
      ensures r.NoChild? ==> procs == Awake(old(procs), me) && h == old(h).(at := old(h).at[me := Idle])
      ensures r.Asleep? ==>
          procs == Moved(old(procs), me, Sleeping, OfProc(me), old(procs)[me].killed)
          && h == old(h).(at := old(h).at[me := Waiting])
      ensures FreeUnmarked(old(procs)) ==> FreeUnmarked(procs)
    {
      StartRound(me);
      r, p := WaitRound(me);
      AwakeSame(old(procs), me, p);
    }

    /** The scan of allocproc. */
    method FindUnused() returns (found: bool, p: nat)
      ensures found <==> exists k: nat :: k < |procs| && procs[k].state == Unused
      ensures found ==> p < |procs| && procs[p].state == Unused
      ensures found ==> forall k: nat :: k < p ==> procs[k].state != Unused
    {
      p := 0;
      while p < |procs|
        invariant p <= |procs| && forall k: nat :: k < p ==> procs[k].state != Unused
      {
        if procs[p].state == Unused {
          return true, p;
        }
        p := p + 1;
      }
      found := false;
    }

    /** allocproc: the first free slot becomes an embryo with a pid never used
        before. The rest of the slot, its killed flag included, is as it was
        left. */
    method AllocProc(me: nat) returns (ok: bool, p: nat)
      requires Valid() && me < |procs| && procs[me].state == Running && h.at[me] == Idle
      modifies this`procs, this`nextpid, this`h
      ensures Valid() && (ok <==> exists k: nat :: k < |old(procs)| && old(procs)[k].state == Unused)
      ensures ok ==>
          p < |old(procs)| && old(procs)[p].state == Unused
          && procs == old(procs)[p := old(procs)[p].(state := Embryo, pid := old(nextpid))]
          && forall k: nat :: k < p ==> old(procs)[k].state != Unused
      ensures ok && FreeUnmarked(old(procs)) ==> !procs[p].killed
      ensures ok ==> nextpid == old(nextpid) + 1 && h == Taken(old(h), me, p, old(nextpid))
      ensures !ok ==> procs == old(procs) && nextpid == old(nextpid) && h == old(h)
      ensures FreeUnmarked(old(procs)) ==> FreeUnmarked(procs)
    {
      ok, p := FindUnused();
      if ok {
        TakenKeeps(procs, nextpid, init, h, me, p);
        procs := procs[p := procs[p].(state := Embryo, pid := nextpid)];
        h := Taken(h, me, p, nextpid);
        nextpid := nextpid + 1;
      }
    }

    /** The embryo that me is forking changes state and parent. */
    method Grow(me: nat, np: nat, s: State, q: Parent, ghost a: Activity)
      requires Valid() && me < |procs| && procs[me].state == Running && h.at[me] == Forking(np)
          && GrowsTo(s, q, a, me, np)
      modifies this`procs, this`h
      ensures Valid() && procs == old(procs)[np := old(procs)[np].(state := s, parent := q)]
          && h == old(h).(at := old(h).at[me := a])
    {
      GrownKeeps(procs, nextpid, init, h, me, np, s, q, a);
      procs := procs[np := procs[np].(state := s, parent := q)];
      h := h.(at := h.at[me := a]);
    }

    /** fork gives up, without memory for a stack or for a copy: the slot is
        free again, though it keeps its pid. */
    method ForkFails(me: nat, np: nat)
      requires Valid() && me < |procs| && procs[me].state == Running && h.at[me] == Forking(np)
          && procs[np].parent == Nobody
      modifies this`procs, this`h
      ensures Valid() && h == old(h).(at := old(h).at[me := Idle])
          && procs == old(procs)[np := old(procs)[np].(state := Unused)]
      ensures FreeUnmarked(old(procs)) ==> (FreeUnmarked(procs) <==> !old(procs)[np].killed)
    {
      Grow(me, np, Unused, Nobody, Idle);
      if FreeUnmarked(old(procs)) {
        OneUnmarked(old(procs), np, procs[np]);
      }
    }

    /** np->parent = curproc in fork. */
    method SetParent(me: nat, np: nat)
      requires Valid() && me < |procs| && procs[me].state == Running && h.at[me] == Forking(np)
      modifies this`procs, this`h
      ensures Valid() && h == old(h) && procs == old(procs)[np := old(procs)[np].(parent := Slot(me))]
      ensures FreeUnmarked(old(procs)) ==> FreeUnmarked(procs)
    {
      Grow(me, np, Embryo, Slot(me), Forking(np));
      assert h.at == old(h).at;
    }

    /** The end of fork: the child may run. */
    method ForkStart(me: nat, np: nat) returns (pid: nat)
      requires Valid() && me < |procs| && procs[me].state == Running && h.at[me] == Forking(np)
          && procs[np].parent == Slot(me)
      modifies this`procs, this`h
      ensures Valid() && h == old(h).(at := old(h).at[me := Idle])
          && procs == old(procs)[np := old(procs)[np].(state := Runnable)]
      ensures pid == old(procs)[np].pid > 0
      ensures FreeUnmarked(old(procs)) ==> FreeUnmarked(procs)
    {
      pid := procs[np].pid;
      Grow(me, np, Runnable, Slot(me), Idle);
    }

    /** sleep on something else than a process; the code that calls it goes on
        in Resume. */
    method Sleep(me: nat, c: nat)
      requires Valid() && me < |procs| && procs[me].state == Running
      modifies this`procs
      ensures Valid() && procs == Moved(old(procs), me, Sleeping, Other(c), old(procs)[me].killed)
      ensures FreeUnmarked(old(procs)) ==> FreeUnmarked(procs)
    {
      Move(me, Sleeping, Other(c));
    }

    method Resume(me: nat)
      requires Valid() && me < |procs| && procs[me].state == Running && h.at[me] != Waiting
      modifies this`procs
      ensures Valid() && procs == Awake(old(procs), me)
      ensures FreeUnmarked(old(procs)) ==> FreeUnmarked(procs)
    {
      Move(me, Running, Nothing);
    }

    /** yield. */
    method Yield(me: nat)
      requires Valid() && me < |procs| && procs[me].state == Running
      modifies this`procs
      ensures Valid() && procs == Moved(old(procs), me, Runnable, old(procs)[me].chan, old(procs)[me].killed)
      ensures FreeUnmarked(old(procs)) ==> FreeUnmarked(procs)
    {
      Move(me, Runnable, procs[me].chan);
    }

    /** The choice of scheduler. */
    method Schedule(p: nat)
      requires Valid() && p < |procs| && procs[p].state == Runnable
      modifies this`procs
      ensures Valid() && procs == Moved(old(procs), p, Running, old(procs)[p].chan, old(procs)[p].killed)
      ensures FreeUnmarked(old(procs)) ==> FreeUnmarked(procs)
    {
      Move(p, Running, procs[p].chan);
    }

    /** kill: the first slot with the pid is marked, and awake if it slept. For
        a pid above 0 no other slot has it. */
    method Kill(pid: int) returns (ok: bool, ghost p: nat)
      requires Valid()
      modifies this`procs
      ensures Valid() && (ok <==> exists k: nat :: k < |old(procs)| && old(procs)[k].pid == pid)
      ensures ok ==>
          p < |old(procs)| && old(procs)[p].pid == pid && procs == Killed(old(procs), p)
          && (forall k: nat :: k < p ==> old(procs)[k].pid != pid)
          && forall k: nat :: k < |procs| && old(procs)[k].pid == pid > 0 ==> k == p
      ensures !ok ==> procs == old(procs)
      ensures ok && FreeUnmarked(old(procs)) ==> (FreeUnmarked(procs) <==> old(procs)[p].state != Unused)
    {
      ok, p := false, 0;
      var i := FindPid(pid);
      if i < |procs| {
        PidOnce(procs, nextpid, init, h, i);
        ok, p := true, i;
        Mark(i);
      }
    }

    /** The scan of kill. */
    method FindPid(pid: int) returns (i: nat)
      ensures i <= |procs| && (forall k: nat :: k < i ==> procs[k].pid != pid) && (i < |procs| ==> procs[i].pid == pid)
    {
      i := 0;
      while i < |procs| && procs[i].pid != pid
        invariant i <= |procs| && forall k: nat :: k < i ==> procs[k].pid != pid
      {
        i := i + 1;
      }
    }

    method Mark(i: nat)
      requires Valid() && i < |procs|
      modifies this`procs
      ensures Valid() && procs == Killed(old(procs), i)
      ensures FreeUnmarked(old(procs)) ==> (FreeUnmarked(procs) <==> old(procs)[i].state != Unused)
    {
      ghost var s := if procs[i].state == Sleeping then Runnable else procs[i].state;
      MovedKeeps(procs, nextpid, init, h, i, s, procs[i].chan, true);
      var p := procs[i].(killed := true);
      if p.state == Sleeping {
        p := p.(state := Runnable);
      }
      assert p == Proc(s, procs[i].pid, procs[i].parent, procs[i].chan, true);
      procs := procs[i := p];
      if FreeUnmarked(old(procs)) {
        OneUnmarked(old(procs), i, p);
      }
    }

    /** userinit: init is the only process. */
    constructor (n: nat, i: nat)
      requires i < n
      ensures Valid() && init == i && |procs| == n && h.exited == {} == h.reaped
      ensures procs[i] == Proc(Runnable, 1, Nobody, Nothing, false) && h.at == seq(n, _ => Idle)
      ensures forall p: nat :: p < n && p != i ==> procs[p] == Proc(Unused, 0, Nobody, Nothing, false)
      ensures FreeUnmarked(procs)
    {
      init, nextpid := i, 2;
      procs := seq(n, k => if k == i then Proc(Runnable, 1, Nobody, Nothing, false)
          else Proc(Unused, 0, Nobody, Nothing, false));
      h := History(seq(n, k => if k == i then 0 else 1), 2, seq(n, _ => 0), seq(n, _ => Idle), map[1 := i], {}, {});
    }
  }

  /** A run in which a process is born killed: kill(0) marks a free slot, and the
      next fork takes it. */
  method BornKilled(n: nat, i: nat) returns (t: Table, p: nat)
    requires i < n && n > 1
    ensures t.Valid() && p < |t.procs| && t.procs[p].state == Runnable && t.procs[p].parent == Slot(i)
    ensures t.procs[p].killed
  {
    t := new Table(n, i);
    t.Schedule(i);
    ghost var q := if i == 0 then 1 else 0;
    assert t.procs[q].pid == 0 && t.procs[q].state == Unused;
    var _, first := t.Kill(0);
    assert first == q;
    var ok;
    ok, p := t.AllocProc(i);
    t.SetParent(i, p);
    var _ := t.ForkStart(i, p);
  }
}
