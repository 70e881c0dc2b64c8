/** Two-level page tables over a fixed set of page frames, on values: what an
    address space maps, and who owns each frame. */
module PageTable {

  const N := 1024
  /** The page tables below this index map user addresses (below KERNBASE). */
  const NUSER := 512

  /** Bits of an entry. */
  const P: nat := 0
  const W: nat := 1
  const U: nat := 2

  /** A page table or directory entry: a frame number, and the flag bits that
      are on. */
  datatype Pte = Pte(frame: nat, flags: set<nat>)

  const ZERO := Pte(0, {})

  predicate Present(e: Pte) {
    P in e.flags
  }

  type Table = t: seq<Pte> | |t| == N witness seq(N, _ => ZERO)

  function ZeroTable(): (t: Table)
    ensures forall j :: 0 <= j < N ==> t[j] == ZERO
  {
    seq(N, _ => ZERO)
  }

  /** What a frame is for. Held frames are in the hands of kernel code. */
  datatype Owner = Free | Held | Dir | Leaf(d: nat, i: nat) | User(d: nat, i: nat, j: nat)

  type Frames = seq<Table>
  type Owners = map<nat, Owner>

  ghost predicate IsDir(owner: Owners, d: nat) {
    d in owner && owner[d] == Dir
  }

  /** The page table behind entry i of directory d; all zero when absent. */
  ghost function Sub(tab: Frames, d: nat, i: nat): Table
    requires d < |tab| && i < N
  {
    var e := tab[d][i];
    if Present(e) && e.frame < |tab| then tab[e.frame] else ZeroTable()
  }

  ghost function Entry(tab: Frames, d: nat, i: nat, j: nat): Pte
    requires d < |tab| && i < N && j < N
  {
    Sub(tab, d, i)[j]
  }

  /** All that directory d maps. */
  ghost function View(tab: Frames, d: nat): (v: seq<Table>)
    requires d < |tab|
    ensures |v| == N
  {
    seq(N, i requires 0 <= i < N => Sub(tab, d, i))
  }

  ghost function FreeFrames(owner: Owners): set<nat> {
    set f | f in owner && owner[f] == Free
  }

  /** The free list holds each free frame once. */
  ghost predicate FreeListed(free: seq<nat>, owner: Owners) {
    multiset(free) == multiset(FreeFrames(owner))
  }

  lemma FreeHead(free: seq<nat>, owner: Owners, f: nat, o: Owner)
    requires FreeListed(free, owner) && free != [] && f == free[0] && o != Free
    ensures f in owner && owner[f] == Free && FreeListed(free[1..], owner[f := o])
  {
    assert free == [f] + free[1..];
    assert f in multiset(FreeFrames(owner));
    assert multiset(free[1..]) == multiset(FreeFrames(owner)) - multiset{f};
    assert FreeFrames(owner[f := o]) == FreeFrames(owner) - {f};
  }

  lemma FreePush(free: seq<nat>, owner: Owners, f: nat)
    requires FreeListed(free, owner) && f in owner && owner[f] != Free
    ensures FreeListed([f] + free, owner[f := Free])
  {
    assert FreeFrames(owner[f := Free]) == FreeFrames(owner) + {f};
  }

  lemma FreeKept(free: seq<nat>, owner: Owners, f: nat, o: Owner)
    requires FreeListed(free, owner) && f in owner && owner[f] != Free && o != Free
    ensures FreeListed(free, owner[f := o])
  {
    assert FreeFrames(owner[f := o]) == FreeFrames(owner);
  }

  /** Present directory entries and frames owned as page tables match. */
  ghost predicate LeavesOwned(tab: Frames, owner: Owners) {
    && (forall f :: f in owner ==> f < |tab|)
    && (forall d: nat, i :: IsDir(owner, d) && 0 <= i < N && Present(tab[d][i]) ==>
          tab[d][i].frame in owner && owner[tab[d][i].frame] == Leaf(d, i))
    && (forall f :: f in owner && owner[f].Leaf? ==>
          IsDir(owner, owner[f].d) && owner[f].i < N && Present(tab[owner[f].d][owner[f].i])
              && tab[owner[f].d][owner[f].i].frame == f)
  }

  /** Present user entries and frames owned as user pages match, and an entry
      that is not present is zero. */
  ghost predicate PagesOwned(tab: Frames, owner: Owners)
    requires LeavesOwned(tab, owner)
  {
    && (forall d: nat, i, j :: IsDir(owner, d) && 0 <= i < NUSER && 0 <= j < N && Present(Entry(tab, d, i, j)) ==>
          Entry(tab, d, i, j).frame in owner && owner[Entry(tab, d, i, j).frame] == User(d, i, j))
    && (forall f :: f in owner && owner[f].User? ==>
          IsDir(owner, owner[f].d) && owner[f].i < NUSER && owner[f].j < N
          && Present(Entry(tab, owner[f].d, owner[f].i, owner[f].j))
          && Entry(tab, owner[f].d, owner[f].i, owner[f].j).frame == f)
    && (forall d: nat, i, j :: IsDir(owner, d) && 0 <= i < N && 0 <= j < N && !Present(Entry(tab, d, i, j)) ==>
        Entry(tab, d, i, j) == ZERO)
  }

  /** Every frame has one owner, and the free list, directories and page tables
      agree with it. */
  ghost predicate Inv(free: seq<nat>, tab: Frames, owner: Owners) {
    FreeListed(free, owner) && LeavesOwned(tab, owner) && PagesOwned(tab, owner)
  }

  /** Frames that are neither directories nor page tables do not matter. */
  lemma Scribble(free: seq<nat>, tab: Frames, owner: Owners, f: nat, t: Table)
    requires Inv(free, tab, owner) && f in owner && !owner[f].Dir? && !owner[f].Leaf?
    ensures Inv(free, tab[f := t], owner)
    ensures forall d :: IsDir(owner, d) ==> View(tab[f := t], d) == View(tab, d)
  {
    var tab' := tab[f := t];
    assert forall d, i :: IsDir(owner, d) && 0 <= i < N ==> Sub(tab', d, i) == Sub(tab, d, i);
    assert forall d, i, j :: IsDir(owner, d) && 0 <= i < N && 0 <= j < N ==>
        Entry(tab', d, i, j) == Entry(tab, d, i, j);
  }

  lemma Taken(free: seq<nat>, tab: Frames, owner: Owners)
    requires Inv(free, tab, owner) && free != []
    ensures free[0] in owner && owner[free[0]] == Free && Inv(free[1..], tab, owner[free[0] := Held])
  {
    FreeHead(free, owner, free[0], Held);
  }

  lemma Returned(free: seq<nat>, tab: Frames, owner: Owners, f: nat)
    requires Inv(free, tab, owner) && f in owner && owner[f] == Held
    ensures Inv([f] + free, tab, owner[f := Free])
  {
    FreePush(free, owner, f);
  }

  /** A held, zeroed frame becomes the page table behind an absent entry: no
      view changes. */
  lemma NewLeaf(free: seq<nat>, tab: Frames, owner: Owners, d: nat, i: nat, f: nat)
    requires Inv(free, tab, owner) && IsDir(owner, d) && i < N && !Present(tab[d][i])
    requires f in owner && owner[f] == Held && tab[f] == ZeroTable()
    ensures var tab' := tab[d := tab[d][i := Pte(f, {P, W, U})]];
            && Inv(free, tab', owner[f := Leaf(d, i)])
            && (forall e :: IsDir(owner, e) ==> View(tab', e) == View(tab, e))
  {
    var tab' := tab[d := tab[d][i := Pte(f, {P, W, U})]];
    var owner' := owner[f := Leaf(d, i)];
    assert forall e, k :: IsDir(owner, e) && 0 <= k < N ==> Sub(tab', e, k) == Sub(tab, e, k);
    assert forall e, k, j :: IsDir(owner, e) && 0 <= k < N && 0 <= j < N ==>
        Entry(tab', e, k, j) == Entry(tab, e, k, j);
    FreeKept(free, owner, f, Leaf(d, i));
    assert LeavesOwned(tab', owner');
    assert PagesOwned(tab', owner');
  }

  /** tab with entry j of the page table behind entry i of directory d set. */
  function Stored(tab: Frames, d: nat, i: nat, j: nat, e: Pte): (r: Frames)
    requires d < |tab| && i < N && j < N && tab[d][i].frame < |tab|
    ensures |r| == |tab|
  {
    var t := tab[d][i].frame;
    tab[t := tab[t][j := e]]
  }

  /** The view with one entry set. */
  ghost function With(v: seq<Table>, i: nat, j: nat, e: Pte): (r: seq<Table>)
    requires i < |v| && j < N
    ensures |r| == |v|
  {
    v[i := v[i][j := e]]
  }

  /** Storing an entry changes that entry of that directory's view alone. */
  lemma StoredView(tab: Frames, owner: Owners, d: nat, i: nat, j: nat, e: Pte)
    requires LeavesOwned(tab, owner) && IsDir(owner, d) && i < N && j < N && Present(tab[d][i])
    ensures tab[d][i].frame in owner && LeavesOwned(Stored(tab, d, i, j, e), owner)
    ensures View(Stored(tab, d, i, j, e), d) == With(View(tab, d), i, j, e)
    ensures forall c :: IsDir(owner, c) && c != d ==> View(Stored(tab, d, i, j, e), c) == View(tab, c)
    ensures forall f :: f in owner && f != tab[d][i].frame ==> Stored(tab, d, i, j, e)[f] == tab[f]
    ensures forall c: nat, k, l :: IsDir(owner, c) && 0 <= k < N && 0 <= l < N ==>
              Entry(Stored(tab, d, i, j, e), c, k, l) == if c == d && k == i && l == j then e else Entry(tab, c, k, l)
  {
    var tab' := Stored(tab, d, i, j, e);
    forall c: nat, k | IsDir(owner, c) && 0 <= k < N
      ensures Sub(tab', c, k) == if c == d && k == i then tab[tab[d][i].frame][j := e] else Sub(tab, c, k)
    {
      assert tab'[c] == tab[c];
    }
  }

  /** Frames that are neither free, directories nor page tables may change
      hands between such owners. */
  lemma ChangesHands(free: seq<nat>, tab: Frames, owner: Owners, f: nat, o: Owner)
    requires FreeListed(free, owner) && LeavesOwned(tab, owner) && f in owner
    requires (owner[f].Held? || owner[f].User?) && (o.Held? || o.User?)
    ensures FreeListed(free, owner[f := o]) && LeavesOwned(tab, owner[f := o])
    ensures forall d :: IsDir(owner[f := o], d) <==> IsDir(owner, d)
  {
    FreeKept(free, owner, f, o);
  }

  /** A held frame becomes the user page of an entry that is not present. */
  lemma MapsUser(free: seq<nat>, tab: Frames, owner: Owners, d: nat, i: nat, j: nat, f: nat, flags: set<nat>)
    requires Inv(free, tab, owner) && IsDir(owner, d) && i < NUSER && j < N && Present(tab[d][i])
    requires !Present(Entry(tab, d, i, j)) && f in owner && owner[f] == Held
    ensures Inv(free, Stored(tab, d, i, j, Pte(f, flags + {P})), owner[f := User(d, i, j)])
  {
    StoredView(tab, owner, d, i, j, Pte(f, flags + {P}));
    ChangesHands(free, Stored(tab, d, i, j, Pte(f, flags + {P})), owner, f, User(d, i, j));
  }

  lemma MapsKernel(free: seq<nat>, tab: Frames, owner: Owners, d: nat, i: nat, j: nat, f: nat, flags: set<nat>)
    requires Inv(free, tab, owner) && IsDir(owner, d) && NUSER <= i < N && j < N && Present(tab[d][i])
    ensures tab[d][i].frame in owner && Inv(free, Stored(tab, d, i, j, Pte(f, flags + {P})), owner)
  {
    StoredView(tab, owner, d, i, j, Pte(f, flags + {P}));
  }

  /** A user page is unmapped and its frame is in the hands of the caller. */
  lemma Unmaps(free: seq<nat>, tab: Frames, owner: Owners, d: nat, i: nat, j: nat)
    requires Inv(free, tab, owner) && IsDir(owner, d) && i < NUSER && j < N && Present(tab[d][i])
    requires Present(Entry(tab, d, i, j))
    ensures tab[d][i].frame in owner && Inv(free, Stored(tab, d, i, j, ZERO), owner[Entry(tab, d, i, j).frame := Held])
  {
    StoredView(tab, owner, d, i, j, ZERO);
    ChangesHands(free, Stored(tab, d, i, j, ZERO), owner, Entry(tab, d, i, j).frame, Held);
  }

  /** A user page goes back to the free list: its frame is overwritten, then
      its entry is cleared. */
  lemma Evicts(free: seq<nat>, tab: Frames, owner: Owners, d: nat, i: nat, j: nat, f: nat, junk: Table)
    requires Inv(free, tab, owner) && IsDir(owner, d) && i < NUSER && j < N && Present(tab[d][i])
    requires Present(Entry(tab, d, i, j)) && f == Entry(tab, d, i, j).frame
    ensures f in owner && owner[f] == User(d, i, j) && tab[f := junk][d] == tab[d] && tab[d][i].frame in owner
    ensures Inv([f] + free, Stored(tab[f := junk], d, i, j, ZERO), owner[f := Free])
    ensures View(Stored(tab[f := junk], d, i, j, ZERO), d) == With(View(tab, d), i, j, ZERO)
    ensures Stored(tab[f := junk], d, i, j, ZERO)[d] == tab[d]
  {
    var tab' := Stored(tab, d, i, j, ZERO);
    StoredView(tab, owner, d, i, j, ZERO);
    Unmaps(free, tab, owner, d, i, j);
    Scribble(free, tab', owner[f := Held], f, junk);
    Returned(free, tab'[f := junk], owner[f := Held], f);
    assert Stored(tab[f := junk], d, i, j, ZERO) == tab'[f := junk];
    assert owner[f := Held][f := Free] == owner[f := Free];
  }

  /** A held, zeroed frame becomes a directory that maps nothing. */
  lemma NewDir(free: seq<nat>, tab: Frames, owner: Owners, f: nat)
    requires Inv(free, tab, owner) && f in owner && owner[f] == Held && tab[f] == ZeroTable()
    ensures Inv(free, tab, owner[f := Dir])
    ensures View(tab, f) == seq(N, _ => ZeroTable())
  {
    FreeKept(free, owner, f, Dir);
    assert forall i, j :: 0 <= i < N && 0 <= j < N ==> Entry(tab, f, i, j) == ZERO;
  }

  ghost predicate Belongs(owner: Owners, f: nat, d: nat)
    requires f in owner
  {
    match owner[f]
    case Dir => f == d
    case Leaf(c, _) => c == d
    case User(c, _, _) => c == d
    case _ => false
  }

  /** The owners with all frames of directory d given to o. */
  ghost function Released(owner: Owners, d: nat, o: Owner): (r: Owners)
    ensures r.Keys == owner.Keys
  {
    map f | f in owner :: if Belongs(owner, f, d) then o else owner[f]
  }

  /** A directory without user pages can be given up. */
  lemma Disbanded(free: seq<nat>, tab: Frames, owner: Owners, d: nat)
    requires Inv(free, tab, owner) && IsDir(owner, d)
    requires forall i, j :: 0 <= i < NUSER && 0 <= j < N ==> !Present(Entry(tab, d, i, j))
    ensures Inv(free, tab, Released(owner, d, Held))
  {
    var owner' := Released(owner, d, Held);
    assert FreeFrames(owner') == FreeFrames(owner);
    assert forall c :: IsDir(owner', c) <==> IsDir(owner, c) && c != d;
  }
}
