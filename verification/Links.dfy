/** Link counts: what sys_link, sys_unlink, create and iput do to directories
    and counts, on values. */
module Links {

  const ROOT: nat := 1
  /** nlink is a 16-bit signed number. */
  const MAXLINK: nat := 32767

  datatype Kind = Free | File | Dev | Dir
  /** An entry with inum 0 is empty. */
  datatype Entry = Entry(inum: nat, name: string)
  datatype Inode = Inode(kind: Kind, nlink: int, entries: seq<Entry>)

  const FREED := Inode(Free, 0, [])
  const EMPTY := Entry(0, "")

  /** The length of a name in a directory; longer ones are cut. */
  const DIRSIZ: nat := 14

  function Cut(name: string): string {
    if |name| > DIRSIZ then name[..DIRSIZ] else name
  }

  function Short(x: int): int {
    (x + 32768) % 65536 - 32768
  }

  /** Where each directory but the root has its name; a directory is attached
      while it has one. */
  type Homes = map<nat, (nat, nat)>

  predicate Attached(home: Homes, d: nat) {
    d == ROOT || d in home
  }

  /** Entry k of inode d stands for a link: not ".", and ".." only while d is
      attached. */
  ghost predicate Counted(ino: seq<Inode>, home: Homes, d: nat, k: nat) {
    d < |ino| && k < |ino[d].entries| && k != 0 && (k == 1 ==> Attached(home, d)) && ino[d].entries[k].inum != 0
  }

  /** The entries that name inode i. */
  ghost function RefsTo(ino: seq<Inode>, home: Homes, i: nat): set<(nat, nat)> {
    set d: nat, k: nat | d < |ino| && k < |ino[d].entries| && Counted(ino, home, d, k)
        && ino[d].entries[k].inum == i :: (d, k)
  }

  lemma InRefs(ino: seq<Inode>, home: Homes, i: nat, d: nat, k: nat)
    ensures (d, k) in RefsTo(ino, home, i) <==> Counted(ino, home, d, k) && ino[d].entries[k].inum == i
  {
  }

  /** Directories start with "." and "..", entries name inodes, and only
      directories have entries. */
  ghost predicate Shape(ino: seq<Inode>, home: Homes) {
    && ROOT < |ino| && ino[0].kind == Free && ino[ROOT].kind == Dir && |ino[ROOT].entries| >= 2
    && ino[ROOT].entries[1].inum == ROOT
    && (forall d: nat, k: nat :: d < |ino| && k < |ino[d].entries| ==> ino[d].entries[k].inum < |ino|)
    && (forall d: nat :: d < |ino| && ino[d].kind != Dir ==> ino[d].entries == [] && !Attached(home, d))
    && (forall d: nat :: d < |ino| && ino[d].kind == Dir ==>
        |ino[d].entries| >= 2 && ino[d].entries[0] == Entry(d, ".") && ino[d].entries[1].inum != 0
        && ino[d].entries[1].name == "..")
    && (forall d: nat :: d in home ==> d < |ino| && d != ROOT)
  }

  /** Attached directory c has its name at home[c], in the directory that its
      ".." names. */
  ghost predicate HomeOk(ino: seq<Inode>, home: Homes, c: nat)
    requires Shape(ino, home) && c in home
  {
    && Counted(ino, home, home[c].0, home[c].1) && home[c].1 >= 2 && ino[c].kind == Dir
    && ino[home[c].0].entries[home[c].1].inum == c && ino[c].entries[1].inum == home[c].0
  }

  /** An entry that names a directory is that directory's home. */
  ghost predicate EntryOk(ino: seq<Inode>, home: Homes, d: nat, k: nat)
    requires Shape(ino, home) && d < |ino| && 2 <= k < |ino[d].entries|
  {
    var i := ino[d].entries[k].inum;
    i != 0 && ino[i].kind == Dir ==> i in home && home[i] == (d, k)
  }

  ghost predicate Tree(ino: seq<Inode>, home: Homes)
    requires Shape(ino, home)
  {
    && (forall c: nat :: c in home ==> HomeOk(ino, home, c))
    && (forall d: nat, k: nat :: d < |ino| && 2 <= k < |ino[d].entries| ==> EntryOk(ino, home, d, k))
  }

  /** Every count is the number of entries that name the inode and the number of
      counts that are ahead of an entry; free inodes have neither entries nor
      users. */
  ghost predicate Counts(ino: seq<Inode>, home: Homes, pending: seq<nat>, refs: seq<nat>) {
    |pending| == |ino| == |refs| && forall i: nat :: i < |ino| ==> CountOk(ino, home, pending, refs, i)
  }

  /** The count of a single inode. */
  ghost predicate CountOk(ino: seq<Inode>, home: Homes, pending: seq<nat>, refs: seq<nat>, i: nat)
    requires i < |ino| == |pending| == |refs|
  {
    if ino[i].kind != Free then ino[i].nlink == |RefsTo(ino, home, i)| + pending[i] <= MAXLINK
    else RefsTo(ino, home, i) == {} && pending[i] == 0 && refs[i] == 0
  }

  ghost function Sums(a: seq<nat>, b: seq<nat>): (r: seq<nat>)
    requires |a| == |b|
    ensures |r| == |a| && forall j :: 0 <= j < |a| ==> r[j] == a[j] + b[j]
  {
    seq(|a|, j requires 0 <= j < |a| => a[j] + b[j])
  }

  ghost predicate Inv(ino: seq<Inode>, home: Homes, pending: seq<nat>, refs: seq<nat>) {
    Shape(ino, home) && Tree(ino, home) && Counts(ino, home, pending, refs)
  }

  /** No entry names a freed inode, but for the ".." of a directory that is not
      attached. */
  lemma NoDanglingEntry(ino: seq<Inode>, home: Homes, pending: seq<nat>, refs: seq<nat>, d: nat, k: nat)
    requires Inv(ino, home, pending, refs) && d < |ino| && k < |ino[d].entries| && ino[d].entries[k].inum != 0
    requires k == 1 ==> Attached(home, d)
    ensures ino[ino[d].entries[k].inum].kind != Free
  {
    assert CountOk(ino, home, pending, refs, ino[d].entries[k].inum);
    if k > 0 {
      InRefs(ino, home, ino[d].entries[k].inum, d, k);
    }
  }

  /** Only attached directories have entries besides the dots. */
  ghost predicate NoStray(ino: seq<Inode>, home: Homes) {
    forall d: nat, k: nat :: !Stray(ino, home, d, k)
  }

  /** An entry in a directory that is not attached. */
  predicate Stray(ino: seq<Inode>, home: Homes, d: nat, k: nat) {
    d < |ino| && 2 <= k < |ino[d].entries| && ino[d].entries[k].inum != 0 && !Attached(home, d)
  }

  /** A directory with no count ahead on it is attached just when its link count
      is above zero. */
  lemma AttachedIsLinked(ino: seq<Inode>, home: Homes, pending: seq<nat>, refs: seq<nat>, d: nat)
    requires Inv(ino, home, pending, refs) && NoStray(ino, home) && d < |ino| && ino[d].kind == Dir && pending[d] == 0
    ensures Attached(home, d) <==> ino[d].nlink > 0
  {
    assert CountOk(ino, home, pending, refs, d);
    if d == ROOT {
      InRefs(ino, home, d, d, 1);
    } else if d in home {
      assert HomeOk(ino, home, d);
      InRefs(ino, home, d, home[d].0, home[d].1);
    } else if RefsTo(ino, home, d) != {} {
      var r :| r in RefsTo(ino, home, d);
      InRefs(ino, home, d, r.0, r.1);
      assert r.1 >= 2 ==> EntryOk(ino, home, r.0, r.1);
      assert r.0 in home ==> HomeOk(ino, home, r.0) && !Stray(ino, home, home[r.0].0, home[r.0].1);
    }
  }

  /** Parent directories are older than their children. */
  ghost predicate Ranked(home: Homes, depth: seq<nat>) {
    forall c: nat :: c in home ==> c < |depth| && home[c].0 < |depth| && depth[home[c].0] < depth[c]
  }

  /** The directory k steps above d. */
  ghost function Above(home: Homes, d: nat, k: nat): nat
    decreases k
  {
    if k == 0 || d == ROOT || d !in home then d else Above(home, home[d].0, k - 1)
  }

  /** The names above d lead up to the root. */
  ghost predicate Reaches(home: Homes, d: nat) {
    exists k: nat :: Above(home, d, k) == ROOT
  }

  /** From every attached directory the names lead up to the root. */
  lemma {:induction false} ReachesRoot(ino: seq<Inode>, home: Homes, depth: seq<nat>, d: nat)
    requires Shape(ino, home) && Tree(ino, home) && NoStray(ino, home) && Ranked(home, depth)
    requires d < |depth| && Attached(home, d)
    ensures Reaches(home, d)
    decreases depth[d]
  {
    if d == ROOT {
      assert Above(home, d, 0) == ROOT;
    } else {
      assert HomeOk(ino, home, d) && !Stray(ino, home, home[d].0, home[d].1);
      ReachesRoot(ino, home, depth, home[d].0);
      var k: nat :| Above(home, home[d].0, k) == ROOT;
      assert Above(home, d, k + 1) == ROOT;
    }
  }

  /** A new directory has no children yet, so it can take any rank. */
  lemma RankedMore(ino: seq<Inode>, home: Homes, depth: seq<nat>, i: nat, d: nat, k: nat)
    requires Shape(ino, home) && Tree(ino, home) && Ranked(home, depth) && |depth| == |ino| && d < |ino| && i < |ino|
    requires ino[i].kind == Free && d != i
    ensures Ranked(home[i := (d, k)], depth[i := depth[d] + 1])
  {
    forall c: nat | c in home
      ensures home[c].0 != i && c != i
    {
      assert HomeOk(ino, home, c);
    }
  }

  /** No name occurs twice in a directory. */
  ghost predicate NamesApart(ino: seq<Inode>) {
    forall d: nat :: d < |ino| ==> Apart(ino[d].entries)
  }

  ghost predicate Apart(es: seq<Entry>) {
    forall j: nat, k: nat :: !Clash(es, j, k)
  }

  predicate Clash(es: seq<Entry>, j: nat, k: nat) {
    j < k < |es| && es[j].inum != 0 && es[k].inum != 0 && Cut(es[j].name) == Cut(es[k].name)
  }

  predicate Matches(es: seq<Entry>, k: nat, name: string) {
    k < |es| && es[k].inum != 0 && Cut(es[k].name) == Cut(name)
  }

  lemma CutMatches(es: seq<Entry>, name: string)
    requires forall j: nat :: !Matches(es, j, name)
    ensures forall j: nat :: !Matches(es, j, Cut(name))
  {
    forall j: nat
      ensures !Matches(es, j, Cut(name))
    {
      assert !Matches(es, j, name);
    }
  }

  lemma PlacedApart(es: seq<Entry>, k: nat, e: Entry)
    requires Apart(es) && k <= |es| && (e.inum != 0 ==> forall j: nat :: !Matches(es, j, e.name))
    ensures Apart(Placed(es, k, e))
  {
    var r := Placed(es, k, e);
    forall i: nat, j: nat
      ensures !Clash(r, i, j)
    {
      if Clash(r, i, j) {
        assert i != k ==> r[i] == es[i] && (j == k ==> !Matches(es, i, e.name));
        assert j != k ==> r[j] == es[j] && (i == k ==> !Matches(es, j, e.name));
        assert Clash(es, i, j);
      }
    }
  }

  lemma EnteredApart(ino: seq<Inode>, d: nat, k: nat, e: Entry)
    requires NamesApart(ino) && d < |ino| && k <= |ino[d].entries|
    requires e.inum != 0 ==> forall j: nat :: !Matches(ino[d].entries, j, e.name)
    ensures NamesApart(Entered(ino, d, k, e))
  {
    PlacedApart(ino[d].entries, k, e);
  }

  lemma UnlinkedApart(ino: seq<Inode>, d: nat, k: nat)
    requires NamesApart(ino) && d < |ino| && k < |ino[d].entries| && ino[d].entries[k].inum < |ino|
    ensures NamesApart(Unlinked(ino, d, k))
  {
    EnteredApart(ino, d, k, EMPTY);
  }

  lemma MadeDirApart(ino: seq<Inode>, d: nat, k: nat, i: nat, name: string)
    requires NamesApart(ino) && d < |ino| && i < |ino| && d != i && k <= |ino[d].entries|
    requires forall j: nat :: !Matches(ino[d].entries, j, name)
    ensures NamesApart(MadeDir(ino, d, k, i, name))
  {
    var b := Bumped(ino[i := NewDir(i, d)], d, 1);
    assert b[d].entries == ino[d].entries;
    EnteredApart(b, d, k, Entry(i, name));
  }

  /** The entries with e at position k, which may be one past the end. */
  function Placed(es: seq<Entry>, k: nat, e: Entry): (r: seq<Entry>)
    requires k <= |es|
    ensures |r| == if k < |es| then |es| else |es| + 1
    ensures r[k] == e && forall j :: 0 <= j < |es| && j != k ==> r[j] == es[j]
  {
    if k < |es| then es[k := e] else es + [e]
  }

  function Entered(ino: seq<Inode>, d: nat, k: nat, e: Entry): (r: seq<Inode>)
    requires d < |ino| && k <= |ino[d].entries|
    ensures |r| == |ino|
  {
    ino[d := ino[d].(entries := Placed(ino[d].entries, k, e))]
  }

  predicate EmptyAt(ino: seq<Inode>, d: nat, k: nat)
    requires d < |ino|
  {
    2 <= k <= |ino[d].entries| && (k < |ino[d].entries| ==> ino[d].entries[k].inum == 0)
  }

  /** A new entry is one more reference to what it names. */
  lemma RefsEntered(ino: seq<Inode>, home: Homes, d: nat, k: nat, e: Entry, j: nat)
    requires d < |ino| && EmptyAt(ino, d, k) && e.inum != 0
    ensures j == e.inum ==> RefsTo(Entered(ino, d, k, e), home, j) == RefsTo(ino, home, j) + {(d, k)}
    ensures j != e.inum ==> RefsTo(Entered(ino, d, k, e), home, j) == RefsTo(ino, home, j)
    ensures (d, k) !in RefsTo(ino, home, j)
  {
    var r := Entered(ino, d, k, e);
    forall c: nat, l: nat
      ensures (c, l) in RefsTo(r, home, j) <==> (c, l) in RefsTo(ino, home, j) || (j == e.inum && c == d && l == k)
    {
      InRefs(r, home, j, c, l);
      InRefs(ino, home, j, c, l);
    }
    InRefs(ino, home, j, d, k);
  }

  /** A cleared entry is one reference less. */
  lemma RefsCleared(ino: seq<Inode>, home: Homes, d: nat, k: nat, j: nat)
    requires d < |ino| && 2 <= k < |ino[d].entries| && ino[d].entries[k].inum != 0
    ensures j == ino[d].entries[k].inum ==>
        RefsTo(Entered(ino, d, k, EMPTY), home, j) == RefsTo(ino, home, j) - {(d, k)}
    ensures j != ino[d].entries[k].inum ==> RefsTo(Entered(ino, d, k, EMPTY), home, j) == RefsTo(ino, home, j)
    ensures (d, k) in RefsTo(ino, home, ino[d].entries[k].inum)
  {
    var r := Entered(ino, d, k, EMPTY);
    forall c: nat, l: nat
      ensures (c, l) in RefsTo(r, home, j) <==>
          (c, l) in RefsTo(ino, home, j) && !(j == ino[d].entries[k].inum && c == d && l == k)
    {
      InRefs(r, home, j, c, l);
      InRefs(ino, home, j, c, l);
    }
    InRefs(ino, home, ino[d].entries[k].inum, d, k);
  }

  /** Counts alone may change without touching the references. */
  lemma RefsSame(ino: seq<Inode>, r: seq<Inode>, home: Homes, j: nat)
    requires |r| == |ino| && forall d: nat :: d < |ino| ==> r[d].entries == ino[d].entries
    ensures RefsTo(r, home, j) == RefsTo(ino, home, j)
  {
    forall c: nat, l: nat
      ensures (c, l) in RefsTo(r, home, j) <==> (c, l) in RefsTo(ino, home, j)
    {
      InRefs(r, home, j, c, l);
      InRefs(ino, home, j, c, l);
    }
  }

  /** Inode i with its count changed by x, as 16-bit arithmetic has it. */
  function Bumped(ino: seq<Inode>, i: nat, x: int): (r: seq<Inode>)
    requires i < |ino|
    ensures |r| == |ino|
  {
    ino[i := ino[i].(nlink := Short(ino[i].nlink + x))]
  }

  lemma ShortFits(x: int)
    requires -32768 <= x <= MAXLINK + 1
    ensures Short(x) == x <==> x <= MAXLINK
  {
  }

  /** Kinds and entries make the tree. */
  lemma SameTree(ino: seq<Inode>, r: seq<Inode>, home: Homes)
    requires Shape(ino, home) && Tree(ino, home) && |r| == |ino|
        && forall d: nat :: d < |ino| ==> r[d].kind == ino[d].kind && r[d].entries == ino[d].entries
    ensures Shape(r, home) && Tree(r, home)
  {
    forall c: nat | c in home
      ensures HomeOk(r, home, c)
    {
      assert HomeOk(ino, home, c);
    }
    forall d: nat, k: nat | d < |r| && 2 <= k < |r[d].entries|
      ensures EntryOk(r, home, d, k)
    {
      assert EntryOk(ino, home, d, k);
    }
  }

  lemma BumpedCounts(ino: seq<Inode>, home: Homes, pending: seq<nat>, refs: seq<nat>, i: nat, x: int)
    requires Counts(ino, home, pending, refs) && i < |ino| && ino[i].kind != Free && pending[i] + x >= 0 && -1 <= x <= 1
    ensures Counts(Bumped(ino, i, x), home, pending[i := pending[i] + x], refs) <==> ino[i].nlink + x <= MAXLINK
  {
    var r, q := Bumped(ino, i, x), pending[i := pending[i] + x];
    assert CountOk(ino, home, pending, refs, i);
    ShortFits(ino[i].nlink + x);
    forall j: nat | j < |ino|
      ensures CountOk(r, home, q, refs, j) <==> j != i || ino[i].nlink + x <= MAXLINK
    {
      RefsSame(ino, r, home, j);
      assert CountOk(ino, home, pending, refs, j);
    }
    assert CountOk(r, home, q, refs, i) <==> ino[i].nlink + x <= MAXLINK;
  }

  /** nlink++ before the entry is written. It keeps the counts right just when
      there is room for one more. */
  lemma CountAhead(ino: seq<Inode>, home: Homes, pending: seq<nat>, refs: seq<nat>, i: nat)
    requires Inv(ino, home, pending, refs) && i < |ino| && ino[i].kind != Free
    ensures Inv(Bumped(ino, i, 1), home, pending[i := pending[i] + 1], refs) <==> ino[i].nlink < MAXLINK
  {
    BumpedCounts(ino, home, pending, refs, i, 1);
    SameTree(ino, Bumped(ino, i, 1), home);
  }

  /** nlink-- after the entry is gone, or when it never came. */
  lemma CountBack(ino: seq<Inode>, home: Homes, pending: seq<nat>, refs: seq<nat>, i: nat)
    requires Inv(ino, home, pending, refs) && i < |ino| && ino[i].kind != Free && pending[i] > 0
    ensures Inv(Bumped(ino, i, -1), home, pending[i := pending[i] - 1], refs)
  {
    assert CountOk(ino, home, pending, refs, i);
    BumpedCounts(ino, home, pending, refs, i, -1);
    SameTree(ino, Bumped(ino, i, -1), home);
  }

  lemma EnterShape(ino: seq<Inode>, home: Homes, d: nat, k: nat, e: Entry)
    requires Shape(ino, home) && d < |ino| && ino[d].kind == Dir && 2 <= k <= |ino[d].entries| && e.inum < |ino|
    ensures Shape(Entered(ino, d, k, e), home)
  {
  }

  lemma EnterTree(ino: seq<Inode>, home: Homes, d: nat, k: nat, e: Entry)
    requires Shape(ino, home) && Tree(ino, home) && d < |ino| && ino[d].kind == Dir && EmptyAt(ino, d, k)
    requires 0 < e.inum < |ino| && ino[e.inum].kind != Dir && ino[e.inum].kind != Free
    ensures Shape(Entered(ino, d, k, e), home) && Tree(Entered(ino, d, k, e), home)
  {
    var r := Entered(ino, d, k, e);
    EnterShape(ino, home, d, k, e);
    forall c: nat | c in home
      ensures HomeOk(r, home, c)
    {
      assert HomeOk(ino, home, c);
    }
    forall c: nat, l: nat | c < |r| && 2 <= l < |r[c].entries|
      ensures EntryOk(r, home, c, l)
    {
      if c != d || l != k {
        assert EntryOk(ino, home, c, l);
      }
    }
  }

  lemma EnterCounts(ino: seq<Inode>, home: Homes, pending: seq<nat>, refs: seq<nat>, d: nat, k: nat, e: Entry)
    requires Counts(ino, home, pending, refs) && d < |ino| && EmptyAt(ino, d, k)
    requires 0 < e.inum < |ino| && ino[e.inum].kind != Free && pending[e.inum] > 0
    ensures Counts(Entered(ino, d, k, e), home, pending[e.inum := pending[e.inum] - 1], refs)
  {
    var r, q := Entered(ino, d, k, e), pending[e.inum := pending[e.inum] - 1];
    forall j: nat | j < |ino|
      ensures CountOk(r, home, q, refs, j)
    {
      RefsEntered(ino, home, d, k, e, j);
      assert CountOk(ino, home, pending, refs, j);
    }
  }

  /** dirlink of a file or device whose count is ahead. */
  lemma EnterKeeps(ino: seq<Inode>, home: Homes, pending: seq<nat>, refs: seq<nat>, d: nat, k: nat, e: Entry)
    requires Inv(ino, home, pending, refs) && d < |ino| && ino[d].kind == Dir && EmptyAt(ino, d, k)
    requires 0 < e.inum < |ino| && ino[e.inum].kind != Dir && ino[e.inum].kind != Free && pending[e.inum] > 0
    ensures Inv(Entered(ino, d, k, e), home, pending[e.inum := pending[e.inum] - 1], refs)
  {
    EnterCounts(ino, home, pending, refs, d, k, e);
    EnterTree(ino, home, d, k, e);
  }

  lemma StrayIff(ino: seq<Inode>, home: Homes, r: seq<Inode>, h: Homes)
    requires forall d: nat, k: nat :: Stray(r, h, d, k) <==> Stray(ino, home, d, k)
    ensures NoStray(r, h) <==> NoStray(ino, home)
  {
    if !NoStray(ino, home) {
      var d: nat, k: nat :| Stray(ino, home, d, k);
      assert Stray(r, h, d, k);
    }
  }

  lemma SameStray(ino: seq<Inode>, r: seq<Inode>, home: Homes)
    requires |r| == |ino| && forall d: nat :: d < |ino| ==> r[d].entries == ino[d].entries
    ensures NoStray(r, home) <==> NoStray(ino, home)
  {
    forall d: nat, k: nat
      ensures Stray(r, home, d, k) <==> Stray(ino, home, d, k)
    {
    }
    StrayIff(ino, home, r, home);
  }

  lemma EnterStray(ino: seq<Inode>, home: Homes, d: nat, k: nat, e: Entry)
    requires d < |ino| && EmptyAt(ino, d, k) && e.inum != 0
    ensures NoStray(Entered(ino, d, k, e), home) <==> NoStray(ino, home) && Attached(home, d)
  {
    var r := Entered(ino, d, k, e);
    forall c: nat, l: nat
      ensures Stray(r, home, c, l) <==> Stray(ino, home, c, l) || (c == d && l == k && !Attached(home, d))
    {
    }
    assert Stray(r, home, d, k) <==> !Attached(home, d);
    assert forall c: nat, l: nat :: Stray(ino, home, c, l) ==> Stray(r, home, c, l);
  }

  /** The state after the entry at (d, k) is cleared: for a directory, ".." no
      longer counts either. */
  function UnlinkedHome(ino: seq<Inode>, home: Homes, i: nat): Homes
    requires i < |ino|
  {
    if ino[i].kind == Dir then home - {i} else home
  }

  function Unlinked(ino: seq<Inode>, d: nat, k: nat): (r: seq<Inode>)
    requires d < |ino| && k < |ino[d].entries| && ino[d].entries[k].inum < |ino|
    ensures |r| == |ino|
  {
    var a := Entered(ino, d, k, EMPTY);
    if ino[ino[d].entries[k].inum].kind == Dir then Bumped(a, d, -1) else a
  }

  /** i is empty except for "." and "..". */
  predicate OnlyDots(ino: seq<Inode>, i: nat)
    requires i < |ino|
  {
    forall k: nat :: 2 <= k < |ino[i].entries| ==> ino[i].entries[k].inum == 0
  }

  lemma UnlinkFileTree(ino: seq<Inode>, home: Homes, d: nat, k: nat)
    requires Shape(ino, home) && Tree(ino, home) && d < |ino| && 2 <= k < |ino[d].entries|
        && ino[d].entries[k].inum != 0
    requires ino[ino[d].entries[k].inum].kind != Dir
    ensures Shape(Entered(ino, d, k, EMPTY), home) && Tree(Entered(ino, d, k, EMPTY), home)
  {
    var r := Entered(ino, d, k, EMPTY);
    EnterShape(ino, home, d, k, EMPTY);
    forall c: nat | c in home
      ensures HomeOk(r, home, c)
    {
      assert HomeOk(ino, home, c);
    }
    forall c: nat, l: nat | c < |r| && 2 <= l < |r[c].entries|
      ensures EntryOk(r, home, c, l)
    {
      assert c != d || l != k ==> EntryOk(ino, home, c, l);
    }
  }

  lemma UnlinkDirShape(ino: seq<Inode>, home: Homes, d: nat, k: nat, i: nat)
    requires Shape(ino, home) && d < |ino| && ino[d].kind == Dir && 2 <= k < |ino[d].entries| && i < |ino|
        && ino[i].kind == Dir && i != ROOT
    ensures Shape(Entered(ino, d, k, EMPTY), home - {i})
  {
    EnterShape(ino, home, d, k, EMPTY);
  }

  lemma UnlinkDirHome(ino: seq<Inode>, home: Homes, d: nat, k: nat, i: nat, c: nat)
    requires Shape(ino, home) && Tree(ino, home) && d < |ino| && 2 <= k < |ino[d].entries|
        && i == ino[d].entries[k].inum != 0
    requires ino[i].kind == Dir && OnlyDots(ino, i) && ino[d].kind == Dir && c in home && c != i
    ensures Shape(Entered(ino, d, k, EMPTY), home - {i}) && HomeOk(Entered(ino, d, k, EMPTY), home - {i}, c)
  {
    assert EntryOk(ino, home, d, k);
    UnlinkDirShape(ino, home, d, k, i);
    assert HomeOk(ino, home, c);
  }

  lemma UnlinkDirEntry(ino: seq<Inode>, home: Homes, d: nat, k: nat, i: nat, c: nat, l: nat)
    requires Shape(ino, home) && Tree(ino, home) && d < |ino| && 2 <= k < |ino[d].entries|
        && i == ino[d].entries[k].inum != 0
    requires ino[i].kind == Dir && OnlyDots(ino, i) && ino[d].kind == Dir && i in home
    requires Shape(Entered(ino, d, k, EMPTY), home - {i})
    requires c < |ino| && 2 <= l < |Entered(ino, d, k, EMPTY)[c].entries|
    ensures EntryOk(Entered(ino, d, k, EMPTY), home - {i}, c, l)
  {
    assert EntryOk(ino, home, d, k);
    assert c != d || l != k ==> EntryOk(ino, home, c, l);
  }

  lemma UnlinkDirTree(ino: seq<Inode>, home: Homes, d: nat, k: nat, i: nat)
    requires Shape(ino, home) && Tree(ino, home) && d < |ino| && 2 <= k < |ino[d].entries|
        && i == ino[d].entries[k].inum != 0
    requires ino[i].kind == Dir && OnlyDots(ino, i) && ino[d].kind == Dir
    ensures i in home && i != d && ino[i].entries[1].inum == d
    ensures Shape(Entered(ino, d, k, EMPTY), home - {i}) && Tree(Entered(ino, d, k, EMPTY), home - {i})
  {
    var r, h := Entered(ino, d, k, EMPTY), home - {i};
    assert EntryOk(ino, home, d, k);
    assert HomeOk(ino, home, i);
    UnlinkDirShape(ino, home, d, k, i);
    forall c: nat | c in h
      ensures HomeOk(r, h, c)
    {
      UnlinkDirHome(ino, home, d, k, i, c);
    }
    forall c: nat, l: nat | c < |r| && 2 <= l < |r[c].entries|
      ensures EntryOk(r, h, c, l)
    {
      UnlinkDirEntry(ino, home, d, k, i, c, l);
    }
  }

  /** Detaching i takes its ".." out of the references. */
  lemma RefsDetached(ino: seq<Inode>, home: Homes, i: nat, j: nat)
    requires Shape(ino, home) && i in home && ino[i].kind == Dir
    ensures j == ino[i].entries[1].inum ==> RefsTo(ino, home - {i}, j) == RefsTo(ino, home, j) - {(i, 1)}
    ensures j != ino[i].entries[1].inum ==> RefsTo(ino, home - {i}, j) == RefsTo(ino, home, j)
    ensures (i, 1) in RefsTo(ino, home, ino[i].entries[1].inum)
  {
    forall c: nat, l: nat
      ensures (c, l) in RefsTo(ino, home - {i}, j) <==>
          (c, l) in RefsTo(ino, home, j) && !(j == ino[i].entries[1].inum && c == i && l == 1)
    {
      InRefs(ino, home - {i}, j, c, l);
      InRefs(ino, home, j, c, l);
    }
    InRefs(ino, home, ino[i].entries[1].inum, i, 1);
  }

  lemma UnlinkFileCounts(ino: seq<Inode>, home: Homes, pending: seq<nat>, refs: seq<nat>, d: nat, k: nat, i: nat)
    requires Counts(ino, home, pending, refs) && d < |ino| && 2 <= k < |ino[d].entries|
        && i == ino[d].entries[k].inum != 0 && i < |ino|
    ensures ino[i].kind != Free && ino[i].nlink >= 1
    ensures Counts(Entered(ino, d, k, EMPTY), home, pending[i := pending[i] + 1], refs)
  {
    var r, q := Entered(ino, d, k, EMPTY), pending[i := pending[i] + 1];
    RefsCleared(ino, home, d, k, i);
    assert CountOk(ino, home, pending, refs, i);
    forall j: nat | j < |ino|
      ensures CountOk(r, home, q, refs, j)
    {
      RefsCleared(ino, home, d, k, j);
      assert CountOk(ino, home, pending, refs, j);
    }
  }

  /** Detaching i and counting its ".." back. */
  lemma DetachCounts(ino: seq<Inode>, home: Homes, pending: seq<nat>, refs: seq<nat>, i: nat, d: nat)
    requires Shape(ino, home) && Counts(ino, home, pending, refs) && i in home && ino[i].kind == Dir
        && d == ino[i].entries[1].inum && ino[d].kind != Free
    ensures Counts(Bumped(ino, d, -1), home - {i}, pending, refs)
  {
    var r := Bumped(ino, d, -1);
    assert CountOk(ino, home, pending, refs, d);
    RefsDetached(ino, home, i, d);
    ShortFits(ino[d].nlink - 1);
    forall j: nat | j < |ino|
      ensures CountOk(r, home - {i}, pending, refs, j)
    {
      RefsDetached(ino, home, i, j);
      RefsSame(ino, r, home - {i}, j);
      assert CountOk(ino, home, pending, refs, j);
    }
  }

  lemma DotsStay(ino: seq<Inode>, home: Homes, d: nat, k: nat, i: nat)
    requires Shape(ino, home) && d < |ino| && ino[d].kind == Dir && 2 <= k < |ino[d].entries| && i < |ino|
        && ino[i].kind == Dir
    ensures Entered(ino, d, k, EMPTY)[i].kind == Dir && |Entered(ino, d, k, EMPTY)[i].entries| >= 2
        && Entered(ino, d, k, EMPTY)[i].entries[1] == ino[i].entries[1]
  {
  }

  /** unlink, up to the last nlink--: the entry is gone, its target still counts
      it. The check for nlink < 1 never fires. */
  lemma UnlinkKeeps(ino: seq<Inode>, home: Homes, pending: seq<nat>, refs: seq<nat>, d: nat, k: nat, i: nat)
    requires Inv(ino, home, pending, refs) && d < |ino| && 2 <= k < |ino[d].entries| && i == ino[d].entries[k].inum != 0
    requires ino[i].kind == Dir ==> OnlyDots(ino, i)
    ensures ino[i].kind != Free && ino[i].nlink >= 1
    ensures Inv(Unlinked(ino, d, k), UnlinkedHome(ino, home, i), pending[i := pending[i] + 1], refs)
  {
    assert EntryOk(ino, home, d, k) && ino[d].kind == Dir;
    UnlinkFileCounts(ino, home, pending, refs, d, k, i);
    if ino[i].kind != Dir {
      UnlinkFileTree(ino, home, d, k);
    } else {
      var a, q := Entered(ino, d, k, EMPTY), pending[i := pending[i] + 1];
      UnlinkDirTree(ino, home, d, k, i);
      DotsStay(ino, home, d, k, i);
      EnterShape(ino, home, d, k, EMPTY);
      DetachCounts(a, home, q, refs, i, d);
      SameTree(a, Bumped(a, d, -1), home - {i});
    }
  }

  /** The last reference to an inode without links goes: it is freed. */
  lemma FreeTree(ino: seq<Inode>, home: Homes, i: nat)
    requires Shape(ino, home) && Tree(ino, home) && i < |ino| && !Attached(home, i)
        && forall d: nat, k: nat :: (d, k) !in RefsTo(ino, home, i)
    ensures Shape(ino[i := FREED], home) && Tree(ino[i := FREED], home)
  {
    var r := ino[i := FREED];
    forall c: nat | c in home
      ensures HomeOk(r, home, c)
    {
      assert HomeOk(ino, home, c);
      InRefs(ino, home, i, c, 1);
    }
    forall c: nat, l: nat | c < |r| && 2 <= l < |r[c].entries|
      ensures EntryOk(r, home, c, l)
    {
      assert EntryOk(ino, home, c, l);
      InRefs(ino, home, i, c, l);
    }
  }

  /** The entries of directory i that name inode j, besides the dots. */
  ghost function Within(ino: seq<Inode>, i: nat, j: nat): set<(nat, nat)>
    requires i < |ino|
  {
    set k: nat | 2 <= k < |ino[i].entries| && ino[i].entries[k].inum == j != 0 :: (i, k)
  }

  /** How many entries of i name each inode. */
  ghost function LostWith(ino: seq<Inode>, i: nat): (r: seq<nat>)
    requires i < |ino|
    ensures |r| == |ino|
  {
    seq(|ino|, j requires 0 <= j => |Within(ino, i, j)|)
  }

  lemma InWithin(ino: seq<Inode>, i: nat, j: nat, k: nat)
    requires i < |ino|
    ensures (i, k) in Within(ino, i, j) <==> 2 <= k < |ino[i].entries| && ino[i].entries[k].inum == j != 0
  {
  }

  /** With an inode that is not attached go its entries besides the dots. */
  lemma RefsFreed(ino: seq<Inode>, home: Homes, i: nat, j: nat)
    requires Shape(ino, home) && i < |ino| && !Attached(home, i)
    ensures Within(ino, i, j) <= RefsTo(ino, home, j)
    ensures RefsTo(ino[i := FREED], home, j) == RefsTo(ino, home, j) - Within(ino, i, j)
  {
    var r := ino[i := FREED];
    forall c: nat, l: nat
      ensures (c, l) in Within(ino, i, j) <==> c == i && (i, l) in RefsTo(ino, home, j)
      ensures (c, l) in RefsTo(r, home, j) <==> c != i && (c, l) in RefsTo(ino, home, j)
    {
      InRefs(r, home, j, c, l);
      InRefs(ino, home, j, c, l);
      InWithin(ino, i, j, l);
    }
  }

  lemma FewerRefs(a: set<(nat, nat)>, b: set<(nat, nat)>)
    requires b <= a
    ensures |a - b| + |b| == |a|
  {
    assert (a - b) + b == a;
  }

  lemma FreedCount(ino: seq<Inode>, home: Homes, pending: seq<nat>, refs: seq<nat>, i: nat, j: nat)
    requires Shape(ino, home) && Counts(ino, home, pending, refs) && i < |ino| && j < |ino| && !Attached(home, i)
    requires ino[i].kind != Free && ino[i].nlink == 0
    ensures CountOk(ino[i := FREED], home, Sums(pending, LostWith(ino, i)), refs[i := 0], j)
  {
    RefsFreed(ino, home, i, j);
    FewerRefs(RefsTo(ino, home, j), Within(ino, i, j));
    assert CountOk(ino, home, pending, refs, j);
  }

  /** iput: an inode with no links and no other user is freed. The inodes that
      its entries named keep their counts. */
  lemma FreeKeeps(ino: seq<Inode>, home: Homes, pending: seq<nat>, refs: seq<nat>, i: nat)
    requires Inv(ino, home, pending, refs) && i < |ino| && ino[i].kind != Free && ino[i].nlink == 0
    ensures !Attached(home, i)
    ensures Inv(ino[i := FREED], home, Sums(pending, LostWith(ino, i)), refs[i := 0])
  {
    assert CountOk(ino, home, pending, refs, i);
    assert RefsTo(ino, home, i) == {};
    if i == ROOT {
      InRefs(ino, home, i, i, 1);
    } else if i in home {
      assert HomeOk(ino, home, i);
      InRefs(ino, home, i, home[i].0, home[i].1);
    }
    FreeTree(ino, home, i);
    var r, p, u := ino[i := FREED], Sums(pending, LostWith(ino, i)), refs[i := 0];
    forall j: nat | j < |ino|
      ensures CountOk(r, home, p, u, j)
    {
      FreedCount(ino, home, pending, refs, i, j);
    }
  }

  /** An inode with a lost count is in use and counts above zero. */
  lemma LostIsKept(ino: seq<Inode>, home: Homes, pending: seq<nat>, refs: seq<nat>, lost: seq<nat>, j: nat)
    requires |pending| == |lost| == |ino| && Inv(ino, home, Sums(pending, lost), refs) && j < |ino| && lost[j] > 0
    ensures ino[j].kind != Free && ino[j].nlink >= lost[j]
  {
    assert CountOk(ino, home, Sums(pending, lost), refs, j);
  }

  lemma NothingLost(ino: seq<Inode>, home: Homes, i: nat)
    requires Shape(ino, home) && i < |ino|
    ensures OnlyDots(ino, i) <==> forall j: nat :: j < |ino| ==> LostWith(ino, i)[j] == 0
  {
    if OnlyDots(ino, i) {
      forall j: nat | j < |ino|
        ensures LostWith(ino, i)[j] == 0
      {
        assert Within(ino, i, j) == {};
      }
    } else {
      var k: nat :| 2 <= k < |ino[i].entries| && ino[i].entries[k].inum != 0;
      InWithin(ino, i, ino[i].entries[k].inum, k);
      assert LostWith(ino, i)[ino[i].entries[k].inum] != 0;
    }
  }

  /** The counts are right after iput has freed an inode just when it was no
      directory with entries. */
  lemma FreeExact(ino: seq<Inode>, home: Homes, pending: seq<nat>, refs: seq<nat>, i: nat)
    requires Inv(ino, home, pending, refs) && i < |ino| && ino[i].kind != Free && ino[i].nlink == 0
    ensures Counts(ino[i := FREED], home, pending, refs[i := 0]) <==> OnlyDots(ino, i)
  {
    var r, q, lost := ino[i := FREED], refs[i := 0], LostWith(ino, i);
    FreeKeeps(ino, home, pending, refs, i);
    NothingLost(ino, home, i);
    if OnlyDots(ino, i) {
      assert Sums(pending, lost) == pending;
    } else {
      var j: nat :| j < |ino| && lost[j] != 0;
      assert CountOk(r, home, Sums(pending, lost), q, j);
      assert !CountOk(r, home, pending, q, j);
    }
  }

  /** A new inode, with a count of one for the name it is about to get. */
  function NewInode(kind: Kind): Inode {
    Inode(kind, 1, [])
  }

  lemma AllocKeeps(ino: seq<Inode>, home: Homes, pending: seq<nat>, refs: seq<nat>, i: nat, kind: Kind)
    requires Inv(ino, home, pending, refs) && 0 < i < |ino| && ino[i].kind == Free && kind != Dir && kind != Free
    ensures Inv(ino[i := NewInode(kind)], home, pending[i := 1], refs[i := 1])
  {
    var r, q, u := ino[i := NewInode(kind)], pending[i := 1], refs[i := 1];
    assert CountOk(ino, home, pending, refs, i);
    assert Shape(r, home);
    forall c: nat | c in home
      ensures HomeOk(r, home, c)
    {
      assert HomeOk(ino, home, c);
    }
    forall d: nat, k: nat | d < |r| && 2 <= k < |r[d].entries|
      ensures EntryOk(r, home, d, k)
    {
      assert EntryOk(ino, home, d, k);
    }
    forall j: nat | j < |ino|
      ensures CountOk(r, home, q, u, j)
    {
      RefsSame(ino, r, home, j);
      assert CountOk(ino, home, pending, refs, j);
    }
  }

  function NewDir(i: nat, d: nat): Inode {
    Inode(Dir, 1, [Entry(i, "."), Entry(d, "..")])
  }

  /** create of a directory i under the name at (d, k). */
  function MadeDir(ino: seq<Inode>, d: nat, k: nat, i: nat, name: string): (r: seq<Inode>)
    requires d < |ino| && i < |ino| && d != i && k <= |ino[d].entries|
    ensures |r| == |ino|
  {
    Entered(Bumped(ino[i := NewDir(i, d)], d, 1), d, k, Entry(i, name))
  }

  lemma MadeDirAt(ino: seq<Inode>, d: nat, k: nat, i: nat, name: string, c: nat)
    requires d < |ino| && i < |ino| && d != i && k <= |ino[d].entries| && c < |ino|
    ensures c != d && c != i ==> MadeDir(ino, d, k, i, name)[c] == ino[c]
    ensures MadeDir(ino, d, k, i, name)[i] == NewDir(i, d)
    ensures MadeDir(ino, d, k, i, name)[d] ==
        Inode(ino[d].kind, Short(ino[d].nlink + 1), Placed(ino[d].entries, k, Entry(i, name)))
  {
  }

  lemma MadeDirShape(ino: seq<Inode>, home: Homes, d: nat, k: nat, i: nat, name: string)
    requires Shape(ino, home) && d < |ino| && ino[d].kind == Dir && EmptyAt(ino, d, k) && 0 < i < |ino|
        && ino[i].kind == Free
    ensures d != i && Shape(MadeDir(ino, d, k, i, name), home[i := (d, k)])
  {
    var r := MadeDir(ino, d, k, i, name);
    forall c: nat | c < |ino|
      ensures c != d && c != i ==> r[c] == ino[c]
    {
      MadeDirAt(ino, d, k, i, name, c);
    }
    MadeDirAt(ino, d, k, i, name, d);
  }

  lemma MadeDirHome(ino: seq<Inode>, home: Homes, d: nat, k: nat, i: nat, name: string, c: nat)
    requires Shape(ino, home) && Tree(ino, home) && d < |ino| && ino[d].kind == Dir && EmptyAt(ino, d, k)
        && 0 < i < |ino| && ino[i].kind == Free
    requires c in home[i := (d, k)]
    ensures d != i && Shape(MadeDir(ino, d, k, i, name), home[i := (d, k)])
        && HomeOk(MadeDir(ino, d, k, i, name), home[i := (d, k)], c)
  {
    MadeDirShape(ino, home, d, k, i, name);
    MadeDirAt(ino, d, k, i, name, d);
    if c != i {
      assert HomeOk(ino, home, c);
      MadeDirAt(ino, d, k, i, name, c);
      MadeDirAt(ino, d, k, i, name, home[c].0);
    }
  }

  lemma MadeDirEntry(ino: seq<Inode>, home: Homes, d: nat, k: nat, i: nat, name: string, c: nat, l: nat)
    requires Shape(ino, home) && Tree(ino, home) && d < |ino| && ino[d].kind == Dir && EmptyAt(ino, d, k)
        && 0 < i < |ino| && ino[i].kind == Free
    requires forall a: nat, b: nat :: (a, b) !in RefsTo(ino, home, i)
    requires d != i && c < |ino| && 2 <= l < |MadeDir(ino, d, k, i, name)[c].entries|
    ensures Shape(MadeDir(ino, d, k, i, name), home[i := (d, k)])
        && EntryOk(MadeDir(ino, d, k, i, name), home[i := (d, k)], c, l)
  {
    MadeDirShape(ino, home, d, k, i, name);
    MadeDirAt(ino, d, k, i, name, c);
    if c != d || l != k {
      assert EntryOk(ino, home, c, l);
      InRefs(ino, home, i, c, l);
      MadeDirAt(ino, d, k, i, name, ino[c].entries[l].inum);
    }
  }

  lemma MadeDirTree(ino: seq<Inode>, home: Homes, d: nat, k: nat, i: nat, name: string)
    requires Shape(ino, home) && Tree(ino, home) && d < |ino| && ino[d].kind == Dir && EmptyAt(ino, d, k)
    requires 0 < i < |ino| && ino[i].kind == Free && forall c: nat, l: nat :: (c, l) !in RefsTo(ino, home, i)
    ensures d != i && Shape(MadeDir(ino, d, k, i, name), home[i := (d, k)])
        && Tree(MadeDir(ino, d, k, i, name), home[i := (d, k)])
  {
    var r, h := MadeDir(ino, d, k, i, name), home[i := (d, k)];
    MadeDirShape(ino, home, d, k, i, name);
    forall c: nat | c in h
      ensures HomeOk(r, h, c)
    {
      MadeDirHome(ino, home, d, k, i, name, c);
    }
    forall c: nat, l: nat | c < |r| && 2 <= l < |r[c].entries|
      ensures EntryOk(r, h, c, l)
    {
      MadeDirEntry(ino, home, d, k, i, name, c, l);
    }
  }

  /** A new directory: one reference to it, and its ".." to its parent. */
  lemma RefsMadeDir(ino: seq<Inode>, home: Homes, d: nat, k: nat, i: nat, name: string, j: nat)
    requires Shape(ino, home) && d < |ino| && ino[d].kind == Dir && EmptyAt(ino, d, k) && 0 < i < |ino|
        && ino[i].kind == Free
    ensures d != i && j == i ==>
        RefsTo(MadeDir(ino, d, k, i, name), home[i := (d, k)], j) == RefsTo(ino, home, j) + {(d, k)}
    ensures j == d ==> RefsTo(MadeDir(ino, d, k, i, name), home[i := (d, k)], j) == RefsTo(ino, home, j) + {(i, 1)}
    ensures j != i && j != d ==> RefsTo(MadeDir(ino, d, k, i, name), home[i := (d, k)], j) == RefsTo(ino, home, j)
    ensures (d, k) !in RefsTo(ino, home, j) && (i, 1) !in RefsTo(ino, home, j)
  {
    var r, h := MadeDir(ino, d, k, i, name), home[i := (d, k)];
    forall c: nat, l: nat
      ensures (c, l) in RefsTo(r, h, j) <==>
          (c, l) in RefsTo(ino, home, j) || (j == i && c == d && l == k) || (j == d && c == i && l == 1)
    {
      InRefs(r, h, j, c, l);
      InRefs(ino, home, j, c, l);
      if c < |ino| {
        MadeDirAt(ino, d, k, i, name, c);
      }
    }
    InRefs(ino, home, j, d, k);
    InRefs(ino, home, j, i, 1);
  }

  lemma OneMoreRef(a: set<(nat, nat)>, x: (nat, nat))
    requires x !in a
    ensures |a + {x}| == |a| + 1
  {
  }

  lemma MadeDirCountAt(ino: seq<Inode>, home: Homes, pending: seq<nat>, refs: seq<nat>, d: nat, k: nat, i: nat,
      name: string, j: nat)
    requires Shape(ino, home) && Counts(ino, home, pending, refs) && d < |ino| && ino[d].kind == Dir
        && EmptyAt(ino, d, k) && 0 < i < |ino| && ino[i].kind == Free
    requires j < |ino|
    ensures d != i
        && (CountOk(MadeDir(ino, d, k, i, name), home[i := (d, k)], pending, refs[i := 1], j) <==>
        j != d || ino[d].nlink < MAXLINK)
  {
    var r, h, u := MadeDir(ino, d, k, i, name), home[i := (d, k)], refs[i := 1];
    RefsMadeDir(ino, home, d, k, i, name, j);
    MadeDirAt(ino, d, k, i, name, j);
    assert CountOk(ino, home, pending, refs, j);
    if j == d {
      CountMore(ino, home, pending, refs, r, h, u, d, (i, 1));
    } else if j == i {
      OneMoreRef({}, (d, k));
      assert {} + {(d, k)} == RefsTo(r, h, j);
    }
  }

  /** One more reference, and a count raised for it. */
  lemma CountMore(ino: seq<Inode>, home: Homes, pending: seq<nat>, refs: seq<nat>, r: seq<Inode>, h: Homes,
      u: seq<nat>, j: nat, x: (nat, nat))
    requires j < |ino| == |pending| == |refs| == |r| == |u| && CountOk(ino, home, pending, refs, j)
        && ino[j].kind != Free
    requires r[j].kind == ino[j].kind && r[j].nlink == Short(ino[j].nlink + 1)
    requires x !in RefsTo(ino, home, j) && RefsTo(r, h, j) == RefsTo(ino, home, j) + {x}
    ensures CountOk(r, h, pending, u, j) <==> ino[j].nlink < MAXLINK
  {
    OneMoreRef(RefsTo(ino, home, j), x);
    ShortFits(ino[j].nlink + 1);
  }

  lemma MadeDirCounts(ino: seq<Inode>, home: Homes, pending: seq<nat>, refs: seq<nat>, d: nat, k: nat, i: nat,
      name: string)
    requires Shape(ino, home) && Counts(ino, home, pending, refs) && d < |ino| && ino[d].kind == Dir
        && EmptyAt(ino, d, k) && 0 < i < |ino| && ino[i].kind == Free
    ensures d != i
        && (Counts(MadeDir(ino, d, k, i, name), home[i := (d, k)], pending, refs[i := 1]) <==> ino[d].nlink < MAXLINK)
  {
    var r, h, u := MadeDir(ino, d, k, i, name), home[i := (d, k)], refs[i := 1];
    forall j: nat | j < |ino|
      ensures CountOk(r, h, pending, u, j) <==> j != d || ino[d].nlink < MAXLINK
    {
      MadeDirCountAt(ino, home, pending, refs, d, k, i, name, j);
    }
    assert CountOk(r, h, pending, u, d) <==> ino[d].nlink < MAXLINK;
  }

  /** create of a directory keeps the invariant just when its parent has room
      for one more. */
  lemma MadeDirKeeps(ino: seq<Inode>, home: Homes, pending: seq<nat>, refs: seq<nat>, d: nat, k: nat, i: nat,
      name: string)
    requires Inv(ino, home, pending, refs) && d < |ino| && ino[d].kind == Dir && EmptyAt(ino, d, k) && 0 < i < |ino|
        && ino[i].kind == Free
    ensures d != i
        && (Inv(MadeDir(ino, d, k, i, name), home[i := (d, k)], pending, refs[i := 1]) <==> ino[d].nlink < MAXLINK)
  {
    MadeDirCounts(ino, home, pending, refs, d, k, i, name);
    assert CountOk(ino, home, pending, refs, i);
    MadeDirTree(ino, home, d, k, i, name);
  }

  lemma MadeDirStray(ino: seq<Inode>, home: Homes, d: nat, k: nat, i: nat, name: string)
    requires Shape(ino, home) && d < |ino| && ino[d].kind == Dir && EmptyAt(ino, d, k) && 0 < i < |ino|
        && ino[i].kind == Free
    ensures d != i
        && (NoStray(MadeDir(ino, d, k, i, name), home[i := (d, k)]) <==> NoStray(ino, home) && Attached(home, d))
  {
    var b, h := Bumped(ino[i := NewDir(i, d)], d, 1), home[i := (d, k)];
    forall c: nat, l: nat
      ensures Stray(b, h, c, l) <==> Stray(ino, home, c, l)
    {
      assert c != i && c < |ino| ==> b[c].entries == ino[c].entries;
    }
    StrayIff(ino, home, b, h);
    EnterStray(b, h, d, k, Entry(i, name));
  }

  /** References in memory may change as long as free inodes have none. */
  lemma UsersKeep(ino: seq<Inode>, home: Homes, pending: seq<nat>, refs: seq<nat>, i: nat, n: nat)
    requires Inv(ino, home, pending, refs) && i < |ino| && (ino[i].kind == Free ==> n == 0)
    ensures Inv(ino, home, pending, refs[i := n])
  {
    var u := refs[i := n];
    forall j: nat | j < |ino|
      ensures CountOk(ino, home, pending, u, j)
    {
      assert CountOk(ino, home, pending, refs, j);
    }
  }

  /** iput of the last user of i, whose inode is in memory. */
  function Left(ino: seq<Inode>, i: nat): (r: seq<Inode>)
    requires i < |ino|
    ensures |r| == |ino|
  {
    if ino[i].nlink == 0 then ino[i := FREED] else ino
  }

  /** A file or device is linked into d, and then the last user of d goes. The
      counts are right just when d had a link itself, which the code does not
      check; otherwise the file keeps a count without an entry. */
  lemma LinkThenLeave(ino: seq<Inode>, home: Homes, pending: seq<nat>, refs: seq<nat>, d: nat, k: nat, e: Entry)
    requires Inv(ino, home, pending, refs) && d < |ino| && ino[d].kind == Dir && EmptyAt(ino, d, k)
    requires 0 < e.inum < |ino| && ino[e.inum].kind != Dir && ino[e.inum].kind != Free && pending[e.inum] > 0
    ensures Counts(Left(Entered(ino, d, k, e), d), home, pending[e.inum := pending[e.inum] - 1], refs[d := 0]) <==>
        ino[d].nlink > 0
    ensures NoStray(ino, home) && ino[d].nlink <= 0 ==>
        var r := Left(Entered(ino, d, k, e), d);
        r[d].kind == Free && r[e.inum].nlink == |RefsTo(r, home, e.inum)| + pending[e.inum]
    ensures NoStray(ino, home) && pending[d] == 0 ==> (Attached(home, d) <==> ino[d].nlink > 0)
  {
    var a, p := Entered(ino, d, k, e), pending[e.inum := pending[e.inum] - 1];
    assert CountOk(ino, home, pending, refs, d);
    EnterKeeps(ino, home, pending, refs, d, k, e);
    if ino[d].nlink > 0 {
      UsersKeep(a, home, p, refs, d, 0);
    } else {
      assert a[d].entries[k] == e;
      FreeExact(a, home, p, refs, d);
      FreeKeeps(a, home, p, refs, d);
      assert CountOk(a[d := FREED], home, Sums(p, LostWith(a, d)), refs[d := 0], e.inum);
    }
    if NoStray(ino, home) {
      if ino[d].nlink <= 0 {
        OneLost(ino, home, d, k, e);
      }
      if pending[d] == 0 {
        AttachedIsLinked(ino, home, pending, refs, d);
      }
    }
  }

  lemma OneLost(ino: seq<Inode>, home: Homes, d: nat, k: nat, e: Entry)
    requires NoStray(ino, home) && d < |ino| && !Attached(home, d) && EmptyAt(ino, d, k) && 0 < e.inum < |ino|
    ensures LostWith(Entered(ino, d, k, e), d)[e.inum] == 1
  {
    var a := Entered(ino, d, k, e);
    forall l: nat
      ensures (d, l) in Within(a, d, e.inum) <==> l == k
    {
      InWithin(a, d, e.inum, l);
      if l != k && 2 <= l < |ino[d].entries| {
        assert a[d].entries[l] == ino[d].entries[l] && !Stray(ino, home, d, l);
      }
    }
    assert Within(a, d, e.inum) == {(d, k)};
  }

  /** create of a file or device in d, and then the last user of d goes. */
  lemma CreateThenLeave(ino: seq<Inode>, home: Homes, pending: seq<nat>, refs: seq<nat>, d: nat, k: nat, i: nat,
      kind: Kind, name: string)
    requires Inv(ino, home, pending, refs) && d < |ino| && ino[d].kind == Dir && EmptyAt(ino, d, k)
    requires 0 < i < |ino| && ino[i].kind == Free && kind != Dir && kind != Free
    ensures var r := Left(Entered(ino[i := NewInode(kind)], d, k, Entry(i, name)), d);
        Counts(r, home, pending, refs[i := 1][d := 0]) <==> ino[d].nlink > 0
  {
    var a := ino[i := NewInode(kind)];
    assert CountOk(ino, home, pending, refs, i);
    AllocKeeps(ino, home, pending, refs, i, kind);
    LinkThenLeave(a, home, pending[i := 1], refs[i := 1], d, k, Entry(i, name));
    assert pending[i := 1][i := 0] == pending;
  }

  /** mkdir in d, and then the last user of d goes. The counts are right, but
      when d had no link it is not freed now: it keeps a count without a name,
      and neither it nor the new directory can be reached. */
  lemma MkdirThenLeave(ino: seq<Inode>, home: Homes, pending: seq<nat>, refs: seq<nat>, depth: seq<nat>, d: nat, k: nat,
      i: nat, name: string)
    requires Inv(ino, home, pending, refs) && NoStray(ino, home) && |depth| == |ino| && Ranked(home, depth)
    requires d < |ino| && ino[d].kind == Dir && EmptyAt(ino, d, k) && pending[d] == 0 && ino[d].nlink < MAXLINK
    requires 0 < i < |ino| && ino[i].kind == Free
    ensures d != i
    ensures var r, h := MadeDir(ino, d, k, i, name), home[i := (d, k)];
        && Left(r, d) == r && Inv(r, h, pending, refs[i := 1][d := 0])
        && r[d].nlink > 0 && (Reaches(h, d) <==> ino[d].nlink > 0) && (Reaches(h, i) <==> ino[d].nlink > 0)
  {
    assert CountOk(ino, home, pending, refs, d);
    AttachedIsLinked(ino, home, pending, refs, d);
    MkdirStays(ino, home, pending, refs, d, k, i, name);
    MkdirReaches(ino, home, pending, refs, depth, d, k, i, name);
  }

  lemma MkdirStays(ino: seq<Inode>, home: Homes, pending: seq<nat>, refs: seq<nat>, d: nat, k: nat, i: nat,
      name: string)
    requires Inv(ino, home, pending, refs) && 0 < i < |ino| && ino[i].kind == Free
    requires d < |ino| && ino[d].kind == Dir && EmptyAt(ino, d, k) && ino[d].nlink < MAXLINK
    ensures d != i && MadeDir(ino, d, k, i, name)[d].nlink > 0
    ensures Inv(MadeDir(ino, d, k, i, name), home[i := (d, k)], pending, refs[i := 1][d := 0])
  {
    assert CountOk(ino, home, pending, refs, d);
    MadeDirKeeps(ino, home, pending, refs, d, k, i, name);
    MadeDirAt(ino, d, k, i, name, d);
    ShortFits(ino[d].nlink + 1);
    UsersKeep(MadeDir(ino, d, k, i, name), home[i := (d, k)], pending, refs[i := 1], d, 0);
  }

  lemma MkdirReaches(ino: seq<Inode>, home: Homes, pending: seq<nat>, refs: seq<nat>, depth: seq<nat>, d: nat, k: nat,
      i: nat, name: string)
    requires Inv(ino, home, pending, refs) && NoStray(ino, home) && |depth| == |ino| && Ranked(home, depth)
    requires d < |ino| && ino[d].kind == Dir && EmptyAt(ino, d, k) && 0 < i < |ino| && ino[i].kind == Free
    ensures d != i && (Reaches(home[i := (d, k)], d) <==> Attached(home, d))
    ensures Reaches(home[i := (d, k)], i) <==> Attached(home, d)
  {
    var r, h, ranks := MadeDir(ino, d, k, i, name), home[i := (d, k)], depth[i := depth[d] + 1];
    assert CountOk(ino, home, pending, refs, i);
    MadeDirTree(ino, home, d, k, i, name);
    MadeDirStray(ino, home, d, k, i, name);
    if Attached(home, d) {
      RankedMore(ino, home, depth, i, d, k);
      ReachesRoot(r, h, ranks, d);
      ReachesRoot(r, h, ranks, i);
    } else {
      CutOff(h, i, d, k);
    }
  }

  /** Below a directory without a name nothing reaches the root. */
  lemma CutOff(home: Homes, i: nat, d: nat, k: nat)
    requires i in home && home[i] == (d, k) && d != ROOT && d !in home && i != ROOT
    ensures !Reaches(home, d) && !Reaches(home, i)
  {
    forall n: nat
      ensures Above(home, d, n) == d && Above(home, i, n) != ROOT
    {
      if n > 0 {
        assert Above(home, i, n) == Above(home, d, n - 1);
      }
    }
  }

  /** The counts are right, directories are older than those below them, and no
      name occurs twice in a directory. */
  ghost predicate Sound(ino: seq<Inode>, home: Homes, pending: seq<nat>, refs: seq<nat>, depth: seq<nat>) {
    Inv(ino, home, pending, refs) && |depth| == |ino| && Ranked(home, depth) && NamesApart(ino)
  }

  lemma AheadSound(ino: seq<Inode>, home: Homes, pending: seq<nat>, refs: seq<nat>, depth: seq<nat>, i: nat)
    requires Sound(ino, home, pending, refs, depth) && i < |ino| && ino[i].kind != Free
    ensures Sound(Bumped(ino, i, 1), home, pending[i := pending[i] + 1], refs, depth) <==> ino[i].nlink < MAXLINK
  {
    CountAhead(ino, home, pending, refs, i);
    assert NamesApart(Bumped(ino, i, 1));
  }

  lemma BackSound(ino: seq<Inode>, home: Homes, pending: seq<nat>, refs: seq<nat>, depth: seq<nat>, i: nat)
    requires Sound(ino, home, pending, refs, depth) && i < |ino| && ino[i].kind != Free && pending[i] > 0
    ensures Sound(Bumped(ino, i, -1), home, pending[i := pending[i] - 1], refs, depth)
  {
    CountBack(ino, home, pending, refs, i);
    assert NamesApart(Bumped(ino, i, -1));
  }

  lemma FreeSound(ino: seq<Inode>, home: Homes, pending: seq<nat>, refs: seq<nat>, depth: seq<nat>, i: nat)
    requires Sound(ino, home, pending, refs, depth) && i < |ino| && ino[i].kind != Free && ino[i].nlink == 0
    ensures Sound(ino[i := FREED], home, Sums(pending, LostWith(ino, i)), refs[i := 0], depth) && !Attached(home, i)
  {
    FreeKeeps(ino, home, pending, refs, i);
    assert NamesApart(ino[i := FREED]);
  }

  lemma EnterSound(ino: seq<Inode>, home: Homes, pending: seq<nat>, refs: seq<nat>, depth: seq<nat>, d: nat, k: nat,
      e: Entry)
    requires Sound(ino, home, pending, refs, depth) && d < |ino| && ino[d].kind == Dir && EmptyAt(ino, d, k)
    requires 0 < e.inum < |ino| && ino[e.inum].kind != Dir && ino[e.inum].kind != Free && pending[e.inum] > 0
    requires forall j: nat :: !Matches(ino[d].entries, j, e.name)
    ensures Sound(Entered(ino, d, k, e), home, pending[e.inum := pending[e.inum] - 1], refs, depth)
  {
    EnterKeeps(ino, home, pending, refs, d, k, e);
    EnteredApart(ino, d, k, e);
  }

  lemma AllocSound(ino: seq<Inode>, home: Homes, pending: seq<nat>, refs: seq<nat>, depth: seq<nat>, i: nat, kind: Kind)
    requires Sound(ino, home, pending, refs, depth) && 0 < i < |ino| && ino[i].kind == Free && kind != Dir
        && kind != Free
    ensures Sound(ino[i := NewInode(kind)], home, pending[i := 1], refs[i := 1], depth) && pending[i] == 0
  {
    assert CountOk(ino, home, pending, refs, i);
    AllocKeeps(ino, home, pending, refs, i, kind);
    assert NamesApart(ino[i := NewInode(kind)]);
  }

  lemma UnlinkSound(ino: seq<Inode>, home: Homes, pending: seq<nat>, refs: seq<nat>, depth: seq<nat>, d: nat, k: nat,
      i: nat)
    requires Sound(ino, home, pending, refs, depth) && d < |ino| && 2 <= k < |ino[d].entries|
        && i == ino[d].entries[k].inum != 0
    requires i < |ino| && (ino[i].kind == Dir ==> OnlyDots(ino, i))
    ensures ino[i].nlink >= 1
    ensures Sound(Unlinked(ino, d, k), UnlinkedHome(ino, home, i), pending[i := pending[i] + 1], refs, depth)
  {
    UnlinkKeeps(ino, home, pending, refs, d, k, i);
    UnlinkedApart(ino, d, k);
  }

  lemma MadeDirSound(ino: seq<Inode>, home: Homes, pending: seq<nat>, refs: seq<nat>, depth: seq<nat>, d: nat, k: nat,
      i: nat, name: string, ino': seq<Inode>, home': Homes, refs': seq<nat>, depth': seq<nat>)
    requires Sound(ino, home, pending, refs, depth) && d < |ino| && ino[d].kind == Dir && EmptyAt(ino, d, k) && d != i
    requires 0 < i < |ino| && ino[i].kind == Free && forall j: nat :: !Matches(ino[d].entries, j, name)
    requires ino' == MadeDir(ino, d, k, i, name) && home' == home[i := (d, k)] && refs' == refs[i := 1]
        && depth' == depth[i := depth[d] + 1]
    ensures Sound(ino', home', pending, refs', depth') <==> ino[d].nlink < MAXLINK
  {
    MadeDirKeeps(ino, home, pending, refs, d, k, i, name);
    MadeDirApart(ino, d, k, i, name);
    RankedMore(ino, home, depth, i, d, k);
  }

  lemma UsersSound(ino: seq<Inode>, home: Homes, pending: seq<nat>, refs: seq<nat>, depth: seq<nat>, i: nat, n: nat)
    requires Sound(ino, home, pending, refs, depth) && i < |ino| && (ino[i].kind == Free ==> n == 0)
    ensures Sound(ino, home, pending, refs[i := n], depth)
  {
    UsersKeep(ino, home, pending, refs, i, n);
  }

  lemma SumsSet(a: seq<nat>, b: seq<nat>, i: nat, n: nat)
    requires |a| == |b| && i < |a|
    ensures Sums(a[i := n], b) == Sums(a, b)[i := n + b[i]]
  {
  }

  lemma SumsTwice(a: seq<nat>, b: seq<nat>, c: seq<nat>)
    requires |a| == |b| == |c|
    ensures Sums(Sums(a, b), c) == Sums(a, Sums(b, c))
  {
  }

  lemma UnlinkStray(ino: seq<Inode>, home: Homes, d: nat, k: nat, i: nat)
    requires NoStray(ino, home) && d < |ino| && 2 <= k < |ino[d].entries| && i == ino[d].entries[k].inum < |ino|
    requires ino[i].kind == Dir ==> OnlyDots(ino, i) && i != d
    ensures NoStray(Unlinked(ino, d, k), UnlinkedHome(ino, home, i))
  {
    forall c: nat, l: nat
      ensures !Stray(Unlinked(ino, d, k), UnlinkedHome(ino, home, i), c, l)
    {
      assert !Stray(ino, home, c, l);
    }
  }

  /** A directory that is freed in a tree without stray entries takes none with
      it. */
  lemma LostSame(ino: seq<Inode>, home: Homes, lost: seq<nat>, i: nat)
    requires Shape(ino, home) && i < |ino| == |lost| && !Attached(home, i)
    ensures Sums(lost, LostWith(ino, i)) == lost <==> OnlyDots(ino, i)
    ensures NoStray(ino, home) ==> OnlyDots(ino, i) && NoStray(ino[i := FREED], home)
  {
    NothingLost(ino, home, i);
    var r := Sums(lost, LostWith(ino, i));
    assert r == lost <==> forall j: nat :: j < |ino| ==> LostWith(ino, i)[j] == 0;
    if NoStray(ino, home) {
      var f := ino[i := FREED];
      forall c: nat, l: nat
        ensures !Stray(f, home, c, l)
      {
        assert !Stray(ino, home, c, l);
      }
      forall l: nat | 2 <= l < |ino[i].entries|
        ensures ino[i].entries[l].inum == 0
      {
        assert !Stray(ino, home, i, l);
      }
    }
  }

  /** The counts ahead are those of calls under way and the lost ones. */
  ghost predicate Kept(ino: seq<Inode>, home: Homes, pending: seq<nat>, lost: seq<nat>, refs: seq<nat>, depth: seq<nat>)
  {
    |lost| == |pending| && Sound(ino, home, Sums(pending, lost), refs, depth)
  }

  lemma AheadKept(ino: seq<Inode>, home: Homes, pending: seq<nat>, lost: seq<nat>, refs: seq<nat>, depth: seq<nat>,
      i: nat, ino': seq<Inode>, pending': seq<nat>)
    requires Kept(ino, home, pending, lost, refs, depth) && i < |ino| && ino[i].kind != Free
    requires ino' == Bumped(ino, i, 1) && pending' == pending[i := pending[i] + 1]
    ensures Kept(ino', home, pending', lost, refs, depth) <==> ino[i].nlink < MAXLINK
    ensures NoStray(ino', home) <==> NoStray(ino, home)
  {
    AheadSound(ino, home, Sums(pending, lost), refs, depth, i);
    SumsSet(pending, lost, i, pending[i] + 1);
    SameStray(ino, ino', home);
  }

  lemma BackKept(ino: seq<Inode>, home: Homes, pending: seq<nat>, lost: seq<nat>, refs: seq<nat>, depth: seq<nat>,
      i: nat, ino': seq<Inode>, pending': seq<nat>)
    requires Kept(ino, home, pending, lost, refs, depth) && i < |ino| && ino[i].kind != Free && pending[i] > 0
    requires ino' == Bumped(ino, i, -1) && pending' == pending[i := pending[i] - 1]
    ensures Kept(ino', home, pending', lost, refs, depth) && (NoStray(ino', home) <==> NoStray(ino, home))
  {
    BackSound(ino, home, Sums(pending, lost), refs, depth, i);
    SumsSet(pending, lost, i, pending[i] - 1);
    SameStray(ino, ino', home);
  }

  lemma EnterKept(ino: seq<Inode>, home: Homes, pending: seq<nat>, lost: seq<nat>, refs: seq<nat>, depth: seq<nat>,
      d: nat, k: nat, e: Entry, name: string, ino': seq<Inode>, pending': seq<nat>)
    requires Kept(ino, home, pending, lost, refs, depth) && d < |ino| && ino[d].kind == Dir && EmptyAt(ino, d, k)
    requires 0 < e.inum < |ino| && ino[e.inum].kind != Dir && ino[e.inum].kind != Free && pending[e.inum] > 0
    requires e.name == Cut(name) && forall j: nat :: !Matches(ino[d].entries, j, name)
    requires ino' == Entered(ino, d, k, e) && pending' == pending[e.inum := pending[e.inum] - 1]
    ensures Kept(ino', home, pending', lost, refs, depth)
    ensures NoStray(ino', home) <==> NoStray(ino, home) && Attached(home, d)
  {
    CutMatches(ino[d].entries, name);
    EnterSound(ino, home, Sums(pending, lost), refs, depth, d, k, e);
    SumsSet(pending, lost, e.inum, pending[e.inum] - 1);
    EnterStray(ino, home, d, k, e);
  }

  lemma AllocKept(ino: seq<Inode>, home: Homes, pending: seq<nat>, lost: seq<nat>, refs: seq<nat>, depth: seq<nat>,
      i: nat, kind: Kind, ino': seq<Inode>, pending': seq<nat>, refs': seq<nat>)
    requires Kept(ino, home, pending, lost, refs, depth) && 0 < i < |ino| && ino[i].kind == Free && kind != Dir
    requires kind != Free && ino' == ino[i := NewInode(kind)] && pending' == pending[i := 1] && refs' == refs[i := 1]
    ensures Kept(ino', home, pending', lost, refs', depth) && pending[i] == 0
    ensures NoStray(ino', home) <==> NoStray(ino, home)
  {
    AllocSound(ino, home, Sums(pending, lost), refs, depth, i, kind);
    SumsSet(pending, lost, i, 1);
    SameStray(ino, ino', home);
  }

  lemma CreateKept(ino: seq<Inode>, home: Homes, pending: seq<nat>, lost: seq<nat>, refs: seq<nat>, depth: seq<nat>,
      d: nat, k: nat, i: nat, kind: Kind, name: string, ino': seq<Inode>, refs': seq<nat>)
    requires Kept(ino, home, pending, lost, refs, depth) && d < |ino| && ino[d].kind == Dir && EmptyAt(ino, d, k)
    requires 0 < i < |ino| && ino[i].kind == Free && kind != Dir && kind != Free
    requires forall j: nat :: !Matches(ino[d].entries, j, name)
    requires ino' == Entered(ino[i := NewInode(kind)], d, k, Entry(i, Cut(name))) && refs' == refs[i := 1]
    ensures Kept(ino', home, pending, lost, refs', depth)
    ensures NoStray(ino', home) <==> NoStray(ino, home) && Attached(home, d)
  {
    var a, p := ino[i := NewInode(kind)], pending[i := 1];
    AllocKept(ino, home, pending, lost, refs, depth, i, kind, a, p, refs');
    UpAndDown(pending, p, p[i := p[i] - 1], i);
    EnterKept(a, home, p, lost, refs', depth, d, k, Entry(i, Cut(name)), name, ino', pending);
  }

  lemma UnlinkKept(ino: seq<Inode>, home: Homes, pending: seq<nat>, lost: seq<nat>, refs: seq<nat>, depth: seq<nat>,
      d: nat, k: nat, i: nat, ino': seq<Inode>, home': Homes, pending': seq<nat>)
    requires Kept(ino, home, pending, lost, refs, depth) && d < |ino| && 2 <= k < |ino[d].entries|
    requires i == ino[d].entries[k].inum != 0 && i < |ino| && (ino[i].kind == Dir ==> OnlyDots(ino, i))
    requires ino' == Unlinked(ino, d, k) && home' == UnlinkedHome(ino, home, i)
    requires pending' == pending[i := pending[i] + 1]
    ensures ino[i].nlink >= 1 && Kept(ino', home', pending', lost, refs, depth)
    ensures NoStray(ino, home) ==> NoStray(ino', home')
  {
    UnlinkSound(ino, home, Sums(pending, lost), refs, depth, d, k, i);
    SumsSet(pending, lost, i, pending[i] + 1);
    if NoStray(ino, home) {
      UnlinkStray(ino, home, d, k, i);
    }
  }

  lemma FreeKept(ino: seq<Inode>, home: Homes, pending: seq<nat>, lost: seq<nat>, refs: seq<nat>, depth: seq<nat>,
      i: nat, ino': seq<Inode>, lost': seq<nat>, refs': seq<nat>)
    requires Kept(ino, home, pending, lost, refs, depth) && i < |ino| && ino[i].kind != Free && ino[i].nlink == 0
    requires ino' == ino[i := FREED] && lost' == Sums(lost, LostWith(ino, i)) && refs' == refs[i := 0]
    ensures Kept(ino', home, pending, lost', refs', depth) && (lost' == lost <==> OnlyDots(ino, i))
    ensures NoStray(ino, home) ==> OnlyDots(ino, i) && NoStray(ino', home)
  {
    FreeSound(ino, home, Sums(pending, lost), refs, depth, i);
    LostSame(ino, home, lost, i);
    SumsTwice(pending, lost, LostWith(ino, i));
  }

  lemma UsersKept(ino: seq<Inode>, home: Homes, pending: seq<nat>, lost: seq<nat>, refs: seq<nat>, depth: seq<nat>,
      i: nat, refs': seq<nat>)
    requires Kept(ino, home, pending, lost, refs, depth) && i < |ino| && ino[i].kind != Free && |refs'| == |refs|
    requires refs' == refs[i := refs'[i]]
    ensures Kept(ino, home, pending, lost, refs', depth)
  {
    UsersSound(ino, home, Sums(pending, lost), refs, depth, i, refs'[i]);
  }

  /** Who has users is in use. */
  lemma UsedIsThere(ino: seq<Inode>, home: Homes, pending: seq<nat>, lost: seq<nat>, refs: seq<nat>, depth: seq<nat>,
      i: nat)
    requires Kept(ino, home, pending, lost, refs, depth) && i < |ino| && refs[i] > 0
    ensures ino[i].kind != Free
  {
    assert CountOk(ino, home, Sums(pending, lost), refs, i);
  }

  /** States of a file system with four inodes: empty; with file f; with
      directory d as well; f counted ahead; d without its entry; d without its
      count; f linked into d; and d freed. */
  function Stage(n: nat): seq<Inode> {
    var f := [Entry(ROOT, "."), Entry(ROOT, ".."), Entry(2, "f")];
    var d := [Entry(3, "."), Entry(ROOT, "..")];
    if n == 0 then [FREED, Inode(Dir, 1, [Entry(ROOT, "."), Entry(ROOT, "..")]), FREED, FREED]
    else if n == 1 then [FREED, Inode(Dir, 1, f), Inode(File, 1, []), FREED]
    else if n == 2 then [FREED, Inode(Dir, 2, f + [Entry(3, "d")]), Inode(File, 1, []), Inode(Dir, 1, d)]
    else if n == 3 then [FREED, Inode(Dir, 2, f + [Entry(3, "d")]), Inode(File, 2, []), Inode(Dir, 1, d)]
    else if n == 4 then [FREED, Inode(Dir, 1, f + [EMPTY]), Inode(File, 2, []), Inode(Dir, 1, d)]
    else if n == 5 then [FREED, Inode(Dir, 1, f + [EMPTY]), Inode(File, 2, []), Inode(Dir, 0, d)]
    else if n == 6 then [FREED, Inode(Dir, 1, f + [EMPTY]), Inode(File, 2, []), Inode(Dir, 0, d + [Entry(2, "g")])]
    else [FREED, Inode(Dir, 1, f + [EMPTY]), Inode(File, 2, []), FREED]
  }

  lemma StagesBuilt()
    ensures |Stage(0)| == 4 && Entered(Stage(0)[2 := NewInode(File)], ROOT, 2, Entry(2, "f")) == Stage(1)
    ensures |Stage(1)| == 4 && MadeDir(Stage(1), ROOT, 3, 3, "d") == Stage(2)
    ensures |Stage(2)| == 4 && Bumped(Stage(2), 2, 1) == Stage(3)
  {
    assert [Entry(ROOT, "."), Entry(ROOT, "..")] + [Entry(2, "f")] ==
        [Entry(ROOT, "."), Entry(ROOT, ".."), Entry(2, "f")];
  }

  lemma StagesUndone()
    ensures |Stage(3)| == 4 && Unlinked(Stage(3), ROOT, 3) == Stage(4)
    ensures |Stage(4)| == 4 && Bumped(Stage(4), 3, -1) == Stage(5)
    ensures |Stage(5)| == 4 && Entered(Stage(5), 3, 2, Entry(2, "g")) == Stage(6)
    ensures |Stage(6)| == 4 && Stage(6)[3 := FREED] == Stage(7)
  {
    var f := [Entry(ROOT, "."), Entry(ROOT, ".."), Entry(2, "f")];
    assert (f + [Entry(3, "d")])[3 := EMPTY] == f + [EMPTY];
  }

  /** In the end one entry names f, which counts two. */
  lemma StrayCount(ino: seq<Inode>, home: Homes)
    requires ino == Stage(7) && home == map[]
    ensures |ino| == 4 && ino[2].nlink == |RefsTo(ino, home, 2)| + 1
  {
    forall d: nat, k: nat
      ensures (d, k) in RefsTo(ino, home, 2) <==> d == ROOT && k == 2
    {
      InRefs(ino, home, 2, d, k);
    }
    assert RefsTo(ino, home, 2) == {(ROOT, 2)};
  }

  /** With d goes its entry for f. */
  lemma StrayLost(ino: seq<Inode>)
    requires ino == Stage(6)
    ensures |ino| == 4 && Sums([0, 0, 0, 0], LostWith(ino, 3)) == [0, 0, 1, 0]
  {
    forall j: nat, k: nat
      ensures (3, k) in Within(ino, 3, j) <==> j == 2 && k == 2
    {
      InWithin(ino, 3, j, k);
    }
    forall j: nat | j < 4
      ensures Within(ino, 3, j) == if j == 2 then {(3, 2)} else {}
    {
    }
  }

  lemma UpAndDown(a: seq<nat>, b: seq<nat>, c: seq<nat>, i: nat)
    requires i < |a| && b == a[i := a[i] + 1] && c == b[i := b[i] - 1]
    ensures c == a
  {
  }

  lemma SetBack(a: seq<nat>, i: nat, x: nat, y: nat)
    requires i < |a| && a[i] == y
    ensures a[i := x][i := y] == a
  {
  }
}
