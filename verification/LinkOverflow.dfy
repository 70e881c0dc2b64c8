/** A file whose count has no room left: a run of the calls that gives it 32767
    names in eight directories, none of them larger than a file can be. */
module LinkOverflow {
  import opened Links
  import opened Directories

  /** Directory entries that fit in a file: 140 blocks of 512 bytes, 16 bytes
      each. */
  const MAXENTRIES := 4480
  const SHARE := 4096

  function Letter(n: nat): char
    requires n < 32
  {
    (64 + n) as char
  }

  /** Three letters, different for each number. */
  function Name(n: nat): (r: string)
    requires n < 32768
    ensures |r| == 3
  {
    [Letter(n / 1024), Letter(n / 32 % 32), Letter(n % 32)]
  }

  lemma NamesDiffer(m: nat, n: nat)
    requires m < 32768 && n < 32768 && Name(m) == Name(n)
    ensures m == n
  {
    assert Name(m)[0] == Name(n)[0] && Name(m)[1] == Name(n)[1] && Name(m)[2] == Name(n)[2];
  }

  /** None of the names from m on. */
  ghost predicate Fresh(name: string, m: nat) {
    forall n: nat :: m <= n < 32768 ==> Cut(name) != Name(n)
  }

  lemma FreshAfter(m: nat)
    requires m < 32768
    ensures Fresh(Name(m), m + 1)
  {
    forall n: nat | m + 1 <= n < 32768
      ensures Name(m) != Name(n)
    {
      if Name(m) == Name(n) {
        NamesDiffer(m, n);
      }
    }
  }

  ghost predicate AllFresh(es: seq<Entry>, m: nat) {
    forall j: nat :: j < |es| && es[j].inum != 0 ==> Fresh(es[j].name, m)
  }

  lemma NoMatch(es: seq<Entry>, m: nat)
    requires AllFresh(es, m) && m < 32768
    ensures forall j: nat :: !Matches(es, j, Name(m))
  {
  }

  lemma PlacedFresh(es: seq<Entry>, k: nat, i: nat, m: nat)
    requires AllFresh(es, m) && k <= |es| && m < 32768
    ensures AllFresh(Placed(es, k, Entry(i, Name(m))), m + 1)
  {
    FreshAfter(m);
  }

  /** How many of the first m names are in directory d. */
  function Share(m: nat, d: nat): nat
    requires d >= 3
  {
    if m < SHARE * (d - 3) then 0 else if m < SHARE * (d - 2) then m - SHARE * (d - 3) else SHARE
  }

  ghost predicate Held(inode: Inode, m: nat, d: nat)
    requires d >= 3
  {
    inode.kind == Dir && |inode.entries| <= 2 + Share(m, d) && AllFresh(inode.entries, m)
  }

  /** The directories 3 to 10 hold m of the names of file 2. */
  ghost predicate Filled(ino: seq<Inode>, m: nat) {
    && |ino| == 11 && ino[2].kind == File && ino[2].nlink == m + 1
    && forall d: nat :: 3 <= d < 11 ==> Held(ino[d], m, d)
  }

  /** One more name, and the count raised for it. */
  lemma FilledMore(ino: seq<Inode>, m: nat, d: nat, k: nat, next: nat)
    requires Filled(ino, m) && next == m + 1 < MAXLINK && d == 3 + m / SHARE && k <= |ino[d].entries|
    ensures d < 11 && Filled(Entered(Bumped(ino, 2, 1), d, k, Entry(2, Name(m))), next)
  {
    var r := Entered(Bumped(ino, 2, 1), d, k, Entry(2, Name(m)));
    PlacedFresh(ino[d].entries, k, 2, m);
    forall c: nat | 3 <= c < 11
      ensures Held(r[c], next, c)
    {
      assert Held(ino[c], m, c);
    }
  }

  /** link of file 2 under the next name. */
  method LinkOne(fs: Inodes, m: nat, ghost next: nat)
    requires fs.Valid() && Filled(fs.ino, m) && next == m + 1 < MAXLINK && fs.refs[2] > 0
    modifies fs`ino, fs`pending
    ensures fs.Valid() && Filled(fs.ino, next)
  {
    var d := 3 + m / SHARE;
    assert Held(fs.ino[d], m, d);
    NoMatch(fs.ino[d].entries, m);
    ghost var before := fs.ino;
    var _ := fs.LinkBegin(2);
    var ok := fs.LinkEnd(2, d, Name(m));
    ghost var k: nat :| k <= |Bumped(before, 2, 1)[d].entries|
        && fs.ino == Entered(Bumped(before, 2, 1), d, k, Entry(2, Cut(Name(m))));
    FilledMore(before, m, d, k, next);
  }

  /** File 2, and the directories 3 to 2 + q in the root. */
  ghost predicate Laid(ino: seq<Inode>, q: nat) {
    && |ino| == 11 && q <= 8 && ino[2] == Inode(File, 1, []) && ino[ROOT].kind == Dir && ino[ROOT].nlink == 1 + q
    && |ino[ROOT].entries| == 3 + q && AllFresh(ino[ROOT].entries, q)
    && (forall d: nat :: 3 <= d < 3 + q ==> ino[d] == NewDir(d, ROOT))
    && forall d: nat :: 3 + q <= d < 11 ==> ino[d] == FREED
  }

  lemma LaidMore(ino: seq<Inode>, q: nat, next: nat)
    requires Laid(ino, q) && next == q + 1 <= 8
    ensures Laid(MadeDir(ino, ROOT, 3 + q, 3 + q, Name(q)), next)
  {
    PlacedFresh(ino[ROOT].entries, 3 + q, 3 + q, q);
    forall d: nat | d < 11
      ensures d != ROOT && d != 3 + q ==> MadeDir(ino, ROOT, 3 + q, 3 + q, Name(q))[d] == ino[d]
    {
      MadeDirAt(ino, ROOT, 3 + q, 3 + q, Name(q), d);
    }
    MadeDirAt(ino, ROOT, 3 + q, 3 + q, Name(q), ROOT);
  }

  method MakeOne(fs: Inodes, q: nat, ghost next: nat)
    requires fs.Valid() && Laid(fs.ino, q) && next == q + 1 <= 8 && fs.refs[2] == 1
    modifies fs`ino, fs`refs, fs`home, fs`depth
    ensures fs.Valid() && Laid(fs.ino, next) && fs.refs[2] == 1
  {
    NoMatch(fs.ino[ROOT].entries, q);
    LaidMore(fs.ino, q, next);
    fs.CreateDir(ROOT, Name(q), 3 + q, 3 + q);
  }

  lemma LaidFirst(ino: seq<Inode>)
    requires |ino| == 11 && ino[ROOT] == Inode(Dir, 1, [Entry(ROOT, "."), Entry(ROOT, "..")])
    requires forall i: nat :: i < 11 && i != ROOT ==> ino[i] == FREED
    ensures Laid(Entered(ino[2 := NewInode(File)], ROOT, 2, Entry(2, "f")), 0)
  {
  }

  lemma LaidFilled(ino: seq<Inode>)
    requires Laid(ino, 8)
    ensures Filled(ino, 0)
  {
    forall d: nat | 3 <= d < 11
      ensures Held(ino[d], 0, d)
    {
      assert ino[d] == NewDir(d, ROOT);
    }
  }

  /** A file with one name and eight empty directories. */
  method Lay() returns (fs: Inodes)
    ensures fresh(fs) && fs.Valid() && Filled(fs.ino, 0) && fs.refs[2] == 1
  {
    fs := new Inodes(11);
    LaidFirst(fs.ino);
    fs.CreateFile(ROOT, "f", 2, 2, File);
    var q := 0;
    while q < 8
      invariant q <= 8 && fs.Valid() && Laid(fs.ino, q) && fs.refs[2] == 1
    {
      var next := q + 1;
      MakeOne(fs, q, next);
      q := next;
    }
    LaidFilled(fs.ino);
  }

  /** A sound file system with a full count. */
  method FullCount() returns (fs: Inodes)
    ensures fresh(fs) && fs.Valid() && Filled(fs.ino, MAXLINK - 1) && fs.refs[2] == 1
    ensures fs.ino[2].nlink == MAXLINK && forall d: nat :: 3 <= d < 11 ==> |fs.ino[d].entries| <= MAXENTRIES
  {
    fs := Lay();
    var m := 0;
    while m < MAXLINK - 1
      invariant m < MAXLINK && fs.Valid() && Filled(fs.ino, m) && fs.refs[2] == 1
    {
      var next := m + 1;
      LinkOne(fs, m, next);
      m := next;
    }
    assert forall d: nat :: 3 <= d < 11 ==> Held(fs.ino[d], MAXLINK - 1, d);
  }

  /** One more link makes the count negative. */
  method OneTooMany() returns (fs: Inodes)
    ensures !fs.Valid() && |fs.ino| == 11 && fs.ino[2].nlink == -32768
  {
    fs := FullCount();
    var _ := fs.LinkBegin(2);
  }
}
