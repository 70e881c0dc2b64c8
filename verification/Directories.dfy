/** sysfile.c and the directory code of fs.c as operations on one table of
    inodes, each a stretch of code that runs under the inode locks it takes. */
module Directories {
  import opened Links

  /** What create answers: the inode that has the name or was made, an error on
      a name that is taken, or a panic for want of an inode or on a ".." whose
      directory is gone. */
  datatype Created = Existing(i: nat) | New(i: nat) | Taken | NoInodes | Dangling

  ghost predicate FirstMatch(es: seq<Entry>, k: nat, name: string) {
    Matches(es, k, name) && forall j: nat :: j < k ==> !Matches(es, j, name)
  }

  class Inodes {
    var ino: seq<Inode>
    /** ip->ref of the inodes in memory. */
    var refs: seq<nat>
    ghost var home: Homes
    /** Calls under way that have counted a link ahead of its entry, or still
        after it. */
    ghost var pending: seq<nat>
    /** Counts whose entries went with the directory they were in. */
    ghost var lost: seq<nat>
    /** Grows from a directory to those below it. */
    ghost var depth: seq<nat>

    ghost predicate Valid()
      reads this
    {
      Kept(ino, home, pending, lost, refs, depth)
    }

    /** Only attached directories have entries besides the dots. */
    ghost predicate Tidy()
      reads this
    {
      NoStray(ino, home)
    }

    /** A file system with an empty root, as mkfs makes it. */
    constructor (n: nat)
      requires n > ROOT
      ensures Valid() && |ino| == n && ino[ROOT] == Inode(Dir, 1, [Entry(ROOT, "."), Entry(ROOT, "..")])
          && home == map[]
      ensures refs == pending == lost == seq(n, _ => 0) && Tidy()
      ensures forall i: nat :: i < n && i != ROOT ==> ino[i] == FREED
    {
      ino := seq(n, i => if i == ROOT then Inode(Dir, 1, [Entry(ROOT, "."), Entry(ROOT, "..")]) else FREED);
      refs, pending, lost, depth := seq(n, _ => 0), seq(n, _ => 0), seq(n, _ => 0), seq(n, _ => 0);
      home := map[];
      new;
      ghost var none := Sums(pending, lost);
      forall i: nat | i < n
        ensures CountOk(ino, home, none, refs, i)
      {
        forall d: nat, k: nat
          ensures (d, k) in RefsTo(ino, home, i) <==> i == ROOT && d == ROOT && k == 1
        {
          InRefs(ino, home, i, d, k);
        }
        if i == ROOT {
          assert RefsTo(ino, home, i) == {(ROOT, 1)};
        } else {
          assert RefsTo(ino, home, i) == {};
        }
      }
    }

    /** dirlookup: the first entry with the name. */
    method DirLookup(d: nat, name: string) returns (found: bool, k: nat)
      requires d < |ino|
      ensures found <==> exists j: nat :: Matches(ino[d].entries, j, name)
      ensures found ==> FirstMatch(ino[d].entries, k, name)
    {
      k, found := 0, false;
      while k < |ino[d].entries|
        invariant k <= |ino[d].entries| && forall j: nat :: j < k ==> !Matches(ino[d].entries, j, name)
      {
        if ino[d].entries[k].inum != 0 && Cut(ino[d].entries[k].name) == Cut(name) {
          assert Matches(ino[d].entries, k, name);
          return true, k;
        }
        k := k + 1;
      }
    }

    /** The second loop of dirlink: the first empty entry, or the end. */
    method FindSlot(d: nat) returns (k: nat)
      requires Valid() && d < |ino| && ino[d].kind == Dir
      ensures EmptyAt(ino, d, k) && forall j: nat :: j < k ==> ino[d].entries[j].inum != 0
    {
      k := 0;
      while k < |ino[d].entries| && ino[d].entries[k].inum != 0
        invariant k <= |ino[d].entries| && forall j: nat :: j < k ==> ino[d].entries[j].inum != 0
      {
        k := k + 1;
      }
      assert ino[d].entries[0].inum == d && ino[0].kind == Free;
    }

    /** isdirempty. */
    method IsDirEmpty(i: nat) returns (empty: bool)
      requires i < |ino|
      ensures empty <==> OnlyDots(ino, i)
    {
      var k := 2;
      while k < |ino[i].entries|
        invariant 2 <= k && forall j: nat :: 2 <= j < k && j < |ino[i].entries| ==> ino[i].entries[j].inum == 0
      {
        if ino[i].entries[k].inum != 0 {
          return false;
        }
        k := k + 1;
      }
      empty := true;
    }

    /** iget. */
    method Iget(i: nat)
      requires Valid() && i < |ino| && ino[i].kind != Free
      modifies this`refs
      ensures Valid() && refs == old(refs)[i := old(refs)[i] + 1]
    {
      refs := refs[i := refs[i] + 1];
      UsersKept(ino, home, pending, lost, old(refs), depth, i, refs);
    }

    /** iput: the last user of an inode without links frees it. An inode that
        was never read into memory (valid is 0) is left alone. Counts are lost
        just when a directory with entries is freed. */
    method Iput(i: nat, valid: bool)
      requires Valid() && i < |ino| && refs[i] > 0
      modifies this`ino, this`refs, this`lost
      ensures Valid() && refs == old(refs)[i := old(refs)[i] - 1]
      ensures valid && old(ino)[i].nlink == 0 && old(refs)[i] == 1 ==>
          ino == old(ino)[i := FREED] && lost == Sums(old(lost), LostWith(old(ino), i))
          && (lost == old(lost) <==> OnlyDots(old(ino), i))
      ensures !(valid && old(ino)[i].nlink == 0 && old(refs)[i] == 1) ==> ino == old(ino) && lost == old(lost)
      ensures old(Tidy()) ==> Tidy() && lost == old(lost)
    {
      UsedIsThere(ino, home, pending, lost, refs, depth, i);
      var last := valid && ino[i].nlink == 0 && refs[i] == 1;
      refs := refs[i := refs[i] - 1];
      if last {
        lost := Sums(lost, LostWith(ino, i));
        ino := ino[i := FREED];
        FreeKept(old(ino), home, pending, old(lost), old(refs), depth, i, ino, lost, refs);
      } else {
        UsersKept(ino, home, pending, lost, old(refs), depth, i, refs);
      }
    }

    /** sys_link up to the unlock of the file: its count goes up first. */
    method LinkBegin(i: nat) returns (ok: bool)
      requires Valid() && i < |ino| && refs[i] > 0
      modifies this`ino, this`pending
      ensures ok <==> old(ino)[i].kind != Dir
      ensures !ok ==> ino == old(ino) && pending == old(pending) && Valid()
      ensures ok ==>
          ino == Bumped(old(ino), i, 1) && pending == old(pending)[i := old(pending)[i] + 1]
          && (Valid() <==> old(ino)[i].nlink < MAXLINK)
      ensures Tidy() <==> old(Tidy())
    {
      UsedIsThere(ino, home, pending, lost, refs, depth, i);
      if ino[i].kind == Dir {
        return false;
      }
      ino := ino[i := ino[i].(nlink := Short(ino[i].nlink + 1))];
      pending := pending[i := pending[i] + 1];
      AheadKept(old(ino), home, old(pending), lost, refs, depth, i, ino, pending);
      ok := true;
    }

    /** The rest of sys_link, from the lock of the directory on: dirlink, or the
        count back on a name that is taken. */
    method LinkEnd(i: nat, d: nat, name: string) returns (ok: bool)
      requires Valid() && i < |ino| && ino[i].kind != Dir && ino[i].kind != Free && pending[i] > 0 && d < |ino|
          && ino[d].kind == Dir
      modifies this`ino, this`pending
      ensures ok <==> !exists j: nat :: Matches(old(ino)[d].entries, j, name)
      ensures pending == old(pending)[i := old(pending)[i] - 1]
      ensures Valid() && (!ok ==> ino == Bumped(old(ino), i, -1))
      ensures ok ==>
          exists k: nat ::
            k <= |old(ino)[d].entries| && EmptyAt(old(ino), d, k) && ino == Entered(old(ino), d, k, Entry(i, Cut(name)))
      ensures Tidy() <==> old(Tidy()) && (ok ==> Attached(home, d))
    {
      var found, _ := DirLookup(d, name);
      if found {
        ino := ino[i := ino[i].(nlink := Short(ino[i].nlink - 1))];
        pending := pending[i := pending[i] - 1];
        BackKept(old(ino), home, old(pending), lost, refs, depth, i, ino, pending);
        return false;
      }
      var k := FindSlot(d);
      EnterName(i, d, k, name);
      ok := true;
    }

    /** The store of dirlink, for an inode whose count is ahead. */
    method EnterName(i: nat, d: nat, k: nat, name: string)
      requires Valid() && i < |ino| && ino[i].kind != Dir && ino[i].kind != Free && pending[i] > 0 && d < |ino|
          && ino[d].kind == Dir
      requires EmptyAt(ino, d, k) && forall j: nat :: !Matches(ino[d].entries, j, name)
      modifies this`ino, this`pending
      ensures Valid() && pending == old(pending)[i := old(pending)[i] - 1]
      ensures ino == Entered(old(ino), d, k, Entry(i, Cut(name)))
      ensures Tidy() <==> old(Tidy()) && Attached(home, d)
    {
      var e := Entry(i, Cut(name));
      ino := ino[d := ino[d].(entries := Placed(ino[d].entries, k, e))];
      pending := pending[i := pending[i] - 1];
      EnterKept(old(ino), home, old(pending), lost, refs, depth, d, k, e, name, ino, pending);
    }

    /** sys_unlink while it holds the directory: refuses exactly the dots, a
        name that is not there and a directory that is not empty. Otherwise the
        entry goes, and with the entry of a directory the count that its ".."
        stood for. */
    method UnlinkEntry(d: nat, name: string) returns (ok: bool, i: nat, ghost k: nat)
      requires Valid() && d < |ino| && ino[d].kind == Dir
      modifies this`ino, this`home, this`pending
      ensures Valid() && (!ok ==> ino == old(ino) && home == old(home) && pending == old(pending))
      ensures Cut(name) == "." || Cut(name) == ".." || (forall j: nat :: !Matches(old(ino)[d].entries, j, name)) ==> !ok
      ensures Cut(name) != "." && Cut(name) != ".." && (exists j: nat :: Matches(old(ino)[d].entries, j, name)) ==>
                && 2 <= k && FirstMatch(old(ino)[d].entries, k, name) && i == old(ino)[d].entries[k].inum < |old(ino)|
                && (ok <==> (old(ino)[i].kind == Dir ==> OnlyDots(old(ino), i)))
      ensures ok ==>
          2 <= k < |old(ino)[d].entries| && i == old(ino)[d].entries[k].inum < |old(ino)| && old(ino)[i].nlink >= 1
      ensures ok ==> ino == Unlinked(old(ino), d, k) && home == UnlinkedHome(old(ino), old(home), i)
      ensures ok ==> pending == old(pending)[i := old(pending)[i] + 1]
      ensures old(Tidy()) ==> Tidy()
    {
      k, i, ok := 0, 0, false;
      if Cut(name) == "." || Cut(name) == ".." {
        return;
      }
      var found, off := DirLookup(d, name);
      if !found {
        return;
      }
      k, i := off, ino[d].entries[off].inum;
      assert Matches(ino[d].entries, off, name);
      if ino[i].kind == Dir {
        var empty := IsDirEmpty(i);
        if !empty {
          return;
        }
      }
      Clear(d, off, i);
      UnlinkKept(old(ino), old(home), old(pending), lost, refs, depth, d, off, i, ino, home, pending);
      ok := true;
    }

    /** The stores of sys_unlink into the directory and its count. */
    method Clear(d: nat, k: nat, i: nat)
      requires |pending| == |ino| && d < |ino| && k < |ino[d].entries| && i == ino[d].entries[k].inum < |ino|
      modifies this`ino, this`home, this`pending
      ensures ino == Unlinked(old(ino), d, k) && home == UnlinkedHome(old(ino), old(home), i)
          && pending == old(pending)[i := old(pending)[i] + 1]
    {
      var isDir := ino[i].kind == Dir;
      ino := ino[d := ino[d].(entries := ino[d].entries[k := EMPTY])];
      if isDir {
        ino := ino[d := ino[d].(nlink := Short(ino[d].nlink - 1))];
        home := home - {i};
      }
      pending := pending[i := pending[i] + 1];
    }

    /** The end of sys_unlink: the count follows the entry. */
    method UnlinkCount(i: nat)
      requires Valid() && i < |ino| && ino[i].kind != Free && pending[i] > 0
      modifies this`ino, this`pending
      ensures Valid() && ino == Bumped(old(ino), i, -1) && pending == old(pending)[i := old(pending)[i] - 1]
      ensures Tidy() <==> old(Tidy())
    {
      ino := ino[i := ino[i].(nlink := Short(ino[i].nlink - 1))];
      pending := pending[i := pending[i] - 1];
      BackKept(old(ino), home, old(pending), lost, refs, depth, i, ino, pending);
    }

    /** The loop of ialloc: the first free inode, if there is one. */
    method FindFree() returns (found: bool, i: nat)
      ensures found <==> exists j: nat :: 0 < j < |ino| && ino[j].kind == Free
      ensures found ==> 0 < i < |ino| && ino[i].kind == Free && forall j: nat :: 0 < j < i ==> ino[j].kind != Free
    {
      i, found := 1, false;
      while i < |ino|
        invariant 0 < i && forall j: nat :: 0 < j < i && j < |ino| ==> ino[j].kind != Free
      {
        if ino[i].kind == Free {
          return true, i;
        }
        i := i + 1;
      }
    }

    /** create of a file or device under a new name: ialloc, nlink = 1, dirlink. */
    method CreateFile(d: nat, name: string, i: nat, k: nat, kind: Kind)
      requires Valid() && d < |ino| && ino[d].kind == Dir && 0 < i < |ino| && ino[i].kind == Free && EmptyAt(ino, d, k)
      requires kind != Dir && kind != Free && forall j: nat :: !Matches(ino[d].entries, j, name)
      modifies this`ino, this`refs
      ensures ino == Entered(old(ino)[i := NewInode(kind)], d, k, Entry(i, Cut(name))) && refs == old(refs)[i := 1]
      ensures Valid() && (Tidy() <==> old(Tidy()) && Attached(home, d))
    {
      ino, refs := ino[i := Inode(kind, 1, [])], refs[i := 1];
      ino := ino[d := ino[d].(entries := Placed(ino[d].entries, k, Entry(i, Cut(name))))];
      CreateKept(old(ino), home, pending, lost, old(refs), depth, d, k, i, kind, name, ino, refs);
    }

    /** create of a directory under a new name: "." and "..", one count for the
        name, one more on the parent for "..". */
    method CreateDir(d: nat, name: string, i: nat, k: nat)
      requires Valid() && d < |ino| && ino[d].kind == Dir && 0 < i < |ino| && ino[i].kind == Free && EmptyAt(ino, d, k)
      requires forall j: nat :: !Matches(ino[d].entries, j, name)
      modifies this`ino, this`refs, this`home, this`depth
      ensures d != i && ino == MadeDir(old(ino), d, k, i, Cut(name)) && refs == old(refs)[i := 1]
          && home == old(home)[i := (d, k)]
      ensures Valid() <==> old(ino)[d].nlink < MAXLINK
      ensures Tidy() <==> old(Tidy()) && Attached(old(home), d)
    {
      assert d != i;
      MadeDirStray(ino, home, d, k, i, Cut(name));
      CutMatches(ino[d].entries, name);
      ghost var homes, ranks := home[i := (d, k)], depth[i := depth[d] + 1];
      MakeDir(d, Cut(name), i, k);
      refs, home, depth := refs[i := 1], homes, ranks;
      ghost var ahead, cut := Sums(pending, lost), Cut(name);
      MadeDirSound(old(ino), old(home), ahead, old(refs), old(depth), d, k, i, cut, ino, home, refs, depth);
    }

    /** The stores of create for a directory. */
    method MakeDir(d: nat, name: string, i: nat, k: nat)
      requires d < |ino| && i < |ino| && d != i && k <= |ino[d].entries|
      modifies this`ino
      ensures ino == MadeDir(old(ino), d, k, i, name)
    {
      ino := ino[i := Inode(Dir, 1, [])];
      ino := ino[d := ino[d].(nlink := Short(ino[d].nlink + 1))];
      ino := ino[i := ino[i].(entries := [Entry(i, "."), Entry(d, "..")])];
      ino := ino[d := ino[d].(entries := Placed(ino[d].entries, k, Entry(i, name)))];
    }

    /** The part of create for a name that is taken. */
    method OpenExisting(i: nat, kind: Kind) returns (r: Created)
      requires Valid() && i < |ino|
      modifies this`refs
      ensures Valid()
      ensures r == if ino[i].kind == Free then Dangling
          else if kind == File && ino[i].kind == File then Existing(i) else Taken
      ensures refs == if r.Existing? then old(refs)[i := old(refs)[i] + 1] else old(refs)
    {
      if ino[i].kind == Free {
        return Dangling;
      }
      if kind == File && ino[i].kind == File {
        Iget(i);
        return Existing(i);
      }
      return Taken;
    }

    /** The part of create for a new name. */
    method CreateNew(d: nat, name: string, i: nat, k: nat, kind: Kind)
      requires Valid() && d < |ino| && ino[d].kind == Dir && 0 < i < |ino| && ino[i].kind == Free && EmptyAt(ino, d, k)
      requires kind != Free && forall j: nat :: !Matches(ino[d].entries, j, name)
      modifies this`ino, this`refs, this`home, this`depth
      ensures d != i && refs == old(refs)[i := 1]
      ensures kind == Dir ==>
          ino == MadeDir(old(ino), d, k, i, Cut(name)) && (Valid() <==> old(ino)[d].nlink < MAXLINK)
      ensures kind != Dir ==> ino == Entered(old(ino)[i := NewInode(kind)], d, k, Entry(i, Cut(name))) && Valid()
      ensures Tidy() <==> old(Tidy()) && Attached(old(home), d)
    {
      if kind == Dir {
        CreateDir(d, name, i, k);
      } else {
        CreateFile(d, name, i, k, kind);
      }
    }

    /** create. An existing file is returned when a file was asked for; any
        other existing name is an error. A new name gets the first free inode. */
    method Create(d: nat, name: string, kind: Kind) returns (r: Created, ghost k: nat)
      requires Valid() && d < |ino| && ino[d].kind == Dir && kind != Free
      modifies this`ino, this`refs, this`home, this`depth
      ensures !r.New? ==> Valid() && ino == old(ino) && home == old(home)
      ensures (exists j: nat :: Matches(old(ino)[d].entries, j, name)) ==>
                && FirstMatch(old(ino)[d].entries, k, name) && old(ino)[d].entries[k].inum < |old(ino)|
                && var i := old(ino)[d].entries[k].inum;
                   r == if old(ino)[i].kind == Free then Dangling
                        else if kind == File && old(ino)[i].kind == File then Existing(i) else Taken
      ensures r == Dangling ==> k == 1 && !Attached(home, d)
      ensures (forall j: nat :: !Matches(old(ino)[d].entries, j, name)) ==>
                (r == NoInodes || r.New?)
                    && (r.New? <==> exists i: nat :: 0 < i < |old(ino)| && old(ino)[i].kind == Free)
      ensures r.New? ==>
                && 0 < r.i < |old(ino)| && r.i != d && old(ino)[r.i].kind == Free && EmptyAt(old(ino), d, k)
                && refs == old(refs)[r.i := 1]
                && (forall j: nat :: 0 < j < r.i ==> old(ino)[j].kind != Free)
      ensures r.New? && kind == Dir ==>
                ino == MadeDir(old(ino), d, k, r.i, Cut(name)) && (Valid() <==> old(ino)[d].nlink < MAXLINK)
      ensures r.New? && kind != Dir ==>
                ino == Entered(old(ino)[r.i := NewInode(kind)], d, k, Entry(r.i, Cut(name))) && Valid()
      ensures Tidy() <==> old(Tidy()) && (r.New? ==> Attached(old(home), d))
    {
      var found, off := DirLookup(d, name);
      k := off;
      if found {
        if off != 1 || Attached(home, d) {
          NoDanglingEntry(ino, home, Sums(pending, lost), refs, d, off);
        }
        r := OpenExisting(ino[d].entries[off].inum, kind);
        return;
      }
      var free, i := FindFree();
      if !free {
        return NoInodes, k;
      }
      var slot := FindSlot(d);
      k, r := slot, New(i);
      CreateNew(d, name, i, slot, kind);
    }

    /** The stages of the run below: a file f in the root. */
    method MakeF()
      requires Valid() && home == map[] && ino == Stage(0) && refs[2] == 0
      modifies this`ino, this`refs, this`lost
      ensures Valid() && ino == Stage(1) && refs == old(refs) && lost == old(lost)
    {
      StagesBuilt();
      SetBack(refs, 2, 1, 0);
      CreateFile(ROOT, "f", 2, 2, File);
      Iput(2, true);
    }

    /** A directory d in the root. */
    method MakeD()
      requires Valid() && home == map[] && ino == Stage(1) && refs[3] == 0
      modifies this`ino, this`refs, this`home, this`depth, this`lost
      ensures Valid() && home == map[3 := (ROOT, 3)] && ino == Stage(2) && refs == old(refs) && lost == old(lost)
    {
      StagesBuilt();
      SetBack(refs, 3, 1, 0);
      CreateDir(ROOT, "d", 3, 3);
      Iput(3, true);
    }

    /** The first half of link for f, up to the parent of the new name. */
    method StartLink()
      requires Valid() && ino == Stage(2) && refs[2] == refs[3] == pending[2] == 0
      modifies this`ino, this`refs, this`pending
      ensures Valid() && ino == Stage(3) && refs == old(refs)[2 := 1][3 := 1] && pending == old(pending)[2 := 1]
    {
      StagesBuilt();
      Iget(2);
      var _ := LinkBegin(2);
      Iget(3);
    }

    /** unlink of d by another process: its entry, and then its count. */
    method RemoveD()
      requires Valid() && home == map[3 := (ROOT, 3)] && ino == Stage(3)
      modifies this`ino, this`home, this`pending
      ensures Valid() && home == map[] && ino == Stage(5) && pending == old(pending)
    {
      StagesUndone();
      RemoveEntry();
      ghost var up := pending;
      UnlinkCount(3);
      UpAndDown(old(pending), up, pending, 3);
    }

    method RemoveEntry()
      requires Valid() && home == map[3 := (ROOT, 3)] && ino == Stage(3)
      modifies this`ino, this`home, this`pending
      ensures Valid() && home == map[] && ino == Stage(4) && |pending| == 4
      ensures pending == old(pending)[3 := old(pending)[3] + 1]
    {
      StagesUndone();
      assert Matches(ino[ROOT].entries, 3, "d");
      var ok, i, k := UnlinkEntry(ROOT, "d");
      assert k == 3;
    }

    /** The same with its user of d. */
    method RemovedByOther()
      requires Valid() && home == map[3 := (ROOT, 3)] && ino == Stage(3) && refs[3] == 1
      modifies this`ino, this`home, this`pending, this`refs, this`lost
      ensures Valid() && home == map[] && ino == Stage(5) && pending == old(pending)
      ensures refs == old(refs) && lost == old(lost)
    {
      Iget(3);
      ghost var up := refs;
      RemoveD();
      Leave(3);
      UpAndDown(old(refs), up, refs, 3);
    }

    /** The second half of link. */
    method LinkIntoRemoved()
      requires Valid() && home == map[] && ino == Stage(5) && pending[2] == 1
      modifies this`ino, this`pending
      ensures Valid() && ino == Stage(6) && pending == old(pending)[2 := 0]
    {
      StagesUndone();
      var _ := LinkEnd(2, 3, "g");
    }

    /** link for f into d, with the unlink in between. */
    method LinkAcross()
      requires Valid() && home == map[3 := (ROOT, 3)] && ino == Stage(2) && refs[2] == refs[3] == pending[2] == 0
      modifies this`ino, this`home, this`pending, this`refs, this`lost
      ensures Valid() && home == map[] && ino == Stage(6) && pending == old(pending)
      ensures refs == old(refs)[2 := 1][3 := 1] && lost == old(lost)
    {
      SetBack(pending, 2, 1, 0);
      StartLink();
      RemovedByOther();
      LinkIntoRemoved();
    }

    /** The end of link: the directory goes with its last user. */
    method LetGo()
      requires Valid() && ino == Stage(6) && refs[2] == refs[3] == 1 && lost == [0, 0, 0, 0]
      modifies this`ino, this`refs, this`lost
      ensures Valid() && ino == Stage(7) && refs == old(refs)[3 := 0][2 := 0] && lost == [0, 0, 1, 0]
    {
      StagesUndone();
      StrayLost(ino);
      Drop(3, Stage(7));
      Iput(2, true);
    }

    /** iput by a user who is not the last. */
    method Leave(i: nat)
      requires Valid() && i < |ino| && refs[i] > 1
      modifies this`ino, this`refs, this`lost
      ensures Valid() && ino == old(ino) && lost == old(lost) && refs == old(refs)[i := old(refs)[i] - 1]
    {
      Iput(i, true);
    }

    /** iput by the last user of an inode without links. */
    method Drop(i: nat, ghost r: seq<Inode>)
      requires Valid() && i < |ino| && ino[i].nlink == 0 && refs[i] == 1 && r == ino[i := FREED]
      modifies this`ino, this`refs, this`lost
      ensures Valid() && ino == r && refs == old(refs)[i := 0] && lost == Sums(old(lost), LostWith(old(ino), i))
    {
      Iput(i, true);
    }
  }

  /** A file f and a directory d in an otherwise empty root. */
  method Populate() returns (fs: Inodes)
    ensures fresh(fs) && fs.Valid() && fs.home == map[3 := (ROOT, 3)] && fs.ino == Stage(2)
    ensures fs.refs == fs.pending == fs.lost == [0, 0, 0, 0]
  {
    fs := new Inodes(4);
    assert fs.ino == Stage(0);
    fs.MakeF();
    fs.MakeD();
  }

  /** A run of the calls that ends in a wrong count: link has counted f ahead and
      found the directory d, d is removed, f is linked into it, and d goes with
      its last user. No call is under way any more, and f has one entry and two
      links. */
  method StrayRun() returns (fs: Inodes)
    ensures fs.Valid() && fs.ino == Stage(7) && fs.refs == fs.pending == [0, 0, 0, 0] && fs.lost == [0, 0, 1, 0]
    ensures |fs.ino| == 4 && fs.ino[2].nlink == |RefsTo(fs.ino, fs.home, 2)| + 1
  {
    fs := Populate();
    fs.LinkAcross();
    fs.LetGo();
    StrayCount(fs.ino, fs.home);
  }
}
