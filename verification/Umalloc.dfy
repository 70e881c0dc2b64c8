/** The user-level allocator: a circular, address-ordered free list through
    `base`, with coalescing. Addresses count header-sized units. */
module Umalloc {

  /** The blocks of the arena (start and length, both free and live), and for
      every unit obtained from sbrk the block it lies in. */
  datatype Arena = Arena(blk: map<int, nat>, own: map<int, int>)

  ghost predicate InBlock(blk: map<int, nat>, a: int, u: int) {
    a in blk && a <= u < a + blk[a]
  }

  /** The blocks are disjoint and cover exactly the units in own. */
  ghost predicate Tiles(m: Arena) {
    && (forall a :: a in m.blk ==> m.blk[a] >= 1)
    && (forall a, u :: InBlock(m.blk, a, u) ==> u in m.own && m.own[u] == a)
    && (forall u :: u in m.own ==> InBlock(m.blk, m.own[u], u))
  }

  lemma BlocksDisjoint(m: Arena, a: int, b: int)
    requires Tiles(m) && a in m.blk && b in m.blk && a < b
    ensures a + m.blk[a] <= b
  {
    assert InBlock(m.blk, b, b);
    if b < a + m.blk[a] {
      assert InBlock(m.blk, a, b);
    }
  }

  ghost function Reassign(own: map<int, int>, lo: int, hi: int, a: int): map<int, int> {
    map u | u in own :: if lo <= u < hi then a else own[u]
  }

  /** The block at b joined to the block that ends where it starts. */
  ghost function Merged(m: Arena, a: int, b: int): Arena
    requires a in m.blk && b in m.blk
  {
    Arena((m.blk - {b})[a := m.blk[a] + m.blk[b]], Reassign(m.own, b, b + m.blk[b], a))
  }

  lemma MergedTiles(m: Arena, a: int, b: int)
    requires Tiles(m) && a in m.blk && b in m.blk && a + m.blk[a] == b
    ensures Tiles(Merged(m, a, b)) && Merged(m, a, b).own.Keys == m.own.Keys
  {
    var r := Merged(m, a, b);
    forall c, u | InBlock(r.blk, c, u)
      ensures u in r.own && r.own[u] == c
    {
      if c == a {
        assert InBlock(m.blk, a, u) || InBlock(m.blk, b, u);
      } else {
        assert InBlock(m.blk, c, u);
        assert !InBlock(m.blk, b, u);
      }
    }
    forall u | u in r.own
      ensures InBlock(r.blk, r.own[u], u)
    {
      assert InBlock(m.blk, m.own[u], u);
      assert InBlock(m.blk, b, u) ==> m.own[u] == b;
    }
  }

  /** The last k units of the block at a split off as a block of their own. */
  ghost function Split(m: Arena, a: int, k: nat): Arena
    requires a in m.blk && k < m.blk[a]
  {
    var t := a + m.blk[a] - k;
    Arena(m.blk[a := m.blk[a] - k][t := k], Reassign(m.own, t, t + k, t))
  }

  lemma SplitTiles(m: Arena, a: int, k: nat)
    requires Tiles(m) && a in m.blk && 0 < k < m.blk[a]
    ensures Tiles(Split(m, a, k)) && Split(m, a, k).own.Keys == m.own.Keys
    ensures a + m.blk[a] - k !in m.blk
  {
    var t := a + m.blk[a] - k;
    var r := Split(m, a, k);
    if t in m.blk {
      BlocksDisjoint(m, a, t);
    }
    forall c, u | InBlock(r.blk, c, u)
      ensures u in r.own && r.own[u] == c
    {
      if c == a || c == t {
        assert InBlock(m.blk, a, u);
      } else {
        assert InBlock(m.blk, c, u);
        assert !InBlock(m.blk, a, u);
      }
    }
    forall u | u in r.own
      ensures InBlock(r.blk, r.own[u], u)
    {
      assert InBlock(m.blk, m.own[u], u);
      assert InBlock(m.blk, a, u) ==> m.own[u] == a;
    }
  }

  ghost predicate Within(a: int, k: nat, u: int) {
    a <= u < a + k
  }

  ghost function Units(a: int, k: nat): (r: set<int>)
    ensures forall u :: u in r <==> a <= u < a + k
  {
    set u | a <= u < a + k && Within(a, k, u)
  }

  /** A new block of k units that sbrk has just handed out. */
  ghost function Added(m: Arena, a: int, k: nat): Arena {
    Arena(m.blk[a := k], m.own + (map u | u in Units(a, k) :: a))
  }

  ghost predicate Unused(m: Arena, a: int, k: nat) {
    forall u :: a <= u < a + k ==> u !in m.own
  }

  lemma AddedTiles(m: Arena, a: int, k: nat)
    requires Tiles(m) && k >= 1 && Unused(m, a, k)
    ensures Tiles(Added(m, a, k)) && a !in m.blk
    ensures Added(m, a, k).own.Keys == m.own.Keys + Units(a, k)
  {
    if a in m.blk {
      assert InBlock(m.blk, a, a);
    }

    var r := Added(m, a, k);
    forall c, u | InBlock(r.blk, c, u)
      ensures u in r.own && r.own[u] == c
    {
      if c != a {
        assert InBlock(m.blk, c, u);
      }
    }
    forall u | u in r.own
      ensures InBlock(r.blk, r.own[u], u)
    {
      if !(a <= u < a + k) {
        assert InBlock(m.blk, m.own[u], u);
      }
    }
  }

  /** Each node of s points to the next one. */
  ghost predicate Chain(ptr: map<int, int>, s: seq<int>) {
    forall i {:trigger ptr[s[i]]} {:trigger s[i] in ptr} :: 0 <= i < |s| - 1 ==> s[i] in ptr && ptr[s[i]] == s[i + 1]
  }

  /** base first, then free blocks in address order with a gap between any two
      of them, so no two free blocks are adjacent. */
  ghost predicate Apart(size: map<int, nat>, s: seq<int>, base: int) {
    && |s| > 0 && s[0] == base && base in size && size[base] == 0
    && (forall i :: 1 <= i < |s| ==> base < s[i] && s[i] in size && size[s[i]] >= 1)
    && (forall i, j :: 1 <= i < j < |s| ==> s[i] + size[s[i]] < s[j])
  }

  ghost predicate FreeList(ptr: map<int, int>, size: map<int, nat>, list: seq<int>, base: int) {
    Apart(size, list, base) && Chain(ptr, list + [base])
  }

  /** list holds base and the free blocks. */
  ghost predicate Lists(list: seq<int>, free: set<int>, base: int) {
    base !in free && forall x :: x in list <==> x == base || x in free
  }

  /** The blocks of the arena are the free ones and the live ones, and every
      header holds the length of its block. */
  ghost predicate Accounts(m: Arena, free: set<int>, live: set<int>, size: map<int, nat>, base: int) {
    && Tiles(m) && m.blk.Keys == free + live && free !! live
    && (forall a :: a in m.blk ==> base < a && a in size && size[a] == m.blk[a])
  }

  /** The position behind which a block belongs. */
  ghost function Spot(list: seq<int>, bp: int): (j: nat)
    requires |list| > 0 && list[0] < bp
    ensures j < |list| && list[j] < bp && (j + 1 < |list| ==> list[j + 1] >= bp)
  {
    if |list| == 1 || bp <= list[1] then 0 else 1 + Spot(list[1..], bp)
  }

  lemma NextIs(ptr: map<int, int>, size: map<int, nat>, list: seq<int>, base: int, k: nat)
    requires FreeList(ptr, size, list, base) && k < |list|
    ensures list[k] in ptr && ptr[list[k]] == if k + 1 < |list| then list[k + 1] else base
  {
    var c := list + [base];
    assert c[k] == list[k];
    assert c[k] in ptr && ptr[c[k]] == c[k + 1];
  }

  lemma Increasing(size: map<int, nat>, list: seq<int>, base: int, i: nat, j: nat)
    requires Apart(size, list, base) && i < j < |list|
    ensures list[i] < list[j]
  {
  }

  lemma Ordered(size: map<int, nat>, list: seq<int>, base: int)
    requires Apart(size, list, base)
    ensures forall i, j :: 0 <= i < j < |list| ==> list[i] < list[j]
  {
  }

  /** Only one position has its node below bp and the next node above. */
  lemma SpotUnique(size: map<int, nat>, list: seq<int>, base: int, bp: int, k: nat, j: nat)
    requires Apart(size, list, base) && k < |list| && j < |list|
    requires list[k] < bp && (k + 1 < |list| ==> bp < list[k + 1])
    requires list[j] < bp && (j + 1 < |list| ==> bp < list[j + 1])
    ensures k == j
  {
    Ordered(size, list, base);
  }

  lemma ChainParts(ptr: map<int, int>, s: seq<int>, k: nat)
    requires Chain(ptr, s) && k <= |s|
    ensures Chain(ptr, s[..k]) && Chain(ptr, s[k..])
  {
    var t := s[k..];
    forall i | 0 <= i < |t| - 1
      ensures t[i] in ptr && ptr[t[i]] == t[i + 1]
    {
      assert t[i] == s[k + i] && t[i + 1] == s[k + i + 1];
    }
  }

  /** Redirecting a node that has no successor in s. */
  lemma ChainRedirect(ptr: map<int, int>, s: seq<int>, x: int, y: int)
    requires Chain(ptr, s) && forall i :: 0 <= i < |s| - 1 ==> s[i] != x
    ensures Chain(ptr[x := y], s)
  {
  }

  lemma ChainJoin(ptr: map<int, int>, a: seq<int>, b: seq<int>)
    requires Chain(ptr, a) && Chain(ptr, b) && |a| > 0 && |b| > 0
    requires a[|a| - 1] in ptr && ptr[a[|a| - 1]] == b[0]
    ensures Chain(ptr, a + b)
  {
    var s := a + b;
    forall i | 0 <= i < |s| - 1
      ensures s[i] in ptr && ptr[s[i]] == s[i + 1]
    {
      if i + 1 < |a| {
        assert a[i] in ptr && ptr[a[i]] == a[i + 1];
      } else if i >= |a| {
        assert b[i - |a|] in ptr && ptr[b[i - |a|]] == b[i - |a| + 1];
      }
    }
  }

  /** A block that keeps its distance from both neighbours joins the list. */
  lemma ApartInsert(size: map<int, nat>, a: seq<int>, bp: int, r: seq<int>, base: int)
    requires |a| > 0 && Apart(size, a + r, base) && base < bp && bp in size && size[bp] >= 1
    requires forall i :: 1 <= i < |a| ==> a[i] in size && a[i] + size[a[i]] < bp
    requires forall i :: 0 <= i < |r| ==> bp + size[bp] < r[i]
    ensures Apart(size, a + [bp] + r, base)
  {
    var s, t := a + r, a + [bp] + r;
    forall i, j | 1 <= i < j < |t|
      ensures t[i] in size && t[i] + size[t[i]] < t[j]
    {
      if i < |a| {
        assert t[i] == s[i];
      } else if i > |a| {
        assert t[i] == s[i - 1];
      }
      if j < |a| {
        assert s[i] + size[s[i]] < s[j];
      } else if i > |a| {
        assert s[i - 1] + size[s[i - 1]] < s[j - 1];
      } else if i < |a| < j {
        assert s[i] + size[s[i]] < s[j - 1];
      }
    }
    forall i | 1 <= i < |t|
      ensures base < t[i] && t[i] in size && size[t[i]] >= 1
    {
      if i < |a| {
        assert t[i] == s[i];
      } else if i > |a| {
        assert t[i] == s[i - 1];
      }
    }
  }

  /** A block grows without reaching the next one. */
  lemma ApartGrow(size: map<int, nat>, a: seq<int>, r: seq<int>, base: int, k: nat)
    requires |a| > 1 && Apart(size, a + r, base) && k >= 1
    requires forall i :: 0 <= i < |r| ==> a[|a| - 1] + k < r[i]
    ensures Apart(size[a[|a| - 1] := k], a + r, base)
  {
    var s, p := a + r, a[|a| - 1];
    assert s[|a| - 1] == p;
    Ordered(size, s, base);
    var size' := size[p := k];
    forall i, j | 1 <= i < j < |s|
      ensures s[i] + size'[s[i]] < s[j]
    {
      if i == |a| - 1 {
        assert s[j] == r[j - |a|];
      }
    }
  }

  lemma ApartDrop(size: map<int, nat>, list: seq<int>, base: int, k: nat)
    requires Apart(size, list, base) && 1 <= k < |list|
    ensures Apart(size, list[..k] + list[k + 1..], base)
  {
    var s := list[..k] + list[k + 1..];
    forall i, j | 1 <= i < j < |s|
      ensures s[i] + size[s[i]] < s[j]
    {
      var i', j' := if i < k then i else i + 1, if j < k then j else j + 1;
      assert list[i'] + size[list[i']] < list[j'];
    }
  }

  /** A live block about to be freed, and the position behind which it goes. */
  ghost predicate Insertable(ptr: map<int, int>, size: map<int, nat>, list: seq<int>, base: int, m: Arena,
      free: set<int>, live: set<int>, j: nat, bp: int) {
    && FreeList(ptr, size, list, base) && Lists(list, free, base) && Accounts(m, free, live, size, base) && bp in live
    && j < |list| && list[j] < bp && (j + 1 < |list| ==> bp < list[j + 1])
  }

  /** The list leads from base to position j, and from bp to the rest. */
  ghost predicate HalfChained(ptr: map<int, int>, list: seq<int>, base: int, j: nat, bp: int)
    requires j < |list|
  {
    Chain(ptr, list[..j + 1]) && Chain(ptr, [bp] + (list[j + 1..] + [base]))
  }

  /** Pointing bp at position k of the list (or at base behind its end), with
      the nodes between j and k left out. */
  lemma HalfChain(ptr: map<int, int>, list: seq<int>, base: int, j: nat, k: nat, bp: int)
    requires Chain(ptr, list + [base]) && j < k <= |list| && bp !in list
    ensures var next := if k < |list| then list[k] else base;
            HalfChained(ptr[bp := next], list[..j + 1] + list[k..], base, j, bp)
  {
    var next := if k < |list| then list[k] else base;
    var c, short := list + [base], list[..j + 1] + list[k..];
    ChainParts(ptr, c, j + 1);
    ChainParts(ptr, c, k);
    assert c[..j + 1] == short[..j + 1];
    assert c[k..] == short[j + 1..] + [base];
    ChainRedirect(ptr, short[..j + 1], bp, next);
    ChainRedirect(ptr, c[k..], bp, next);
    ChainJoin(ptr[bp := next], [bp], c[k..]);
  }

  /** bp already points into the list behind position j and is apart from the
      blocks there, but the list does not yet lead to bp. */
  ghost predicate HalfLinked(ptr: map<int, int>, size: map<int, nat>, list: seq<int>, base: int, m: Arena,
      free: set<int>, live: set<int>, j: nat, bp: int) {
    && Apart(size, list, base) && Lists(list, free, base) && Accounts(m, free, live, size, base) && bp in live
    && bp in size && j < |list|
    && HalfChained(ptr, list, base, j, bp)
    && (forall i :: 0 <= i <= j ==> list[i] < bp && list[i] + size[list[i]] <= bp)
    && (forall i :: j < i < |list| ==> bp + size[bp] < list[i])
  }

  lemma InList(m: Arena, list: seq<int>, free: set<int>, live: set<int>, size: map<int, nat>, base: int, i: nat)
    requires Apart(size, list, base) && Lists(list, free, base) && Accounts(m, free, live, size, base)
        && 1 <= i < |list|
    ensures list[i] in m.blk && list[i] in free && list[i] !in live && list[i] in size
        && size[list[i]] == m.blk[list[i]]
  {
    assert list[i] in list;
  }

  lemma NotListed(m: Arena, list: seq<int>, free: set<int>, live: set<int>, size: map<int, nat>, base: int, bp: int)
    requires Lists(list, free, base) && Accounts(m, free, live, size, base) && bp in live
    ensures bp !in list && base < bp
  {
    assert bp in m.blk;
  }

  /** A live block lies between its neighbours in the free list. */
  lemma Between(ptr: map<int, int>, size: map<int, nat>, list: seq<int>, base: int, m: Arena, free: set<int>,
      live: set<int>, j: nat, bp: int)
    requires Insertable(ptr, size, list, base, m, free, live, j, bp)
    ensures forall i :: 0 <= i <= j ==> list[i] < bp && list[i] + size[list[i]] <= bp
    ensures forall i :: j < i < |list| ==> bp + size[bp] <= list[i]
    ensures bp !in list
  {
    forall i | 0 <= i <= j
      ensures list[i] < bp && list[i] + size[list[i]] <= bp
    {
      if i < j {
        Increasing(size, list, base, i, j);
      }
      if i > 0 {
        InList(m, list, free, live, size, base, i);
        BlocksDisjoint(m, list[i], bp);
      }
    }
    forall i | j < i < |list|
      ensures bp + size[bp] <= list[i]
    {
      if j + 1 < i {
        Increasing(size, list, base, j + 1, i);
      }
      InList(m, list, free, live, size, base, i);
      BlocksDisjoint(m, bp, list[i]);
    }
  }

  /** bp pointed to its upper neighbour when it does not touch it. */
  lemma UpperPoint(ptr: map<int, int>, size: map<int, nat>, list: seq<int>, base: int, m: Arena, free: set<int>,
      live: set<int>, j: nat, bp: int, next: int)
    requires Insertable(ptr, size, list, base, m, free, live, j, bp)
    requires next == if j + 1 < |list| then list[j + 1] else base
    requires bp + size[bp] != next
    ensures HalfLinked(ptr[bp := next], size, list, base, m, free, live, j, bp)
  {
    Between(ptr, size, list, base, m, free, live, j, bp);
    forall i | j < i < |list|
      ensures bp + size[bp] < list[i]
    {
      if j + 1 < i {
        Increasing(size, list, base, j + 1, i);
      }
    }
    HalfChain(ptr, list, base, j, j + 1, bp);
    assert list[..j + 1] + list[j + 1..] == list;
  }

  lemma ListsDrop(size: map<int, nat>, list: seq<int>, free: set<int>, base: int, k: nat)
    requires Apart(size, list, base) && Lists(list, free, base) && 1 <= k < |list|
    ensures Lists(list[..k] + list[k + 1..], free - {list[k]}, base)
  {
    var s := list[..k] + list[k + 1..];
    assert list[k] in list && list[0] == base;
    forall x
      ensures x in s <==> x in list && x != list[k]
    {
      DropMember(size, list, base, k, x);
    }
  }

  lemma DropMember(size: map<int, nat>, list: seq<int>, base: int, k: nat, x: int)
    requires Apart(size, list, base) && 1 <= k < |list|
    ensures x in list[..k] + list[k + 1..] <==> x in list && x != list[k]
  {
    var s := list[..k] + list[k + 1..];
    if x in list && x != list[k] {
      var i :| 0 <= i < |list| && list[i] == x;
      assert x == if i < k then s[i] else s[i - 1];
    }
    if x in s {
      var i :| 0 <= i < |s| && s[i] == x;
      DropAt(size, list, base, k, i);
    }
  }

  lemma DropAt(size: map<int, nat>, list: seq<int>, base: int, k: nat, i: nat)
    requires Apart(size, list, base) && 1 <= k < |list| && i < |list| - 1
    ensures (list[..k] + list[k + 1..])[i] in list && (list[..k] + list[k + 1..])[i] != list[k]
  {
    var j := if i < k then i else i + 1;
    assert (list[..k] + list[k + 1..])[i] == list[j];
    if j < k {
      Increasing(size, list, base, j, k);
    } else {
      Increasing(size, list, base, k, j);
    }
  }

  lemma MergedAccounts(m: Arena, free: set<int>, live: set<int>, size: map<int, nat>, base: int, bp: int, next: int)
    requires Accounts(m, free, live, size, base) && bp in live && next in free && bp + size[bp] == next
    ensures bp in size && next in size && next in m.blk
    ensures Accounts(Merged(m, bp, next), free - {next}, live, size[bp := size[bp] + size[next]], base)
  {
    MergedTiles(m, bp, next);
  }

  lemma ApartElsewhere(size: map<int, nat>, list: seq<int>, base: int, x: int, k: nat)
    requires Apart(size, list, base) && x !in list
    ensures Apart(size[x := k], list, base)
  {
  }

  lemma UpperMergeGaps(ptr: map<int, int>, size: map<int, nat>, list: seq<int>, base: int, m: Arena, free: set<int>,
      live: set<int>, j: nat, bp: int)
    requires Insertable(ptr, size, list, base, m, free, live, j, bp) && j + 1 < |list| && bp + size[bp] == list[j + 1]
    ensures var size', list' := size[bp := size[bp] + size[list[j + 1]]], list[..j + 1] + list[j + 2..];
            && Apart(size', list', base)
            && (forall i :: 0 <= i <= j ==> list'[i] < bp && list'[i] + size'[list'[i]] <= bp)
            && (forall i :: j < i < |list'| ==> bp + size'[bp] < list'[i])
  {
    Between(ptr, size, list, base, m, free, live, j, bp);
    var size', list' := size[bp := size[bp] + size[list[j + 1]]], list[..j + 1] + list[j + 2..];
    ApartDrop(size, list, base, j + 1);
    ApartElsewhere(size, list', base, bp, size'[bp]);
    forall i | 0 <= i <= j
      ensures list'[i] < bp && list'[i] + size'[list'[i]] <= bp
    {
      assert list'[i] == list[i];
    }
    forall i | j < i < |list'|
      ensures bp + size'[bp] < list'[i]
    {
      assert list'[i] == list[i + 1];
      assert list[j + 1] + size[list[j + 1]] < list[i + 1];
    }
  }

  lemma UpperAccounts(ptr: map<int, int>, size: map<int, nat>, list: seq<int>, base: int, m: Arena, free: set<int>,
      live: set<int>, j: nat, bp: int)
    requires Insertable(ptr, size, list, base, m, free, live, j, bp) && j + 1 < |list| && bp + size[bp] == list[j + 1]
    ensures list[j + 1] in m.blk && list[j + 1] in size
        && Lists(list[..j + 1] + list[j + 2..], free - {list[j + 1]}, base)
    ensures Accounts(Merged(m, bp, list[j + 1]), free - {list[j + 1]}, live, size[bp := size[bp] + size[list[j + 1]]],
        base)
  {
    InList(m, list, free, live, size, base, j + 1);
    MergedAccounts(m, free, live, size, base, bp, list[j + 1]);
    ListsDrop(size, list, free, base, j + 1);
  }

  lemma UpperChain(ptr: map<int, int>, size: map<int, nat>, list: seq<int>, base: int, m: Arena, free: set<int>,
      live: set<int>, j: nat, bp: int)
    requires Insertable(ptr, size, list, base, m, free, live, j, bp) && j + 1 < |list| && bp + size[bp] == list[j + 1]
    ensures list[j + 1] in ptr && HalfChained(ptr[bp := ptr[list[j + 1]]], list[..j + 1] + list[j + 2..], base, j, bp)
  {
    Between(ptr, size, list, base, m, free, live, j, bp);
    NextIs(ptr, size, list, base, j + 1);
    assert list[j + 1 + 1..] == list[j + 2..];
    HalfChain(ptr, list, base, j, j + 2, bp);
  }

  /** bp joined to its upper neighbour when it ends where that one starts. */
  lemma UpperMerge(ptr: map<int, int>, size: map<int, nat>, list: seq<int>, base: int, m: Arena, free: set<int>,
      live: set<int>, j: nat, bp: int)
    requires Insertable(ptr, size, list, base, m, free, live, j, bp) && j + 1 < |list| && bp + size[bp] == list[j + 1]
    ensures list[j + 1] in m.blk && list[j + 1] in ptr && list[j + 1] in size
    ensures HalfLinked(ptr[bp := ptr[list[j + 1]]], size[bp := size[bp] + size[list[j + 1]]], list[..j + 1]
        + list[j + 2..], base,
                       Merged(m, bp, list[j + 1]), free - {list[j + 1]}, live, j, bp)
  {
    UpperAccounts(ptr, size, list, base, m, free, live, j, bp);
    UpperMergeGaps(ptr, size, list, base, m, free, live, j, bp);
    UpperChain(ptr, size, list, base, m, free, live, j, bp);
  }

  /** Closing the ring: position j is pointed at the node that b starts with,
      where b leads to base. */
  lemma CloseChain(ptr: map<int, int>, size: map<int, nat>, list: seq<int>, base: int, j: nat, b: seq<int>)
    requires Apart(size, list, base) && j < |list| && Chain(ptr, list[..j + 1]) && Chain(ptr, b) && |b| > 0
    requires forall i :: 0 <= i < |b| - 1 ==> b[i] != list[j]
    ensures Chain(ptr[list[j] := b[0]], list[..j + 1] + b)
  {
    var a := list[..j + 1];
    forall i | 0 <= i < |a| - 1
      ensures a[i] != list[j]
    {
      Increasing(size, list, base, i, j);
    }
    ChainRedirect(ptr, a, list[j], b[0]);
    ChainRedirect(ptr, b, list[j], b[0]);
    ChainJoin(ptr[list[j] := b[0]], a, b);
  }

  lemma NotBehind(size: map<int, nat>, list: seq<int>, base: int, j: nat, i: nat)
    requires Apart(size, list, base) && j < |list| && i < |list[j + 1..] + [base]| - 1
    ensures (list[j + 1..] + [base])[i] != list[j]
  {
    Increasing(size, list, base, j, j + 1 + i);
  }

  lemma LowerPointChain(ptr: map<int, int>, size: map<int, nat>, list: seq<int>, base: int, j: nat, bp: int)
    requires Apart(size, list, base) && j < |list| && HalfChained(ptr, list, base, j, bp) && list[j] < bp
    ensures Chain(ptr[list[j] := bp], list[..j + 1] + [bp] + list[j + 1..] + [base])
  {
    var rest := list[j + 1..] + [base];
    var b := [bp] + rest;
    forall i | 0 <= i < |b| - 1
      ensures b[i] != list[j]
    {
      if i > 0 {
        NotBehind(size, list, base, j, i - 1);
      }
    }
    CloseChain(ptr, size, list, base, j, b);
    assert list[..j + 1] + b == list[..j + 1] + [bp] + list[j + 1..] + [base];
  }

  lemma LowerMergeChain(ptr: map<int, int>, size: map<int, nat>, list: seq<int>, base: int, j: nat, bp: int)
    requires Apart(size, list, base) && j < |list| && HalfChained(ptr, list, base, j, bp)
    ensures bp in ptr && Chain(ptr[list[j] := ptr[bp]], list + [base])
  {
    var rest := list[j + 1..] + [base];
    var b := [bp] + rest;
    ChainParts(ptr, b, 1);
    assert b[1..] == rest && b[0] in ptr && ptr[b[0]] == b[1];
    forall i | 0 <= i < |rest| - 1
      ensures rest[i] != list[j]
    {
      NotBehind(size, list, base, j, i);
    }
    CloseChain(ptr, size, list, base, j, rest);
    assert list[..j + 1] + rest == list + [base];
  }

  ghost function Inserted(list: seq<int>, j: nat, bp: int): seq<int>
    requires j < |list|
  {
    list[..j + 1] + [bp] + list[j + 1..]
  }

  lemma ListsInsert(list: seq<int>, free: set<int>, base: int, j: nat, bp: int)
    requires Lists(list, free, base) && j < |list| && bp != base
    ensures Lists(Inserted(list, j, bp), free + {bp}, base)
  {
    assert list[..j + 1] + list[j + 1..] == list;
    forall x
      ensures x in Inserted(list, j, bp) <==> x in list || x == bp
    {
      assert x in list[..j + 1] + list[j + 1..] <==> x in list;
    }
  }

  lemma LowerPointGaps(size: map<int, nat>, list: seq<int>, base: int, j: nat, bp: int)
    requires Apart(size, list, base) && j < |list| && bp in size && size[bp] >= 1 && base < bp
    requires forall i :: 0 <= i <= j ==> list[i] < bp && list[i] + size[list[i]] <= bp
    requires forall i :: j < i < |list| ==> bp + size[bp] < list[i]
    requires list[j] + size[list[j]] != bp
    ensures Apart(size, Inserted(list, j, bp), base)
  {
    var a, r := list[..j + 1], list[j + 1..];
    assert a + r == list;
    forall i | 1 <= i < |a|
      ensures a[i] in size && a[i] + size[a[i]] < bp
    {
      assert a[i] == list[i];
    }
    forall i | 0 <= i < |r|
      ensures bp + size[bp] < r[i]
    {
      assert r[i] == list[j + 1 + i];
    }
    ApartInsert(size, a, bp, r, base);
  }

  /** bp hung behind a lower neighbour that it does not touch. */
  lemma LowerPoint(ptr: map<int, int>, size: map<int, nat>, list: seq<int>, base: int, m: Arena, free: set<int>,
      live: set<int>, j: nat, bp: int)
    requires HalfLinked(ptr, size, list, base, m, free, live, j, bp) && list[j] + size[list[j]] != bp
    ensures FreeList(ptr[list[j] := bp], size, Inserted(list, j, bp), base)
    ensures Lists(Inserted(list, j, bp), free + {bp}, base) && list[j] in Inserted(list, j, bp)
    ensures Accounts(m, free + {bp}, live - {bp}, size, base)
  {
    LowerPointChain(ptr, size, list, base, j, bp);
    LowerPointGaps(size, list, base, j, bp);
    ListsInsert(list, free, base, j, bp);
    assert Inserted(list, j, bp)[j] == list[j];
  }

  lemma LowerMergeGaps(size: map<int, nat>, list: seq<int>, base: int, j: nat, k: nat)
    requires Apart(size, list, base) && 1 <= j < |list| && k >= 1
    requires forall i :: j < i < |list| ==> list[j] + k < list[i]
    ensures Apart(size[list[j] := k], list, base)
  {
    var a, r := list[..j + 1], list[j + 1..];
    assert a + r == list && a[|a| - 1] == list[j];
    forall i | 0 <= i < |r|
      ensures list[j] + k < r[i]
    {
      assert r[i] == list[j + 1 + i];
    }
    ApartGrow(size, a, r, base, k);
  }

  lemma LowerMergeAccounts(m: Arena, free: set<int>, live: set<int>, size: map<int, nat>, base: int, p: int, bp: int)
    requires Accounts(m, free, live, size, base) && p in free && bp in live && p + size[p] == bp
    ensures p in size && bp in size && p in m.blk && bp in m.blk
    ensures Accounts(Merged(m, p, bp), free, live - {bp}, size[p := size[p] + size[bp]], base)
    ensures Merged(m, p, bp).own.Keys == m.own.Keys
  {
    MergedTiles(m, p, bp);
  }

  lemma LowerIsFree(list: seq<int>, free: set<int>, base: int, size: map<int, nat>, j: nat, bp: int)
    requires Apart(size, list, base) && Lists(list, free, base) && j < |list| && base < bp
    requires list[j] in size && list[j] + size[list[j]] == bp
    ensures j >= 1 && list[j] in free
  {
    assert list[j] in list;
  }

  /** bp joined to its lower neighbour when it starts where that one ends. */
  lemma LowerMerge(ptr: map<int, int>, size: map<int, nat>, list: seq<int>, base: int, m: Arena, free: set<int>,
      live: set<int>, j: nat, bp: int)
    requires HalfLinked(ptr, size, list, base, m, free, live, j, bp) && list[j] + size[list[j]] == bp
    ensures bp in ptr && list[j] in free
    ensures FreeList(ptr[list[j] := ptr[bp]], size[list[j] := size[list[j]] + size[bp]], list, base)
  {
    LowerIsFree(list, free, base, size, j, bp);
    LowerMergeChain(ptr, size, list, base, j, bp);
    LowerMergeGaps(size, list, base, j, size[list[j]] + size[bp]);
  }

  /** Some free block has at least n units. */
  ghost predicate Fits(m: Arena, free: set<int>, n: nat) {
    exists x :: x in free && x in m.blk && m.blk[x] >= n
  }

  /** The positions that a walk round the list from f to k has gone through,
      without f itself. */
  ghost predicate Passed(f: nat, k: nat, i: nat) {
    if f <= k then f < i <= k else i > f || i <= k
  }

  ghost function Left(f: nat, k: nat, n: nat): nat
    requires f < n && k < n
  {
    if f <= k then n + f - k else f - k
  }

  ghost predicate PassedSmall(size: map<int, nat>, list: seq<int>, f: nat, k: nat, n: nat) {
    forall i :: 0 <= i < |list| && Passed(f, k, i) ==> list[i] in size && size[list[i]] < n
  }

  ghost function After(list: seq<int>, k: nat): nat {
    if k + 1 < |list| then k + 1 else 0
  }

  lemma PassOne(size: map<int, nat>, list: seq<int>, f: nat, k: nat, n: nat)
    requires f < |list| && k < |list| && After(list, k) != f && PassedSmall(size, list, f, k, n)
    requires list[After(list, k)] in size && size[list[After(list, k)]] < n
    ensures PassedSmall(size, list, f, After(list, k), n)
    ensures Left(f, After(list, k), |list|) < Left(f, k, |list|)
  {
    forall i | 0 <= i < |list| && Passed(f, After(list, k), i)
      ensures list[i] in size && size[list[i]] < n
    {
      assert i == After(list, k) || Passed(f, k, i);
    }
  }

  /** A walk that has come back to f without meeting a block of n units has
      seen every free block. */
  lemma NoneFits(size: map<int, nat>, list: seq<int>, base: int, m: Arena, free: set<int>, live: set<int>, f: nat,
      k: nat, n: nat)
    requires Apart(size, list, base) && Lists(list, free, base) && Accounts(m, free, live, size, base)
    requires f < |list| && k < |list| && f == After(list, k)
    requires list[f] in size && size[list[f]] < n && PassedSmall(size, list, f, k, n)
    ensures !Fits(m, free, n)
  {
    forall x | x in free
      ensures x in m.blk && m.blk[x] < n
    {
      assert x in list;
      var i :| 0 <= i < |list| && list[i] == x;
      assert i == f || Passed(f, k, i);
    }
  }

  /** Taking the block behind position k out of the list. */
  lemma TakeWhole(ptr: map<int, int>, size: map<int, nat>, list: seq<int>, base: int, free: set<int>, k: nat)
    requires FreeList(ptr, size, list, base) && Lists(list, free, base) && k + 1 < |list|
    ensures list[k + 1] in ptr && list[k] in list[..k + 1] + list[k + 2..] && list[k + 1] in free
    ensures FreeList(ptr[list[k] := ptr[list[k + 1]]], size, list[..k + 1] + list[k + 2..], base)
    ensures Lists(list[..k + 1] + list[k + 2..], free - {list[k + 1]}, base)
  {
    var c, s := list + [base], list[..k + 1] + list[k + 2..];
    var b := list[k + 2..] + [base];
    ChainParts(ptr, c, k + 1);
    ChainParts(ptr, c, k + 2);
    assert c[..k + 1] == list[..k + 1] && c[k + 2..] == b;
    NextIs(ptr, size, list, base, k + 1);
    forall i | 0 <= i < |b| - 1
      ensures b[i] != list[k]
    {
      Increasing(size, list, base, k, k + 2 + i);
    }
    CloseChain(ptr, size, list, base, k, b);
    assert list[..k + 1] + b == s + [base];
    ApartDrop(size, list, base, k + 1);
    ListsDrop(size, list, free, base, k + 1);
    assert list[k + 1 + 1..] == list[k + 2..];
    assert s[k] == list[k] && list[k + 1] in list;
  }

  lemma TailAccounts(m: Arena, free: set<int>, live: set<int>, size: map<int, nat>, base: int, p: int, n: nat, t: int)
    requires Accounts(m, free, live, size, base) && p in free && 0 < n < size[p] && t == p + (size[p] - n)
    ensures p in size && p in m.blk && n < m.blk[p] && t !in m.blk && t !in live && base < t
    ensures Accounts(Split(m, p, n), free, live + {t}, size[p := size[p] - n][t := n], base)
    ensures Split(m, p, n).own.Keys == m.own.Keys && Split(m, p, n).blk == m.blk[p := m.blk[p] - n][t := n]
  {
    SplitTiles(m, p, n);
  }

  lemma TailList(size: map<int, nat>, list: seq<int>, base: int, k: nat, n: nat, p: int, t: int)
    requires Apart(size, list, base) && 1 <= k < |list| && p == list[k] && 0 < n < size[p] && t !in list
    ensures Apart(size[p := size[p] - n][t := n], list, base)
  {
    assert forall i :: k < i < |list| ==> list[k] + size[list[k]] < list[i];
    LowerMergeGaps(size, list, base, k, size[p] - n);
    ApartElsewhere(size[p := size[p] - n], list, base, t, n);
  }

  lemma AddedAccounts(m: Arena, free: set<int>, live: set<int>, size: map<int, nat>, base: int, a: int, k: nat)
    requires Accounts(m, free, live, size, base) && base < a && k >= 1 && Unused(m, a, k)
    ensures Accounts(Added(m, a, k), free, live + {a}, size[a := k], base) && a !in m.blk
    ensures Added(m, a, k).own.Keys == m.own.Keys + Units(a, k)
  {
    AddedTiles(m, a, k);
  }

  lemma AddedList(m: Arena, list: seq<int>, free: set<int>, live: set<int>, size: map<int, nat>, base: int, a: int,
      k: nat)
    requires Apart(size, list, base) && Lists(list, free, base) && Accounts(m, free, live, size, base) && a !in m.blk
        && base < a
    ensures Apart(size[a := k], list, base)
  {
    ApartElsewhere(size, list, base, a, k);
  }

  /** What the kernel answers to sbrk: the break cannot move, or it was at start
      and has moved by the number of bytes asked for. */
  datatype Answer = Fail | Grant(start: int)

  const WORD := 0x1_0000_0000
  const HEADER := 8

  /** The units malloc looks for: in 32-bit arithmetic, the headers that cover
      nbytes and one more for the header itself. */
  function NUnits(nbytes: nat): nat {
    ((nbytes + HEADER - 1) % WORD) / HEADER + 1
  }

  function CoreUnits(nu: nat): nat {
    if nu < 4096 then 4096 else nu
  }

  /** The argument that sbrk receives, a signed 32-bit number of bytes. */
  function SbrkArgument(nu: nat): int {
    var bytes := (CoreUnits(nu) * HEADER) % WORD;
    if bytes < WORD / 2 then bytes else bytes - WORD
  }

  /** The block has room for nbytes behind its header just when rounding the
      size up stays inside 32 bits. */
  lemma EnoughRoom(nbytes: nat)
    requires nbytes < WORD
    ensures (NUnits(nbytes) - 1) * HEADER >= nbytes <==> nbytes + HEADER - 1 < WORD
    ensures nbytes + HEADER - 1 < WORD ==> (NUnits(nbytes) - 1) * HEADER < nbytes + HEADER
  {
  }

  /** The request reaches the kernel unchanged just when it is below 2^31 bytes. */
  lemma RequestExact(nbytes: nat)
    requires nbytes < WORD
    ensures SbrkArgument(NUnits(nbytes)) == CoreUnits(NUnits(nbytes)) * HEADER <==> NUnits(nbytes) < 0x1000_0000
  {
    assert NUnits(nbytes) <= 0x2000_0000;
  }

  lemma RoomFailsNearTheTop()
    ensures NUnits(0xffff_fff9) == 1
    ensures SbrkArgument(NUnits(0xffff_fff8)) == 0
  {
  }

  /** The units by which a granted request moves the break. */
  function SbrkUnits(nu: nat): int {
    SbrkArgument(nu) / HEADER
  }

  /** The break moves by the units that morecore takes just when the request was
      not too large for its 32-bit argument; otherwise it moves by less. */
  lemma BreakMoves(nu: nat)
    requires nu <= 0x2000_0000
    ensures SbrkUnits(nu) <= CoreUnits(nu) && (SbrkUnits(nu) == CoreUnits(nu) <==> nu < 0x1000_0000)
  {
  }

  ghost predicate Below(us: set<int>, b: int) {
    forall u :: u in us ==> u < b
  }

  lemma BelowUnused(m: Arena, b: int, a: int, k: nat)
    requires Below(m.own.Keys, b) && b <= a
    ensures Unused(m, a, k)
  {
    assert forall u :: u in m.own <==> u in m.own.Keys;
  }

  /** The heap after a grant is the process's just when the break moved far
      enough. */
  lemma BackedWith(before: set<int>, after: set<int>, old_: int, sbrk: Answer, nu: nat, brk: int)
    requires sbrk.Grant? && old_ <= sbrk.start && Below(before, old_) && 0 < nu <= 0x2000_0000
    requires after == before + Granted(sbrk, nu) && brk == sbrk.start + SbrkUnits(nu)
    ensures Below(after, brk) <==> nu < 0x1000_0000
  {
    BreakMoves(nu);
    assert sbrk.start + CoreUnits(nu) - 1 in after;
  }

  lemma FewUnits(nbytes: nat)
    ensures 1 <= NUnits(nbytes) <= 0x2000_0000
  {
  }

  /** The units that a granted request adds to the heap. */
  ghost function Granted(sbrk: Answer, nu: nat): set<int>
    requires sbrk.Grant?
  {
    Units(sbrk.start, CoreUnits(nu))
  }

  lemma SamePlace(size: map<int, nat>, list: seq<int>, base: int, i: nat, j: nat)
    requires Apart(size, list, base) && i < |list| && j < |list| && list[i] == list[j]
    ensures i == j
  {
    Ordered(size, list, base);
  }

  lemma ListedHasSize(size: map<int, nat>, list: seq<int>, base: int, k: nat)
    requires Apart(size, list, base) && k < |list|
    ensures list[k] in size
  {
  }

  lemma BaseFirst(size: map<int, nat>, list: seq<int>, base: int, k: nat)
    requires Apart(size, list, base) && k < |list|
    ensures base <= list[k]
  {
  }

  class Allocator {
    const base: int
    var ptr: map<int, int>
    var size: map<int, nat>
    /** The null pointer is 0. */
    var freep: int
    ghost var list: seq<int>
    ghost var free: set<int>
    ghost var live: set<int>
    ghost var m: Arena
    /** The units below brk are the process's. */
    ghost var brk: int

    /** Every unit of the heap is the process's. */
    ghost predicate Backed()
      reads this
    {
      Below(m.own.Keys, brk)
    }

    ghost predicate Valid()
      reads this
    {
      && base > 0
      && if freep == 0 then
           live == {} && m == Arena(map[], map[])
         else
           && freep in list && FreeList(ptr, size, list, base) && Lists(list, free, base)
           && Accounts(m, free, live, size, base)
    }

    constructor (base: int)
      requires base > 0
      ensures Valid() && Backed() && this.base == base && live == {} && m.own == map[]
    {
      this.base := base;
      ptr, size, freep := map[], map[], 0;
      list, free, live, m, brk := [], {}, {}, Arena(map[], map[]), base + 1;
    }

    /** The loop of free: the free block behind which bp belongs. */
    method FindSpot(bp: int) returns (p: int, ghost j: nat)
      requires freep in list && FreeList(ptr, size, list, base) && base < bp && bp !in list
      ensures j < |list| && p == list[j] && p < bp && (j + 1 < |list| ==> bp < list[j + 1])
    {
      p := freep;
      ghost var k :| 0 <= k < |list| && list[k] == freep;
      j := Spot(list, bp);
      NextIs(ptr, size, list, base, k);
      while !(bp > p && bp < ptr[p])
        invariant 0 <= k < |list| && p == list[k] && p in ptr
        invariant ptr[p] == if k + 1 < |list| then list[k + 1] else base
        decreases if k <= j then j - k else |list| + j - k
      {
        if k + 1 < |list| {
          Increasing(size, list, base, k, k + 1);
        } else if k > 0 {
          Increasing(size, list, base, 0, k);
        }
        if p >= ptr[p] && (bp > p || bp < ptr[p]) {
          break;
        }
        assert k != j;
        p := ptr[p];
        k := if k + 1 == |list| then 0 else k + 1;
        NextIs(ptr, size, list, base, k);
      }
      SpotUnique(size, list, base, bp, k, j);
    }

    /** The first half of the relinking in free: joins bp to the block above
        it, or points it there. */
    method JoinUpper(bp: int, p: int, ghost j: nat)
      requires Insertable(ptr, size, list, base, m, free, live, j, bp) && p == list[j]
      modifies this`ptr, this`size, this`list, this`free, this`m
      ensures HalfLinked(ptr, size, list, base, m, free, live, j, bp) && p == list[j]
      ensures m.own.Keys == old(m.own.Keys) && m.blk[bp] >= old(m.blk[bp])
      ensures forall a :: a in live && a != bp ==> m.blk[a] == old(m.blk[a])
    {
      NextIs(ptr, size, list, base, j);
      var next := ptr[p];
      if bp + size[bp] == next {
        assert j + 1 < |list| && next == list[j + 1];
        MergeUpper(bp, next, j);
      } else {
        UpperPoint(ptr, size, list, base, m, free, live, j, bp, next);
        ptr := ptr[bp := next];
      }
    }

    method MergeUpper(bp: int, next: int, ghost j: nat)
      requires Insertable(ptr, size, list, base, m, free, live, j, bp) && j + 1 < |list| && next == list[j + 1]
          && bp + size[bp] == next
      modifies this`ptr, this`size, this`list, this`free, this`m
      ensures HalfLinked(ptr, size, list, base, m, free, live, j, bp) && list[j] == old(list[j])
      ensures m.own.Keys == old(m.own.Keys) && m.blk[bp] >= old(m.blk[bp])
      ensures forall a :: a in live && a != bp ==> m.blk[a] == old(m.blk[a])
    {
      UpperMerge(ptr, size, list, base, m, free, live, j, bp);
      size := size[bp := size[bp] + size[next]];
      ptr := ptr[bp := ptr[next]];
      list, free, m := list[..j + 1] + list[j + 2..], free - {next}, Merged(m, bp, next);
    }

    method MergeIntoLower(bp: int, p: int, ghost j: nat)
      requires HalfLinked(ptr, size, list, base, m, free, live, j, bp) && p == list[j] && p + size[p] == bp
      modifies this`ptr, this`size, this`live, this`m
      ensures p in list && FreeList(ptr, size, list, base) && Lists(list, free, base)
      ensures live == old(live) - {bp} && Accounts(m, free, live, size, base) && Fits(m, free, old(m.blk[bp]))
      ensures m.own.Keys == old(m.own.Keys)
      ensures forall a :: a in live ==> m.blk[a] == old(m.blk[a])
    {
      LowerMerge(ptr, size, list, base, m, free, live, j, bp);
      LowerMergeAccounts(m, free, live, size, base, p, bp);
      size := size[p := size[p] + size[bp]];
      ptr := ptr[p := ptr[bp]];
      m, live := Merged(m, p, bp), live - {bp};
      assert p in free && m.blk[p] >= old(m.blk[bp]);
    }

    method HangBehindLower(bp: int, p: int, ghost j: nat)
      requires HalfLinked(ptr, size, list, base, m, free, live, j, bp) && p == list[j] && p + size[p] != bp
      modifies this`ptr, this`list, this`free, this`live
      ensures p in list && FreeList(ptr, size, list, base) && Lists(list, free, base)
      ensures live == old(live) - {bp} && Accounts(m, free, live, size, base) && Fits(m, free, old(m.blk[bp]))
    {
      LowerPoint(ptr, size, list, base, m, free, live, j, bp);
      ptr := ptr[p := bp];
      list, free, live := Inserted(list, j, bp), free + {bp}, live - {bp};
      assert bp in free && m.blk[bp] >= old(m.blk[bp]);
    }

    /** The second half of the relinking in free: joins bp to the block below
        it, or hangs it behind. */
    method JoinLower(bp: int, p: int, ghost j: nat)
      requires HalfLinked(ptr, size, list, base, m, free, live, j, bp) && p == list[j]
      modifies this`ptr, this`size, this`freep, this`list, this`free, this`live, this`m
      ensures freep == p && p in list && FreeList(ptr, size, list, base) && Lists(list, free, base)
      ensures live == old(live) - {bp} && Accounts(m, free, live, size, base) && Fits(m, free, old(m.blk[bp]))
      ensures m.own.Keys == old(m.own.Keys)
      ensures forall a :: a in live ==> m.blk[a] == old(m.blk[a])
    {
      if p + size[p] == bp {
        MergeIntoLower(bp, p, j);
      } else {
        HangBehindLower(bp, p, j);
      }
      freep := p;
    }

    /** free(ap), where ap is just behind the header of a live block. The block
        stops being live, no other live block changes, and no unit is lost. */
    method Free(ap: int)
      requires Valid() && ap - 1 in live
      modifies this`ptr, this`size, this`freep, this`list, this`free, this`live, this`m
      ensures Valid() && live == old(live) - {ap - 1} && freep != 0 && Fits(m, free, old(m.blk[ap - 1]))
      ensures m.own.Keys == old(m.own.Keys)
      ensures forall a :: a in live ==> m.blk[a] == old(m.blk[a])
    {
      var bp := ap - 1;
      NotListed(m, list, free, live, size, base, bp);
      var p, j := FindSpot(bp);
      JoinUpper(bp, p, j);
      JoinLower(bp, p, j);
    }

    /** What the kernel may answer: a break that is above base and has not been
        moved back. */
    ghost predicate Honest(sbrk: Answer)
      reads this
    {
      sbrk.Grant? ==> base < sbrk.start && brk <= sbrk.start
    }

    /** The units from hp on become a live block of k units. */
    method AddBlock(hp: int, k: nat)
      requires Valid() && freep != 0 && base < hp && k >= 1 && Unused(m, hp, k)
      modifies this`size, this`live, this`m
      ensures Valid() && live == old(live) + {hp} && hp !in old(live)
      ensures m.blk == old(m.blk)[hp := k] && m.own.Keys == old(m.own.Keys) + Units(hp, k)
    {
      AddedAccounts(m, free, live, size, base, hp, k);
      AddedList(m, list, free, live, size, base, hp, k);
      size := size[hp := k];
      m, live := Added(m, hp, k), live + {hp};
    }

    /** The new block becomes live and is freed at once. */
    method AddFree(hp: int, k: nat)
      requires Valid() && freep != 0 && base < hp && k >= 1 && Unused(m, hp, k)
      modifies this`ptr, this`size, this`freep, this`list, this`free, this`live, this`m
      ensures Valid() && live == old(live) && freep != 0 && Fits(m, free, k)
      ensures forall a :: a in live ==> m.blk[a] == old(m.blk[a])
      ensures m.own.Keys == old(m.own.Keys) + Units(hp, k)
    {
      AddBlock(hp, k);
      Free(hp + 1);
      assert live == old(live);
    }

    /** morecore: the new block enters the free list through free. */
    method Morecore(nu: nat, sbrk: Answer) returns (p: int)
      requires Valid() && Backed() && freep != 0 && Honest(sbrk) && 0 < nu <= 0x2000_0000
      modifies this`ptr, this`size, this`freep, this`list, this`free, this`live, this`m, this`brk
      ensures Valid() && live == old(live) && freep != 0
      ensures forall a :: a in live ==> m.blk[a] == old(m.blk[a])
      ensures sbrk.Fail? ==> p == 0 && m == old(m) && free == old(free) && brk == old(brk)
      ensures sbrk.Grant? ==> p == freep && Fits(m, free, nu) && m.own.Keys == old(m.own.Keys) + Granted(sbrk, nu)
      ensures sbrk.Grant? ==> brk == sbrk.start + SbrkUnits(nu) && (Backed() <==> nu < 0x1000_0000)
    {
      if sbrk.Fail? {
        return 0;
      }
      BelowUnused(m, brk, sbrk.start, CoreUnits(nu));
      AddFree(sbrk.start, CoreUnits(nu));
      p, brk := freep, sbrk.start + SbrkUnits(nu);
      BackedWith(old(m.own.Keys), m.own.Keys, old(brk), sbrk, nu, brk);
    }

    /** Unlinks the block p that comes behind prevp. */
    method TakeBlock(prevp: int, p: int, ghost k: nat)
      requires Valid() && freep != 0 && k + 1 < |list| && prevp == list[k] && p == list[k + 1]
      modifies this`ptr, this`freep, this`list, this`free, this`live
      ensures Valid() && p !in old(live) && live == old(live) + {p} && freep == prevp != 0
    {
      TakeWhole(ptr, size, list, base, free, k);
      NextIs(ptr, size, list, base, k + 1);
      ptr := ptr[prevp := ptr[p]];
      list, free, live := list[..k + 1] + list[k + 2..], free - {p}, live + {p};
      freep := prevp;
      BaseFirst(size, list, base, k);
    }

    /** Cuts the last n units off the block at position k. */
    method CutTail(p: int, n: nat, ghost k: nat) returns (t: int)
      requires Valid() && freep != 0 && 1 <= k < |list| && p == list[k] && p in size && 0 < n < size[p]
      modifies this`size, this`live, this`m
      ensures Valid() && t !in old(live) && live == old(live) + {t}
      ensures t in m.blk && m.blk[t] == n && m.own.Keys == old(m.own.Keys)
      ensures forall a :: a in old(live) ==> a in m.blk && m.blk[a] == old(m.blk[a])
    {
      t := p + (size[p] - n);
      InList(m, list, free, live, size, base, k);
      TailAccounts(m, free, live, size, base, p, n, t);
      TailList(size, list, base, k, n, p, t);
      size := size[p := size[p] - n][t := n];
      m, live := Split(m, p, n), live + {t};
    }

    /** The first call makes the list of base alone. */
    method Start()
      requires Valid()
      modifies this`ptr, this`size, this`freep, this`list, this`free
      ensures Valid() && freep != 0 && (old(freep) != 0 ==> free == old(free))
      ensures old(freep) == 0 ==> free == {}
    {
      if freep == 0 {
        ptr, size, freep := ptr[base := base], size[base := 0], base;
        list, free := [base], {};
      }
    }

    /** Position k of the list holds prevp, and p is the next one; the blocks
        since freep are all smaller than n. */
    ghost predicate Scanning(prevp: int, p: int, f: nat, k: nat, n: nat)
      reads this
    {
      && freep != 0 && f < |list| && k < |list| && list[f] == freep && list[k] == prevp
      && p == list[After(list, k)] && PassedSmall(size, list, f, k, n)
    }

    /** The start of a walk round the list. */
    method Restart(ghost n: nat) returns (prevp: int, p: int, ghost f: nat)
      requires Valid() && freep != 0
      ensures Scanning(prevp, p, f, f, n)
    {
      prevp := freep;
      f :| 0 <= f < |list| && list[f] == freep;
      NextIs(ptr, size, list, base, f);
      p := ptr[prevp];
    }

    method Advance(prevp: int, p: int, ghost f: nat, ghost k: nat, ghost n: nat)
        returns (prevp': int, p': int, ghost k': nat)
      requires Valid() && Scanning(prevp, p, f, k, n) && p != freep && p in size && size[p] < n
      ensures Scanning(prevp', p', f, k', n) && Left(f, k', |list|) < Left(f, k, |list|)
    {
      k' := After(list, k);
      PassOne(size, list, f, k, n);
      NextIs(ptr, size, list, base, k');
      prevp', p' := p, ptr[p];
    }

    /** Returns the block p, or its last n units when it is larger. */
    method Carve(prevp: int, p: int, n: nat, ghost f: nat, ghost k: nat) returns (r: int)
      requires Valid() && Scanning(prevp, p, f, k, n) && p in size && size[p] >= n >= 1
      modifies this`ptr, this`size, this`freep, this`list, this`free, this`live, this`m
      ensures Valid() && r - 1 !in old(live) && live == old(live) + {r - 1} && r > 0
      ensures m.own.Keys == old(m.own.Keys) && m.blk[r - 1] == n
      ensures forall a :: a in old(live) ==> m.blk[a] == old(m.blk[a])
    {
      assert k + 1 < |list|;
      InList(m, list, free, live, size, base, k + 1);
      assert p == list[k + 1] && p in m.blk && m.blk[p] == size[p];
      if size[p] == n {
        TakeBlock(prevp, p, k);
        r := p + 1;
      } else {
        var t := CutTail(p, n, k + 1);
        freep := prevp;
        r := t + 1;
      }
    }

    lemma AllSmall(prevp: int, p: int, f: nat, k: nat, n: nat)
      requires Valid() && Scanning(prevp, p, f, k, n) && p == freep && p in size && size[p] < n
      ensures !Fits(m, free, n)
    {
      SamePlace(size, list, base, After(list, k), f);
      NoneFits(size, list, base, m, free, live, f, k, n);
    }

    /** The loop of malloc between two calls of morecore: walks to a block of
        at least n units, or back to freep when there is none. */
    method Walk(n: nat) returns (prevp: int, p: int, ghost f: nat, ghost k: nat)
      requires Valid() && freep != 0 && n >= 1
      ensures Scanning(prevp, p, f, k, n) && p in size
      ensures size[p] >= n <==> Fits(m, free, n)
    {
      prevp, p, f := Restart(n);
      k := f;
      while true
        invariant Scanning(prevp, p, f, k, n)
        decreases Left(f, k, |list|)
      {
        ListedHasSize(size, list, base, After(list, k));
        if size[p] >= n {
          InList(m, list, free, live, size, base, After(list, k));
          return;
        }
        if p == freep {
          AllSmall(prevp, p, f, k, n);
          return;
        }
        prevp, p, k := Advance(prevp, p, f, k, n);
      }
    }

    /** morecore when no free block fits, and the walk that then finds one. */
    method GrowAndWalk(n: nat, sbrk: Answer) returns (ok: bool, prevp: int, p: int, ghost f: nat, ghost k: nat)
      requires Valid() && Backed() && freep != 0 && Honest(sbrk) && 0 < n <= 0x2000_0000
      modifies this`ptr, this`size, this`freep, this`list, this`free, this`live, this`m, this`brk
      ensures Valid() && live == old(live) && (ok <==> sbrk.Grant?)
      ensures forall a :: a in live ==> m.blk[a] == old(m.blk[a])
      ensures ok ==> Scanning(prevp, p, f, k, n) && p in size && size[p] >= n
      ensures ok ==>
          m.own.Keys == old(m.own.Keys) + Granted(sbrk, n) && brk == sbrk.start + SbrkUnits(n)
          && (Backed() <==> n < 0x1000_0000)
      ensures !ok ==> m == old(m) && brk == old(brk)
    {
      prevp, f, k := 0, 0, 0;
      p := Morecore(n, sbrk);
      ok := p != 0;
      if ok {
        prevp, p, f, k := Walk(n);
      }
    }

    /** The loop of malloc up to a block of at least n units, or to the failure
        of sbrk. */
    method Search(n: nat, sbrk: Answer)
        returns (ok: bool, prevp: int, p: int, ghost f: nat, ghost k: nat, ghost grew: bool)
      requires Valid() && Backed() && Honest(sbrk) && 0 < n <= 0x2000_0000
      modifies this`ptr, this`size, this`freep, this`list, this`free, this`live, this`m, this`brk
      ensures Valid() && live == old(live) && (Backed() <==> !grew || n < 0x1000_0000)
      ensures grew <==> sbrk.Grant? && !(old(freep) != 0 && old(Fits(m, free, n)))
      ensures !ok <==> sbrk.Fail? && !(old(freep) != 0 && old(Fits(m, free, n)))
      ensures ok ==> Scanning(prevp, p, f, k, n) && p in size && size[p] >= n
      ensures forall a :: a in old(live) ==> m.blk[a] == old(m.blk[a])
      ensures !grew ==> m == old(m) && brk == old(brk)
      ensures grew ==> m.own.Keys == old(m.own.Keys) + Granted(sbrk, n) && brk == sbrk.start + SbrkUnits(n)
    {
      Start();
      ok, grew := true, false;
      prevp, p, f, k := Walk(n);
      if size[p] < n {
        ok, prevp, p, f, k := GrowAndWalk(n, sbrk);
        grew := ok;
      }
    }

    /** malloc for n units. */
    method Allocate(n: nat, sbrk: Answer) returns (r: int, ghost grew: bool)
      requires Valid() && Backed() && 0 < n <= 0x2000_0000 && Honest(sbrk)
      modifies this`ptr, this`size, this`freep, this`list, this`free, this`live, this`m, this`brk
      ensures Valid() && (Backed() <==> !grew || n < 0x1000_0000)
      ensures grew <==> sbrk.Grant? && !(old(freep) != 0 && old(Fits(m, free, n)))
      ensures r == 0 <==> sbrk.Fail? && !(old(freep) != 0 && old(Fits(m, free, n)))
      ensures r == 0 ==> live == old(live) && m == old(m)
      ensures r != 0 ==> r - 1 !in old(live) && live == old(live) + {r - 1} && m.blk[r - 1] == n
      ensures forall a :: a in old(live) ==> m.blk[a] == old(m.blk[a])
      ensures !grew ==> m.own.Keys == old(m.own.Keys) && brk == old(brk)
      ensures grew ==> m.own.Keys == old(m.own.Keys) + Granted(sbrk, n) && brk == sbrk.start + SbrkUnits(n)
    {
      var ok, prevp, p;
      ghost var f, k;
      ok, prevp, p, f, k, grew := Search(n, sbrk);
      if !ok {
        return 0, grew;
      }
      r := Carve(prevp, p, n, f, k);
    }

    /** malloc. The answer of sbrk is used at most once: after a successful
        morecore the walk finds a block. The heap stays the process's just when
        sbrk was not asked, or the request fits its argument. */
    method Malloc(nbytes: nat, sbrk: Answer) returns (r: int, ghost grew: bool)
      requires Valid() && Backed() && nbytes < WORD && Honest(sbrk)
      modifies this`ptr, this`size, this`freep, this`list, this`free, this`live, this`m, this`brk
      ensures Valid() && (Backed() <==> !grew || NUnits(nbytes) < 0x1000_0000)
      ensures grew <==> sbrk.Grant? && !(old(freep) != 0 && old(Fits(m, free, NUnits(nbytes))))
      ensures r == 0 <==> sbrk.Fail? && !(old(freep) != 0 && old(Fits(m, free, NUnits(nbytes))))
      ensures r == 0 ==> live == old(live) && m == old(m)
      ensures r != 0 ==> r - 1 !in old(live) && live == old(live) + {r - 1} && m.blk[r - 1] == NUnits(nbytes)
      ensures forall a :: a in old(live) ==> m.blk[a] == old(m.blk[a])
      ensures !grew ==> m.own.Keys == old(m.own.Keys) && brk == old(brk)
      ensures grew ==>
          m.own.Keys == old(m.own.Keys) + Granted(sbrk, NUnits(nbytes)) && brk == sbrk.start + SbrkUnits(NUnits(nbytes))
    {
      FewUnits(nbytes);
      var n := NUnits(nbytes);
      r, grew := Allocate(n, sbrk);
    }
  }
}
