/** What a write does to the free map and which blocks it hands to the log, as
    a function of the volume it starts from. */
module Footprint {
  import opened Params
  import opened Volume

  const BPB: nat := BSIZE * 8
  const IPB: nat := BSIZE / 64

  /** Where the metadata lies: data blocks start at nmeta. */
  datatype Layout = Layout(nmeta: nat, bmapstart: nat, inodestart: nat)

  function BBlock(g: Layout, b: nat): nat {
    b / BPB + g.bmapstart
  }

  function IBlock(g: Layout, i: nat): nat {
    i / IPB + g.inodestart
  }

  ghost function FreeBlocks(used: seq<bool>): set<nat> {
    set b: nat | b < |used| && !used[b]
  }

  /** The free map with the blocks of p taken as well. */
  ghost function Marking(used: seq<bool>, p: set<nat>): (r: seq<bool>)
    ensures |r| == |used|
  {
    seq(|used|, b requires 0 <= b < |used| => used[b] || b in p)
  }

  /** p holds the first |p| free blocks. */
  ghost predicate First(used: seq<bool>, p: set<nat>) {
    p <= FreeBlocks(used) && forall b: nat, c: nat :: c in p && b < c && b in FreeBlocks(used) ==> b in p
  }

  lemma SameSize(p: set<nat>, q: set<nat>)
    requires |p| == |q| && p != q
    ensures p - q != {} && q - p != {}
  {
    assert p == (p * q) + (p - q) && q == (p * q) + (q - p);
  }

  lemma FirstUnique(used: seq<bool>, p: set<nat>, q: set<nat>)
    requires First(used, p) && First(used, q) && |p| == |q|
    ensures p == q
  {
    if p != q {
      SameSize(p, q);
      var b: nat :| b in p - q;
      var c: nat :| c in q - p;
      assert false;
    }
  }

  lemma {:induction false} HasLeast(s: set<nat>) returns (b: nat)
    requires s != {}
    ensures b in s && forall c :: c in s ==> b <= c
  {
    b :| b in s;
    if s != {b} {
      var t := s - {b};
      assert t != {};
      var c := HasLeast(t);
      assert s == t + {b};
      b := if c < b then c else b;
    }
  }

  ghost predicate IsLeast(s: set<nat>, b: nat) {
    b in s && forall c :: c in s ==> b <= c
  }

  ghost function Least(s: set<nat>): (b: nat)
    requires s != {}
    ensures IsLeast(s, b)
  {
    assert exists b :: IsLeast(s, b) by {
      var b := HasLeast(s);
      assert IsLeast(s, b);
    }

    var b :| IsLeast(s, b);
    b
  }

  /** The first k free blocks. */
  ghost function Picks(used: seq<bool>, k: nat): (p: set<nat>)
    requires k <= |FreeBlocks(used)|
    ensures First(used, p) && |p| == k
  {
    if k == 0 then {} else
      var q := Picks(used, k - 1);
      SomeLeft(FreeBlocks(used), q);
      var b := Least(FreeBlocks(used) - q);
      LeastGrows(used, q, b);
      q + {b}
  }

  lemma LeastGrows(used: seq<bool>, q: set<nat>, b: nat)
    requires First(used, q) && IsLeast(FreeBlocks(used) - q, b)
    ensures First(used, q + {b})
  {
    forall c: nat | c in FreeBlocks(used) && c < b
      ensures c in q
    {
      assert c !in FreeBlocks(used) - q;
    }
    FirstGrows(used, q, b);
  }

  lemma SomeLeft(s: set<nat>, q: set<nat>)
    requires q <= s && |q| < |s|
    ensures s - q != {}
  {
    assert s == q + (s - q);
  }

  lemma FirstGrows(used: seq<bool>, q: set<nat>, b: nat)
    requires First(used, q) && b in FreeBlocks(used) && b !in q
        && forall c: nat :: c in FreeBlocks(used) && c < b ==> c in q
    ensures First(used, q + {b})
  {
  }

  lemma FreeLeft(used: seq<bool>, p: set<nat>)
    requires p <= FreeBlocks(used)
    ensures FreeBlocks(Marking(used, p)) == FreeBlocks(used) - p
    ensures |FreeBlocks(Marking(used, p))| == |FreeBlocks(used)| - |p|
  {
    assert FreeBlocks(Marking(used, p)) == FreeBlocks(used) - p;
    assert FreeBlocks(used) == (FreeBlocks(used) - p) + p;
  }

  lemma FirstTwice(used: seq<bool>, p: set<nat>, q: set<nat>)
    requires First(used, p) && First(Marking(used, p), q)
    ensures p !! q && First(used, p + q) && |p + q| == |p| + |q|
    ensures Marking(Marking(used, p), q) == Marking(used, p + q)
  {
    FreeLeft(used, p);
    forall b: nat, c: nat | c in p + q && b < c && b in FreeBlocks(used)
      ensures b in p + q
    {
      if c in q && b !in p {
        assert b in FreeBlocks(Marking(used, p));
      }
    }
  }

  /** The blocks in the slots of inode i. */
  ghost function SlotsOf(v: Vol, i: nat): (a: Slots)
    requires Shape(v) && i < |v.ino|
  {
    seq(NSLOTS, s requires 0 <= s < NSLOTS => Slot(v, i, s))
  }

  type Slots = a: seq<nat> | |a| == NSLOTS witness seq(NSLOTS, _ => 0)

  /** Without an indirect block there is nothing behind it. */
  ghost predicate Formed(a: Slots) {
    a[NDIRECT] == 0 ==> forall s :: NDIRECT < s < NSLOTS ==> a[s] == 0
  }

  /** The empty slots m are filled with the blocks of p, the others kept. */
  ghost predicate Fills(a: Slots, a': Slots, m: set<nat>, p: set<nat>) {
    && (forall s: nat :: s < NSLOTS && s in m ==> a[s] == 0 && a'[s] in p)
    && (forall s: nat :: s < NSLOTS && s !in m ==> a'[s] == a[s])
  }

  /** What a write changes besides data: the slots of its inode, the free map
      and the blocks logged. */
  datatype Space = Space(slots: Slots, used: seq<bool>, log: set<nat>)

  datatype Outcome = Done(a: Space) | Full

  /** balloc for slot s, which takes the first free block. */
  ghost function Filled(a: Space, g: Layout, s: nat): Space
    requires s < NSLOTS && FreeBlocks(a.used) != {}
  {
    var b := Least(FreeBlocks(a.used));
    Space(a.slots[s := b], a.used[b := true], a.log + {BBlock(g, b), b})
  }

  /** An address in the inode, made when absent. */
  ghost function AddrStep(a: Space, g: Layout, s: nat): Outcome
    requires s < NSLOTS
  {
    if a.slots[s] != 0 then Done(a)
    else if FreeBlocks(a.used) == {} then Full
    else Done(Filled(a, g, s))
  }

  /** An entry of the indirect block, made when absent. */
  ghost function EntryStep(a: Space, g: Layout, s: nat): Outcome
    requires s < NSLOTS
  {
    if a.slots[s] != 0 then Done(a)
    else if FreeBlocks(a.used) == {} then Full
    else var b := Filled(a, g, s); Done(b.(log := b.log + {b.slots[NDIRECT]}))
  }

  /** bmap for data slot s. */
  ghost function MapStep(a: Space, g: Layout, s: nat): Outcome
    requires s < NSLOTS
  {
    if s < NDIRECT then AddrStep(a, g, s)
    else match AddrStep(a, g, NDIRECT)
      case Full => Full
      case Done(b) => EntryStep(b, g, s)
  }

  /** One iteration of writei: bmap, and the store into the block. */
  ghost function StoreStep(a: Space, g: Layout, s: nat): Outcome
    requires s < NSLOTS
  {
    match MapStep(a, g, s)
    case Full => Full
    case Done(b) => Done(b.(log := b.log + {b.slots[s]}))
  }

  ghost function Then(r: Outcome, g: Layout, s: nat): Outcome
    requires s < NSLOTS
  {
    match r
    case Full => Full
    case Done(a) => StoreStep(a, g, s)
  }

  /** The loop of writei over the blocks from lo up to hi. */
  ghost function Run(a: Space, g: Layout, lo: nat, hi: nat): Outcome
    requires hi <= MAXFILE
  {
    if hi <= lo then Done(a) else Then(Run(a, g, lo, hi - 1), g, SlotOf(hi - 1))
  }

  /** The loop of writei over the bytes [off, off + n). */
  ghost function RunBytes(a: Space, g: Layout, off: nat, n: nat): Outcome
    requires off + n <= MAXFILE * BSIZE
  {
    if n == 0 then Done(a) else Run(a, g, off / BSIZE, (off + n - 1) / BSIZE + 1)
  }

  lemma RunBytesStep(a: Space, g: Layout, off: nat, tot: nat, m: nat, bn: nat)
    requires m > 0 && (tot > 0 ==> (off + tot) % BSIZE == 0) && (off + tot) % BSIZE + m <= BSIZE
    requires off + tot + m <= MAXFILE * BSIZE && bn == (off + tot) / BSIZE
    ensures bn < MAXFILE
    ensures RunBytes(a, g, off, tot + m) == Then(RunBytes(a, g, off, tot), g, SlotOf(bn))
  {
    assert (off + tot + m - 1) / BSIZE == bn;
    if tot > 0 {
      assert (off + tot - 1) / BSIZE + 1 == bn;
    } else {
      assert Run(a, g, bn, bn) == Done(a);
    }
  }

  lemma {:induction false} RunFull(a: Space, g: Layout, lo: nat, mid: nat, hi: nat)
    requires mid <= hi <= MAXFILE && Run(a, g, lo, mid).Full?
    ensures Run(a, g, lo, hi).Full?
    decreases hi
  {
    if mid < hi {
      RunFull(a, g, lo, mid, hi - 1);
    }
  }

  lemma RunBytesFull(a: Space, g: Layout, off: nat, m: nat, n: nat)
    requires m <= n && off + n <= MAXFILE * BSIZE && RunBytes(a, g, off, m).Full?
    ensures RunBytes(a, g, off, n).Full?
  {
    assert (off + m - 1) / BSIZE <= (off + n - 1) / BSIZE;
    RunFull(a, g, off / BSIZE, (off + m - 1) / BSIZE + 1, (off + n - 1) / BSIZE + 1);
  }

  /** The slots of the data blocks from lo up to hi. */
  ghost function SlotsBetween(lo: nat, hi: nat): (d: set<nat>) {
    if hi <= lo then {} else SlotsBetween(lo, hi - 1) + {SlotOf(hi - 1)}
  }

  lemma {:induction false} SlotsBetweenAre(lo: nat, hi: nat, s: nat)
    ensures s in SlotsBetween(lo, hi) <==> s != NDIRECT && lo <= BlockOf(s) < hi
  {
    if lo < hi {
      SlotsBetweenAre(lo, hi - 1, s);
    }
  }

  lemma NextSlot(lo: nat, bn: nat, s: nat)
    requires s == SlotOf(bn)
    ensures s !in SlotsBetween(lo, bn) && s != NDIRECT && (bn < MAXFILE ==> s < NSLOTS)
  {
    SlotsBetweenAre(lo, bn, s);
  }

  lemma OneMore(d: set<nat>, s: nat)
    requires s !in d
    ensures |d + {s}| == |d| + 1
  {
  }

  lemma {:induction false} SlotsBetweenSize(lo: nat, hi: nat)
    requires lo <= hi
    ensures |SlotsBetween(lo, hi)| == hi - lo
  {
    if lo < hi {
      SlotsBetweenSize(lo, hi - 1);
      NextSlot(lo, hi - 1, SlotOf(hi - 1));
      OneMore(SlotsBetween(lo, hi - 1), SlotOf(hi - 1));
    }
  }

  function BlockOf(s: nat): nat {
    if s <= NDIRECT then s else s - 1
  }

  /** The slots of the blocks that the bytes [off, off + n) lie in. */
  ghost function DataSlots(off: nat, n: nat): set<nat> {
    if n == 0 then {} else SlotsBetween(off / BSIZE, (off + n - 1) / BSIZE + 1)
  }

  lemma DataSlotsBelow(off: nat, n: nat, s: nat)
    requires off + n <= MAXFILE * BSIZE && s in DataSlots(off, n)
    ensures s < NSLOTS && s != NDIRECT && BlockOf(s) < MAXFILE && SlotOf(BlockOf(s)) == s
  {
    SlotsBetweenAre(off / BSIZE, (off + n - 1) / BSIZE + 1, s);
  }

  ghost predicate DataOnly(d: set<nat>) {
    forall s :: s in d ==> s < NSLOTS && s != NDIRECT
  }

  /** The slots that a write to the data slots d has to fill. */
  ghost function Missing(a: Slots, d: set<nat>): (m: set<nat>)
    requires DataOnly(d)
  {
    (set s | s in d && a[s] == 0) + MissingIndirect(a, d)
  }

  ghost function MissingIndirect(a: Slots, d: set<nat>): set<nat>
  {
    if a[NDIRECT] == 0 && exists s :: s in d && s > NDIRECT then {NDIRECT} else {}
  }

  lemma MissingGrows(a: Slots, d: set<nat>, e: set<nat>)
    requires DataOnly(e) && d <= e
    ensures Missing(a, d) <= Missing(a, e) && |Missing(a, d)| <= |Missing(a, e)|
  {
    var m, n := Missing(a, d), Missing(a, e);
    assert m <= n;
    assert n == m + (n - m);
  }

  lemma FilledAt(a: Slots, a': Slots, m: set<nat>, p: set<nat>, s: nat)
    requires Fills(a, a', m, p) && s < NSLOTS
    ensures s in m ==> a[s] == 0 && a'[s] in p
    ensures s !in m ==> a'[s] == a[s]
  {
  }

  lemma OneMissing(a: Slots, s: nat)
    requires s < NSLOTS && s != NDIRECT
    ensures DataOnly({s}) && (s in Missing(a, {s}) <==> a[s] == 0)
    ensures NDIRECT in Missing(a, {s}) <==> a[NDIRECT] == 0 && s > NDIRECT
    ensures forall t :: t in Missing(a, {s}) ==> t == s || t == NDIRECT
  {
    assert s in {s};
  }

  lemma MissingAt(a: Slots, d: set<nat>, t: nat)
    requires DataOnly(d)
    ensures t in Missing(a, d) <==>
              || (t in d && a[t] == 0)
              || (t == NDIRECT && a[NDIRECT] == 0 && exists s :: s in d && s > NDIRECT)
  {
  }

  /** The next data slot, seen from the volume in which those of d are filled. */
  lemma MissingStep(a0: Slots, a: Slots, d: set<nat>, p: set<nat>, s: nat)
    requires DataOnly(d) && Fills(a0, a, Missing(a0, d), p) && 0 !in p
    requires s < NSLOTS && s != NDIRECT && s !in d
    ensures DataOnly(d + {s}) && DataOnly({s}) && Missing(a0, d + {s}) == Missing(a0, d) + Missing(a, {s})
    ensures Missing(a0, d) !! Missing(a, {s}) && a[s] == a0[s]
  {
    MissingAt(a0, d, s);
    MissingAt(a0, d, NDIRECT);
    FilledAt(a0, a, Missing(a0, d), p, s);
    FilledAt(a0, a, Missing(a0, d), p, NDIRECT);
    OneMissing(a, s);
    BothMissing(a0, d, s, Missing(a, {s}), a[NDIRECT]);
  }

  lemma BothMissing(a: Slots, d: set<nat>, s: nat, n: set<nat>, ind: nat)
    requires DataOnly(d) && s < NSLOTS && s != NDIRECT && s !in d
    requires (s in n <==> a[s] == 0) && (NDIRECT in n <==> ind == 0 && s > NDIRECT)
        && forall t :: t in n ==> t == s || t == NDIRECT
    requires if NDIRECT in Missing(a, d) then ind != 0 else ind == a[NDIRECT]
    ensures DataOnly(d + {s}) && Missing(a, d + {s}) == Missing(a, d) + n && Missing(a, d) !! n
  {
    assert s in d + {s};
    assert (exists t :: t in d + {s} && t > NDIRECT) <==> s > NDIRECT || exists t :: t in d && t > NDIRECT;
  }

  /** The mapped blocks among the data slots d. */
  ghost function Existing(a: Slots, d: set<nat>): set<nat>
    requires DataOnly(d)
  {
    set s | s in d && a[s] != 0 :: a[s]
  }

  ghost function Bits(g: Layout, p: set<nat>): set<nat> {
    set b | b in p :: BBlock(g, b)
  }

  /** The indirect block, if it was there and gets an entry. */
  ghost function IndirectLogged(a: Slots, d: set<nat>): set<nat>
    requires DataOnly(d)
  {
    if a[NDIRECT] != 0 && exists s :: s in d && s > NDIRECT && a[s] == 0 then {a[NDIRECT]} else {}
  }

  /** What a write to the data slots d logs, when it takes the blocks p. */
  ghost function LogWith(a: Slots, g: Layout, d: set<nat>, p: set<nat>): set<nat>
    requires DataOnly(d)
  {
    Existing(a, d) + p + Bits(g, p) + IndirectLogged(a, d)
  }

  /** What bmap logs for one data slot when it takes the blocks q. */
  ghost function BmapLog(a: Slots, a': Slots, g: Layout, s: nat, q: set<nat>): set<nat>
    requires s < NSLOTS
  {
    q + Bits(g, q) + EntryLogged(a, a', s)
  }

  /** The same with the store into the block. */
  ghost function LogStep(a: Slots, a': Slots, g: Layout, s: nat, q: set<nat>): set<nat>
    requires s < NSLOTS
  {
    BmapLog(a, a', g, s, q) + {a'[s]}
  }

  lemma BitsUnion(g: Layout, p: set<nat>, q: set<nat>)
    ensures Bits(g, p + q) == Bits(g, p) + Bits(g, q)
  {
  }

  /** What the blocks in slot s and in the indirect slot are after s is filled. */
  ghost predicate StepFacts(a0: Slots, a: Slots, a': Slots, p: set<nat>, s: nat, q: set<nat>)
    requires s < NSLOTS
  {
    && a[s] == a0[s]
    && (a0[s] != 0 ==> a'[s] == a0[s] && q == {})
    && (a0[s] == 0 ==> a'[s] in q)
    && (a0[s] == 0 && s > NDIRECT && a0[NDIRECT] == 0 ==> a'[NDIRECT] in p + q)
    && (a0[s] == 0 && s > NDIRECT && a0[NDIRECT] != 0 ==> a'[NDIRECT] == a0[NDIRECT])
  }

  lemma StepFactsHold(a0: Slots, a: Slots, a': Slots, d: set<nat>, p: set<nat>, s: nat, q: set<nat>)
    requires DataOnly(d) && Fills(a0, a, Missing(a0, d), p) && 0 !in p
    requires s < NSLOTS && s != NDIRECT && s !in d
    requires DataOnly({s}) && Fills(a, a', Missing(a, {s}), q) && |q| == |Missing(a, {s})| && Formed(a)
    ensures StepFacts(a0, a, a', p, s, q)
  {
    MissingStep(a0, a, d, p, s);
    MissingAt(a0, d, NDIRECT);
    FilledAt(a0, a, Missing(a0, d), p, NDIRECT);
    OneMissing(a, s);
    FilledAt(a, a', Missing(a, {s}), q, s);
    FilledAt(a, a', Missing(a, {s}), q, NDIRECT);
    if a0[s] != 0 {
      NoneMissing(a, s);
    }
  }

  lemma NoneMissing(a: Slots, s: nat)
    requires s < NSLOTS && s != NDIRECT && a[s] != 0 && Formed(a)
    ensures DataOnly({s}) && Missing(a, {s}) == {}
  {
    OneMissing(a, s);
  }

  lemma LogWithStep(a0: Slots, a: Slots, a': Slots, g: Layout, d: set<nat>, p: set<nat>, s: nat, q: set<nat>)
    requires DataOnly(d)
    requires s < NSLOTS && s != NDIRECT && s !in d && StepFacts(a0, a, a', p, s, q)
    ensures DataOnly(d + {s}) && LogWith(a0, g, d + {s}, p + q) == LogWith(a0, g, d, p) + LogStep(a, a', g, s, q)
  {
    if a0[s] != 0 {
      LogMapped(a0, g, d, p, s);
      assert p + q == p && LogStep(a, a', g, s, q) == {a0[s]};
    } else {
      LogFresh(a0, g, d, p, q, s, a'[s], a'[NDIRECT]);
      var y := if s > NDIRECT then {a'[NDIRECT]} else {};
      assert LogStep(a, a', g, s, q) == {a'[s]} + q + Bits(g, q) + y;
    }
  }

  lemma LogMapped(a: Slots, g: Layout, d: set<nat>, p: set<nat>, s: nat)
    requires DataOnly(d) && s < NSLOTS && s != NDIRECT && a[s] != 0
    ensures DataOnly(d + {s}) && LogWith(a, g, d + {s}, p) == LogWith(a, g, d, p) + {a[s]}
  {
    MappedStep(a, d, s);
  }

  lemma LogFresh(a: Slots, g: Layout, d: set<nat>, p: set<nat>, q: set<nat>, s: nat, b: nat, ind: nat)
    requires DataOnly(d) && s < NSLOTS && s != NDIRECT && a[s] == 0 && b in q
    requires s > NDIRECT ==> if a[NDIRECT] == 0 then ind in p + q else ind == a[NDIRECT]
    ensures DataOnly(d + {s})
    ensures LogWith(a, g, d + {s}, p + q) ==
        LogWith(a, g, d, p) + ({b} + q + Bits(g, q) + if s > NDIRECT then {ind} else {})
  {
    FreshStep(a, d, s, ind, p + q);
    BitsUnion(g, p, q);
    Shuffle(Existing(a, d), p, q, Bits(g, p), Bits(g, q), IndirectLogged(a, d), IndirectLogged(a, d + {s}),
            b, if s > NDIRECT then {ind} else {});
  }

  lemma Shuffle(e: set<nat>, p: set<nat>, q: set<nat>, bp: set<nat>, bq: set<nat>, x: set<nat>, x': set<nat>, b: nat,
      y: set<nat>)
    requires b in q && (p + q) + x' == (p + q) + x + y
    ensures e + (p + q) + (bp + bq) + x' == (e + p + bp + x) + ({b} + q + bq + y)
  {
    assert e + (p + q) + (bp + bq) + x' == (e + bp + bq) + ((p + q) + x');
  }

  lemma MappedStep(a: Slots, d: set<nat>, s: nat)
    requires DataOnly(d) && s < NSLOTS && s != NDIRECT && a[s] != 0
    ensures DataOnly(d + {s}) && Existing(a, d + {s}) == Existing(a, d) + {a[s]}
    ensures IndirectLogged(a, d + {s}) == IndirectLogged(a, d)
  {
    assert (exists t :: t in d + {s} && t > NDIRECT && a[t] == 0) <==> exists t :: t in d && t > NDIRECT && a[t] == 0;
  }

  lemma FreshStep(a: Slots, d: set<nat>, s: nat, ind: nat, p: set<nat>)
    requires DataOnly(d) && s < NSLOTS && s != NDIRECT && a[s] == 0
    requires s > NDIRECT ==> if a[NDIRECT] == 0 then ind in p else ind == a[NDIRECT]
    ensures DataOnly(d + {s}) && Existing(a, d + {s}) == Existing(a, d)
    ensures p + IndirectLogged(a, d + {s}) == p + IndirectLogged(a, d) + if s > NDIRECT then {ind} else {}
  {
    assert s in d + {s};
    assert (exists t :: t in d + {s} && t > NDIRECT && a[t] == 0) <==>
           s > NDIRECT || exists t :: t in d && t > NDIRECT && a[t] == 0;
  }

  lemma DataSlotsOnly(off: nat, n: nat)
    requires off + n <= MAXFILE * BSIZE
    ensures DataOnly(DataSlots(off, n))
  {
    forall s | s in DataSlots(off, n)
      ensures s < NSLOTS && s != NDIRECT
    {
      DataSlotsBelow(off, n, s);
    }
  }

  /** The slot, if it is empty. */
  ghost function EmptyOne(a: Slots, s: nat): set<nat>
    requires s < NSLOTS
  {
    if a[s] == 0 then {s} else {}
  }

  /** One step has filled the slots m with the blocks q, and logged them and
      more. */
  ghost predicate Took(a: Space, b: Space, g: Layout, m: set<nat>, q: set<nat>, more: set<nat>) {
    && |q| == |m| && First(a.used, q) && b.used == Marking(a.used, q) && Fills(a.slots, b.slots, m, q)
    && b.log == a.log + (q + Bits(g, q) + more)
  }

  lemma TookTwice(a: Space, b: Space, c: Space, g: Layout, m: set<nat>, p: set<nat>, n: set<nat>, q: set<nat>,
      y: set<nat>)
    requires Took(a, b, g, m, p, {}) && Took(b, c, g, n, q, y) && m !! n
    ensures Took(a, c, g, m + n, p + q, y)
  {
    FirstTwice(a.used, p, q);
    BitsUnion(g, p, q);
    FillsTwice(a.slots, b.slots, c.slots, m, p, n, q);
    assert |m + n| == |m| + |n|;
    Gather(a.log, p, Bits(g, p), q, Bits(g, q), y);
  }

  lemma Gather(l: set<nat>, p: set<nat>, bp: set<nat>, q: set<nat>, bq: set<nat>, y: set<nat>)
    ensures l + (p + bp + {}) + (q + bq + y) == l + ((p + q) + (bp + bq) + y)
  {
  }

  lemma FillsTwice(a: Slots, b: Slots, c: Slots, m: set<nat>, p: set<nat>, n: set<nat>, q: set<nat>)
    requires Fills(a, b, m, p) && Fills(b, c, n, q) && m !! n
    ensures Fills(a, c, m + n, p + q)
  {
  }

  lemma TookNothing(a: Space, g: Layout)
    ensures Took(a, a, g, {}, {}, {})
  {
    assert a.used == Marking(a.used, {});
    assert Bits(g, {}) == {};
  }

  lemma TookFirst(a: Space, g: Layout, s: nat)
    requires s < NSLOTS && a.slots[s] == 0 && FreeBlocks(a.used) != {}
    ensures Took(a, Filled(a, g, s), g, {s}, {Least(FreeBlocks(a.used))}, {})
  {
    var b := Least(FreeBlocks(a.used));
    assert a.used[b := true] == Marking(a.used, {b});
    assert Bits(g, {b}) == {BBlock(g, b)};
    assert First(a.used, {b});
  }

  lemma Emptied(a: Space, b: Space, g: Layout, m: set<nat>, q: set<nat>, x: set<nat>)
    requires Took(a, b, g, m, q, x)
    ensures |FreeBlocks(b.used)| == |FreeBlocks(a.used)| - |m|
  {
    FreeLeft(a.used, q);
  }

  lemma AddrStepIs(a: Space, g: Layout, s: nat) returns (q: set<nat>)
    requires s < NSLOTS
    ensures AddrStep(a, g, s).Full? <==> |FreeBlocks(a.used)| < |EmptyOne(a.slots, s)|
    ensures AddrStep(a, g, s).Done? ==> Took(a, AddrStep(a, g, s).a, g, EmptyOne(a.slots, s), q, {})
  {
    q := {};
    if a.slots[s] != 0 {
      TookNothing(a, g);
    } else if FreeBlocks(a.used) != {} {
      q := {Least(FreeBlocks(a.used))};
      TookFirst(a, g, s);
    }
  }

  /** What EntryStep logs on top: the indirect block that got an entry. */
  ghost function EntryLogged(a: Slots, a': Slots, s: nat): set<nat>
    requires s < NSLOTS
  {
    if s > NDIRECT && a[s] == 0 then {a'[NDIRECT]} else {}
  }

  lemma EntryStepIs(a: Space, g: Layout, s: nat) returns (q: set<nat>)
    requires NDIRECT < s < NSLOTS
    ensures EntryStep(a, g, s).Full? <==> |FreeBlocks(a.used)| < |EmptyOne(a.slots, s)|
    ensures EntryStep(a, g, s).Done? ==>
              var b := EntryStep(a, g, s).a; Took(a, b, g, EmptyOne(a.slots, s), q, EntryLogged(a.slots, b.slots, s))
  {
    q := {};
    if a.slots[s] != 0 {
      TookNothing(a, g);
    } else if FreeBlocks(a.used) != {} {
      q := {Least(FreeBlocks(a.used))};
      TookFirst(a, g, s);
      var b := Filled(a, g, s);
      assert b.log + {b.slots[NDIRECT]} == a.log + (q + Bits(g, q) + {b.slots[NDIRECT]});
    }
  }

  /** The indirect block comes first. */
  lemma IndirectFirst(a: Slots, s: nat)
    requires NDIRECT < s < NSLOTS && Formed(a)
    ensures DataOnly({s}) && Missing(a, {s}) == EmptyOne(a, NDIRECT) + EmptyOne(a, s)
    ensures EmptyOne(a, NDIRECT) !! EmptyOne(a, s)
    ensures |Missing(a, {s})| == |EmptyOne(a, NDIRECT)| + |EmptyOne(a, s)|
  {
    OneMissing(a, s);
    assert Missing(a, {s}) == EmptyOne(a, NDIRECT) + EmptyOne(a, s);
  }

  lemma DirectOnly(a: Slots, s: nat)
    requires s < NDIRECT
    ensures DataOnly({s}) && Missing(a, {s}) == EmptyOne(a, s)
  {
    OneMissing(a, s);
  }

  /** bmap fails exactly when too few blocks are free, and otherwise takes the
      first free ones. */
  lemma MapStepIs(a: Space, g: Layout, s: nat) returns (q: set<nat>)
    requires s < NSLOTS && s != NDIRECT && Formed(a.slots)
    ensures DataOnly({s}) && (MapStep(a, g, s).Full? <==> |FreeBlocks(a.used)| < |Missing(a.slots, {s})|)
    ensures MapStep(a, g, s).Done? ==>
              var b := MapStep(a, g, s).a; Took(a, b, g, Missing(a.slots, {s}), q, EntryLogged(a.slots, b.slots, s))
  {
    if s < NDIRECT {
      DirectOnly(a.slots, s);
      q := AddrStepIs(a, g, s);
    } else {
      q := IndirectStepIs(a, g, s);
    }
  }

  lemma IndirectStepIs(a: Space, g: Layout, s: nat) returns (q: set<nat>)
    requires NDIRECT < s < NSLOTS && Formed(a.slots)
    ensures DataOnly({s}) && (MapStep(a, g, s).Full? <==> |FreeBlocks(a.used)| < |Missing(a.slots, {s})|)
    ensures MapStep(a, g, s).Done? ==>
              var b := MapStep(a, g, s).a; Took(a, b, g, Missing(a.slots, {s}), q, EntryLogged(a.slots, b.slots, s))
  {
    IndirectFirst(a.slots, s);
    var p := AddrStepIs(a, g, NDIRECT);
    q := {};
    if AddrStep(a, g, NDIRECT).Done? {
      q := EntryAfter(a, AddrStep(a, g, NDIRECT).a, g, s, p);
    }
  }

  lemma EntryAfter(a: Space, b: Space, g: Layout, s: nat, p: set<nat>) returns (q: set<nat>)
    requires NDIRECT < s < NSLOTS && Formed(a.slots) && Took(a, b, g, EmptyOne(a.slots, NDIRECT), p, {})
    ensures DataOnly({s}) && (EntryStep(b, g, s).Full? <==> |FreeBlocks(a.used)| < |Missing(a.slots, {s})|)
    ensures EntryStep(b, g, s).Done? ==>
              var c := EntryStep(b, g, s).a; Took(a, c, g, Missing(a.slots, {s}), q, EntryLogged(a.slots, c.slots, s))
  {
    IndirectFirst(a.slots, s);
    Emptied(a, b, g, EmptyOne(a.slots, NDIRECT), p, {});
    FilledAt(a.slots, b.slots, EmptyOne(a.slots, NDIRECT), p, s);
    assert EmptyOne(b.slots, s) == EmptyOne(a.slots, s);
    var r := EntryStepIs(b, g, s);
    q := p + r;
    if EntryStep(b, g, s).Done? {
      var c := EntryStep(b, g, s).a;
      var took := Took(b, c, g, EmptyOne(a.slots, s), r, EntryLogged(a.slots, c.slots, s));
      assert took;
      TookTwice(a, b, c, g, EmptyOne(a.slots, NDIRECT), p, EmptyOne(a.slots, s), r, EntryLogged(a.slots, c.slots, s));
    }
  }

  lemma StaysFormed(a: Slots, b: Slots, s: nat, q: set<nat>)
    requires s < NSLOTS && s != NDIRECT && Formed(a) && DataOnly({s}) && Fills(a, b, Missing(a, {s}), q) && 0 !in q
    ensures Formed(b)
  {
    OneMissing(a, s);
    FilledAt(a, b, Missing(a, {s}), q, NDIRECT);
  }

  /** The slots d are filled and logged, the blocks p taken for it. */
  ghost predicate Progress(a0: Space, a: Space, g: Layout, d: set<nat>, p: set<nat>) {
    && DataOnly(d) && |p| == |Missing(a0.slots, d)| && First(a0.used, p) && a.used == Marking(a0.used, p)
    && Fills(a0.slots, a.slots, Missing(a0.slots, d), p) && a.log == a0.log + LogWith(a0.slots, g, d, p)
    && Formed(a.slots)
  }

  lemma ProgressStep(a0: Space, a: Space, g: Layout, d: set<nat>, p: set<nat>, s: nat) returns (q: set<nat>)
    requires Progress(a0, a, g, d, p) && 0 !in FreeBlocks(a0.used) && s < NSLOTS && s != NDIRECT && s !in d
    ensures DataOnly(d + {s})
    ensures StoreStep(a, g, s).Full? <==> |FreeBlocks(a0.used)| < |Missing(a0.slots, d + {s})|
    ensures StoreStep(a, g, s).Done? ==> Progress(a0, StoreStep(a, g, s).a, g, d + {s}, p + q)
  {
    MissingStep(a0.slots, a.slots, d, p, s);
    FreeLeft(a0.used, p);
    UnionSize(Missing(a0.slots, d), Missing(a.slots, {s}));
    q := MapStepIs(a, g, s);
    if MapStep(a, g, s).Done? {
      StoreProgress(a0, a, MapStep(a, g, s).a, g, d, p, s, q);
    }
  }

  lemma StoreProgress(a0: Space, a: Space, b: Space, g: Layout, d: set<nat>, p: set<nat>, s: nat, q: set<nat>)
    requires Progress(a0, a, g, d, p) && 0 !in FreeBlocks(a0.used) && s < NSLOTS && s != NDIRECT && s !in d
        && DataOnly({s})
    requires Took(a, b, g, Missing(a.slots, {s}), q, EntryLogged(a.slots, b.slots, s))
    ensures Progress(a0, b.(log := b.log + {b.slots[s]}), g, d + {s}, p + q)
  {
    MissingStep(a0.slots, a.slots, d, p, s);
    FirstTwice(a0.used, p, q);
    FillsTwice(a0.slots, a.slots, b.slots, Missing(a0.slots, d), p, Missing(a.slots, {s}), q);
    StaysFormed(a.slots, b.slots, s, q);
    StepFactsHold(a0.slots, a.slots, b.slots, d, p, s, q);
    StoreLogged(a0.slots, a.slots, b.slots, g, d, p, s, q, a0.log, a.log, b.log);
    UnionSize(Missing(a0.slots, d), Missing(a.slots, {s}));
  }

  lemma UnionSize(m: set<nat>, n: set<nat>)
    requires m !! n
    ensures |m + n| == |m| + |n|
  {
  }

  lemma StoreLogged(a0: Slots, a: Slots, b: Slots, g: Layout, d: set<nat>, p: set<nat>, s: nat, q: set<nat>,
                    l0: set<nat>, l: set<nat>, l': set<nat>)
    requires DataOnly(d) && s < NSLOTS && s != NDIRECT && s !in d && StepFacts(a0, a, b, p, s, q)
    requires l == l0 + LogWith(a0, g, d, p) && l' == l + (q + Bits(g, q) + EntryLogged(a, b, s))
    ensures DataOnly(d + {s}) && l' + {b[s]} == l0 + LogWith(a0, g, d + {s}, p + q)
  {
    LogWithStep(a0, a, b, g, d, p, s, q);
    Regroup(l0, LogWith(a0, g, d, p), BmapLog(a, b, g, s, q), {b[s]});
  }

  lemma Regroup(a: set<nat>, b: set<nat>, c: set<nat>, d: set<nat>)
    ensures ((a + b) + c) + d == a + (b + (c + d))
  {
  }

  lemma NoProgress(a: Space, g: Layout)
    requires Formed(a.slots)
    ensures Progress(a, a, g, {}, {})
  {
    assert Missing(a.slots, {}) == {};
    assert LogWith(a.slots, g, {}, {}) == {};
    assert a.used == Marking(a.used, {});
  }

  /** How a run over the slots d from a0 has ended. */
  ghost predicate Ended(a0: Space, r: Outcome, g: Layout, d: set<nat>, p: set<nat>) {
    && DataOnly(d)
    && (r.Full? <==> |FreeBlocks(a0.used)| < |Missing(a0.slots, d)|)
    && (r.Done? ==> Progress(a0, r.a, g, d, p))
  }

  lemma EndedStep(a0: Space, r: Outcome, g: Layout, d: set<nat>, p: set<nat>, s: nat) returns (q: set<nat>)
    requires Ended(a0, r, g, d, p) && 0 !in FreeBlocks(a0.used) && s < NSLOTS && s != NDIRECT && s !in d
    ensures Ended(a0, Then(r, g, s), g, d + {s}, q)
  {
    if r.Done? {
      q := ProgressStep(a0, r.a, g, d, p, s);
      q := p + q;
    } else {
      q := p;
      MissingGrows(a0.slots, d, d + {s});
    }
  }

  lemma EndedAtOnce(a: Space, g: Layout)
    requires Formed(a.slots)
    ensures Ended(a, Done(a), g, {}, {})
  {
    NoProgress(a, g);
  }

  /** What holds at the start and is kept by each slot holds at the end. */
  lemma {:induction false} RunInduction(a: Space, g: Layout, lo: nat, hi: nat, ended: (Outcome, set<nat>) -> bool)
    requires hi <= MAXFILE && ended(Done(a), {})
    requires forall r: Outcome, d: set<nat>, s: nat ::
               s < NSLOTS && s != NDIRECT && s !in d && ended(r, d) ==> ended(Then(r, g, s), d + {s})
    ensures ended(Run(a, g, lo, hi), SlotsBetween(lo, hi))
  {
    if lo < hi {
      RunInduction(a, g, lo, hi - 1, ended);
      NextSlot(lo, hi - 1, SlotOf(hi - 1));
      assert ended(Then(Run(a, g, lo, hi - 1), g, SlotOf(hi - 1)), SlotsBetween(lo, hi - 1) + {SlotOf(hi - 1)});
    }
  }

  /** The loop of writei fails exactly when too few blocks are free. */
  lemma RunIs(a: Space, g: Layout, lo: nat, hi: nat) returns (p: set<nat>)
    requires hi <= MAXFILE && Formed(a.slots) && 0 !in FreeBlocks(a.used)
    ensures Ended(a, Run(a, g, lo, hi), g, SlotsBetween(lo, hi), p)
  {
    var ended := (r: Outcome, d: set<nat>) => exists q :: Ended(a, r, g, d, q);
    EndedAtOnce(a, g);
    assert ended(Done(a), {});
    forall r: Outcome, d: set<nat>, s: nat | s < NSLOTS && s != NDIRECT && s !in d && ended(r, d)
      ensures ended(Then(r, g, s), d + {s})
    {
      var q :| Ended(a, r, g, d, q);
      var q' := EndedStep(a, r, g, d, q, s);
      assert Ended(a, Then(r, g, s), g, d + {s}, q');
    }
    RunInduction(a, g, lo, hi, ended);
    p :| Ended(a, Run(a, g, lo, hi), g, SlotsBetween(lo, hi), p);
  }

  /** The slots that a write of n bytes at off to inode i has to fill. */
  ghost function MissingFor(v: Vol, i: nat, off: nat, n: nat): set<nat>
    requires Shape(v) && i < |v.ino| && off + n <= MAXFILE * BSIZE
  {
    DataSlotsOnly(off, n);
    Missing(SlotsOf(v, i), DataSlots(off, n))
  }

  /** There are free blocks enough for it. */
  ghost predicate Enough(v: Vol, i: nat, off: nat, n: nat)
    requires Shape(v) && i < |v.ino| && off + n <= MAXFILE * BSIZE
  {
    |MissingFor(v, i, off, n)| <= |FreeBlocks(v.used)|
  }

  ghost function InodeLogged(v: Vol, g: Layout, i: nat, off: nat, n: nat): set<nat>
    requires i < |v.ino|
  {
    if n > 0 && off + n > v.ino[i].size then {IBlock(g, i)} else {}
  }

  /** Exactly the blocks that a write of n bytes at off logs. */
  ghost function LogOf(v: Vol, g: Layout, i: nat, off: nat, n: nat): set<nat>
    requires Shape(v) && i < |v.ino| && off + n <= MAXFILE * BSIZE && Enough(v, i, off, n)
  {
    DataSlotsOnly(off, n);
    LogWith(SlotsOf(v, i), g, DataSlots(off, n), Picks(v.used, |MissingFor(v, i, off, n)|))
        + InodeLogged(v, g, i, off, n)
  }

  lemma SlotsFormed(v: Vol, i: nat)
    requires Shape(v) && i < |v.ino|
    ensures Formed(SlotsOf(v, i))
  {
  }

  /** The loop of writei in closed form: it succeeds exactly when there are
      enough free blocks, takes the first of them, and logs LogOf but for the
      inode. */
  lemma RunBytesIs(v: Vol, g: Layout, i: nat, off: nat, n: nat, log: set<nat>)
    requires Shape(v) && i < |v.ino| && off + n <= MAXFILE * BSIZE && v.used[0]
    ensures var r := RunBytes(Space(SlotsOf(v, i), v.used, log), g, off, n);
            && (r.Done? <==> Enough(v, i, off, n))
            && (r.Done? ==> r.a.used == Marking(v.used, Picks(v.used, |MissingFor(v, i, off, n)|)))
            && (r.Done? ==> r.a.log + InodeLogged(v, g, i, off, n) == log + LogOf(v, g, i, off, n))
  {
    var a := Space(SlotsOf(v, i), v.used, log);
    SlotsFormed(v, i);
    DataSlotsOnly(off, n);
    var p := {};
    if n == 0 {
      NoProgress(a, g);
    } else {
      p := RunIs(a, g, off / BSIZE, (off + n - 1) / BSIZE + 1);
    }
    EndedBytes(v, g, i, off, n, log, RunBytes(a, g, off, n), p);
  }

  lemma EndedBytes(v: Vol, g: Layout, i: nat, off: nat, n: nat, log: set<nat>, r: Outcome, p: set<nat>)
    requires Shape(v) && i < |v.ino| && off + n <= MAXFILE * BSIZE
    requires Ended(Space(SlotsOf(v, i), v.used, log), r, g, DataSlots(off, n), p)
    ensures r.Done? <==> Enough(v, i, off, n)
    ensures r.Done? ==> r.a.used == Marking(v.used, Picks(v.used, |MissingFor(v, i, off, n)|))
    ensures r.Done? ==> r.a.log + InodeLogged(v, g, i, off, n) == log + LogOf(v, g, i, off, n)
  {
    if r.Done? {
      FirstUnique(v.used, p, Picks(v.used, |MissingFor(v, i, off, n)|));
    }
  }

  /** Bytes tot to tot + m of a write of n bytes at off lie in one block, which
      starts there unless the write does. */
  predicate Piece(off: nat, tot: nat, m: nat, n: nat) {
    m > 0 && tot + m <= n && (tot > 0 ==> (off + tot) % BSIZE == 0) && (off + tot) % BSIZE + m <= BSIZE
  }

  /** ran says how far the loop of writei has come after so many bytes. */
  ghost predicate Course(ran: nat -> Outcome, g: Layout, off: nat, n: nat) {
    forall tot: nat, m: nat :: Piece(off, tot, m, n) ==> Follows(ran(tot), ran(tot + m), ran(n), g, (off + tot) / BSIZE)
  }

  /** The next stage of a write, and its end if it gets stuck there. */
  ghost predicate Follows(r: Outcome, next: Outcome, last: Outcome, g: Layout, bn: nat) {
    bn < MAXFILE && next == Then(r, g, SlotOf(bn)) && (next == Full ==> last == Full)
  }

  lemma CourseAt(ran: nat -> Outcome, g: Layout, off: nat, n: nat, tot: nat, end: nat, a: Space, s: nat)
    requires tot < end && Course(ran, g, off, n) && Piece(off, tot, end - tot, n) && ran(tot) == Done(a)
    requires s == SlotOf((off + tot) / BSIZE)
    ensures s < NSLOTS && ran(end) == StoreStep(a, g, s) && (ran(end) == Full ==> ran(n) == Full)
  {
    assert Follows(ran(tot), ran(tot + (end - tot)), ran(n), g, (off + tot) / BSIZE);
  }

  /** The loop of writei after so many bytes. */
  ghost function CourseFrom(a: Space, g: Layout, off: nat): nat -> Outcome {
    (k: nat) => if off + k <= MAXFILE * BSIZE then RunBytes(a, g, off, k) else Full
  }

  ghost predicate Tells(ran: nat -> Outcome, a: Space, g: Layout, off: nat) {
    forall k: nat :: off + k <= MAXFILE * BSIZE ==> ran(k) == RunBytes(a, g, off, k)
  }

  lemma CourseTells(a: Space, g: Layout, off: nat)
    ensures Tells(CourseFrom(a, g, off), a, g, off)
  {
  }

  lemma CourseStep(ran: nat -> Outcome, a: Space, g: Layout, off: nat, n: nat, tot: nat, m: nat)
    requires off + n <= MAXFILE * BSIZE && Piece(off, tot, m, n) && Tells(ran, a, g, off)
    ensures Follows(ran(tot), ran(tot + m), ran(n), g, (off + tot) / BSIZE)
  {
    RunBytesStep(a, g, off, tot, m, (off + tot) / BSIZE);
    if RunBytes(a, g, off, tot + m) == Full {
      RunBytesFull(a, g, off, tot + m, n);
    }
  }

  lemma IsCourse(ran: nat -> Outcome, a: Space, g: Layout, off: nat, n: nat)
    requires off + n <= MAXFILE * BSIZE && Tells(ran, a, g, off)
    ensures Course(ran, g, off, n)
  {
    forall tot: nat, m: nat | Piece(off, tot, m, n)
      ensures Follows(ran(tot), ran(tot + m), ran(n), g, (off + tot) / BSIZE)
    {
      CourseStep(ran, a, g, off, n, tot, m);
    }
  }

  /** The course of a write, and its end in closed form. */
  lemma CourseOf(v: Vol, g: Layout, i: nat, off: nat, n: nat, log: set<nat>) returns (ran: nat -> Outcome)
    requires Shape(v) && i < |v.ino| && off + n <= MAXFILE * BSIZE && v.used[0]
    ensures Course(ran, g, off, n) && ran(0) == Done(Space(SlotsOf(v, i), v.used, log))
    ensures ran(n).Done? <==> Enough(v, i, off, n)
    ensures ran(n).Done? ==> ran(n).a.used == Marking(v.used, Picks(v.used, |MissingFor(v, i, off, n)|))
    ensures ran(n).Done? ==> ran(n).a.log + InodeLogged(v, g, i, off, n) == log + LogOf(v, g, i, off, n)
  {
    var a := Space(SlotsOf(v, i), v.used, log);
    ran := CourseFrom(a, g, off);
    CourseTells(a, g, off);
    IsCourse(ran, a, g, off, n);
    RunBytesIs(v, g, i, off, n, log);
  }

  predicate WriteAllowed(size: nat, off: nat, n: nat) {
    off <= size && off + n < 0x1_0000_0000 && off + n <= MAXFILE * BSIZE
  }

  /** Blocks of a file that the bytes [off, off + n) lie in. */
  ghost function BlocksTouched(off: nat, n: nat): nat {
    if n == 0 then 0 else (off + n - 1) / BSIZE - off / BSIZE + 1
  }

  /** Blocks of the range that can be missing when off is not beyond the end:
      a write that starts inside a block finds that block. */
  ghost function FreshBlocks(off: nat, n: nat): nat {
    if off % BSIZE != 0 && n > 0 then BlocksTouched(off, n) - 1 else BlocksTouched(off, n)
  }

  /** The data blocks, a bitmap block for each missing one and for the indirect
      block, the indirect block, and the inode block. */
  ghost function LogCost(off: nat, n: nat): nat {
    if n == 0 then 0 else BlocksTouched(off, n) + (FreshBlocks(off, n) + 1) + 1 + 1
  }

  lemma UnionBound(a: set<nat>, b: set<nat>)
    ensures |a + b| <= |a| + |b|
  {
    assert a + b == a + (b - a);
    assert b == (b - a) + (b * a);
  }

  lemma {:induction false} BitsSize(g: Layout, p: set<nat>)
    ensures |Bits(g, p)| <= |p|
  {
    if p != {} {
      var b :| b in p;
      BitsSize(g, p - {b});
      assert p == (p - {b}) + {b};
      BitsUnion(g, p - {b}, {b});
      assert Bits(g, {b}) == {BBlock(g, b)};
      UnionBound(Bits(g, p - {b}), {BBlock(g, b)});
    }
  }

  ghost function MappedSlots(a: Slots, d: set<nat>): set<nat>
    requires DataOnly(d)
  {
    set s | s in d && a[s] != 0
  }

  ghost function EmptySlots(a: Slots, d: set<nat>): set<nat>
    requires DataOnly(d)
  {
    set s | s in d && a[s] == 0
  }

  lemma {:induction false} ExistingSize(a: Slots, d: set<nat>)
    requires DataOnly(d)
    ensures |Existing(a, d)| <= |MappedSlots(a, d)|
  {
    if s :| s in d {
      ExistingSize(a, d - {s});
      var e := d - {s};
      if a[s] != 0 {
        assert MappedSlots(a, d) == MappedSlots(a, e) + {s};
        assert Existing(a, d) == Existing(a, e) + {a[s]};
        UnionBound(Existing(a, e), {a[s]});
      } else {
        assert MappedSlots(a, d) == MappedSlots(a, e);
        assert Existing(a, d) == Existing(a, e);
      }
    }
  }

  lemma SlotsSplit(a: Slots, d: set<nat>)
    requires DataOnly(d)
    ensures |d| == |MappedSlots(a, d)| + |EmptySlots(a, d)|
    ensures |Missing(a, d)| == |EmptySlots(a, d)| + |MissingIndirect(a, d)|
  {
    assert d == MappedSlots(a, d) + EmptySlots(a, d);
    assert Missing(a, d) == EmptySlots(a, d) + MissingIndirect(a, d);
    assert EmptySlots(a, d) !! MissingIndirect(a, d);
  }

  /** A write that starts inside a block finds that block. */
  lemma FreshBound(v: Vol, i: nat, off: nat, n: nat)
    requires Shape(v) && Mapped(v) && i < |v.ino| && off <= v.ino[i].size && off + n <= MAXFILE * BSIZE && n > 0
    ensures DataOnly(DataSlots(off, n)) && |DataSlots(off, n)| == BlocksTouched(off, n)
    ensures |EmptySlots(SlotsOf(v, i), DataSlots(off, n))| <= FreshBlocks(off, n)
  {
    DataSlotsOnly(off, n);
    SlotsBetweenSize(off / BSIZE, (off + n - 1) / BSIZE + 1);
    SlotsSplit(SlotsOf(v, i), DataSlots(off, n));
    if off % BSIZE != 0 {
      FirstFound(v, i, off, n);
    }
  }

  lemma FirstFound(v: Vol, i: nat, off: nat, n: nat)
    requires Shape(v) && Mapped(v) && i < |v.ino| && off <= v.ino[i].size && off + n <= MAXFILE * BSIZE && n > 0
        && off % BSIZE != 0
    requires DataOnly(DataSlots(off, n))
    ensures MappedSlots(SlotsOf(v, i), DataSlots(off, n)) != {}
  {
    var bn := off / BSIZE;
    MappedBelowSize(v, i, off);
    SlotsBetweenAre(bn, (off + n - 1) / BSIZE + 1, SlotOf(bn));
    assert SlotOf(bn) in MappedSlots(SlotsOf(v, i), DataSlots(off, n));
  }

  /** The log of a write is at most LogCost, in every volume. */
  lemma LogBound(v: Vol, g: Layout, i: nat, off: nat, n: nat)
    requires Shape(v) && Mapped(v) && i < |v.ino| && off <= v.ino[i].size && off + n <= MAXFILE * BSIZE
        && Enough(v, i, off, n)
    ensures |LogOf(v, g, i, off, n)| <= LogCost(off, n)
  {
    var d := DataSlots(off, n);
    DataSlotsOnly(off, n);
    var p := Picks(v.used, |MissingFor(v, i, off, n)|);
    var e, b, x, y := Existing(SlotsOf(v, i), d), Bits(g, p), IndirectLogged(SlotsOf(v, i), d),
        InodeLogged(v, g, i, off, n);
    if n == 0 {
      assert d == {} && e == {} && p == {} && b == {} && x == {} && y == {};
      assert LogOf(v, g, i, off, n) == {};
    } else {
      FreshBound(v, i, off, n);
      SlotsSplit(SlotsOf(v, i), d);
      ExistingSize(SlotsOf(v, i), d);
      BitsSize(g, p);
      UnionBound(e, p);
      UnionBound(e + p, b);
      UnionBound(e + p + b, x);
      UnionBound(e + p + b + x, y);
    }
  }

  /** The largest piece of a write that filewrite hands to writei. */
  const CHUNK: nat := (MAXOPBLOCKS - 1 - 1 - 2) / 2 * 512

  lemma ChunkCost(off: nat, n: nat)
    requires n <= CHUNK
    ensures LogCost(off, n) <= MAXOPBLOCKS
  {
    if n > 0 {
      assert (off + n - 1) / BSIZE - off / BSIZE <= 3;
      assert off % BSIZE == 0 ==> (off + n - 1) / BSIZE - off / BSIZE <= 2;
    }
  }
}
