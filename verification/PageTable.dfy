/**
 The structure of a page-table hierarchy, and what one write to a table does to the address space.

 A `Shape` gives every table of a hierarchy its level, the PML4 slot it lives under and the one entry that
 points at it. A table may be shared by several entries only when it is sealed: a page directory whose 512
 entries are all large pages, as the boot stub builds them. `Linked` states this entry by entry.
 */
module PageTable {
  import opened Bits
  import opened Wrappers
  import opened Paging

  datatype Node = Node(level: nat, slot: nat, up: nat, at: nat)

  type Shape = map<nat, Node>

  /** A present entry that points at a table of the next level. */
  predicate IsLink(level: nat, e: u64) {
    level >= 2 && Present(e) && (level == 4 || !Huge(e))
  }

  /** The flags of every link: writable, executable, supervisor-only, so that leaves alone decide. */
  predicate LinkFlags(e: u64) {
    Writable(e) && !NoExecute(e) && !User(e)
  }

  ghost predicate Sealed(m: Mem, t: nat) {
    forall i: nat | i < 512 :: Present(Word(m, t, i)) && Huge(Word(m, t, i))
  }

  ghost predicate LinkOk(m: Mem, s: Shape, root: nat, t: nat, i: nat)
    requires t in s
  {
    var e := Word(m, t, i);
    IsLink(s[t].level, e) ==>
      var c := EntryAddr(e);
      && c in s
      && s[c].level == s[t].level - 1
      && s[c].slot == (if t == root then i else s[t].slot)
      && LinkFlags(e)
      && ((s[c].up == t && s[c].at == i) || (s[c].level == 2 && Sealed(m, c)))
  }

  ghost predicate NodeOk(m: Mem, s: Shape, root: nat, t: nat)
    requires t in s
  {
    1 <= s[t].level <= 4 && t in m && |m[t]| == 512 && (s[t].level == 4 ==> t == root)
  }

  ghost predicate Linked(m: Mem, s: Shape, root: nat) {
    && root in s && s[root].level == 4
    && (forall t | t in s :: NodeOk(m, s, root, t))
    && (forall t, i: nat | t in s && i < 512 :: LinkOk(m, s, root, t, i))
  }

  function IxAt(ix: Ix, level: nat): nat {
    if level == 4 then ix.i4 else if level == 3 then ix.i3 else if level == 2 then ix.i2 else ix.i1
  }

  /** The table that the walk of `ix` reads at a level, if it gets there. */
  function TableAt(m: Mem, root: nat, ix: Ix, level: nat): Option<nat>
    requires 1 <= level <= 4
    decreases 4 - level
  {
    if level == 4 then Some(root) else
    match TableAt(m, root, ix, level + 1)
    case None => None
    case Some(t) =>
      var e := Word(m, t, IxAt(ix, level + 1));
      if IsLink(level + 1, e) then Some(EntryAddr(e)) else None
  }

  /** The word that the walk of `ix` reads at a level; not present when the walk ends before. */
  function WordAt(m: Mem, root: nat, ix: Ix, level: nat): u64
    requires 1 <= level <= 4
  {
    match TableAt(m, root, ix, level)
    case None => 0
    case Some(t) => Word(m, t, IxAt(ix, level))
  }

  /** No large page on the path of `ix`. */
  predicate HugeFree(m: Mem, root: nat, ix: Ix) {
    var w := WalkFrom(m, root, ix);
    w.Leaf? ==> w.span == PAGE_SIZE
  }

  /** The walk in terms of the words it reads. */
  lemma WalkByLevel(m: Mem, root: nat, ix: Ix)
    ensures var w := WalkFrom(m, root, ix);
            var e3, e2, e1 := WordAt(m, root, ix, 3), WordAt(m, root, ix, 2), WordAt(m, root, ix, 1);
            w == if Present(e3) && Huge(e3) then Leaf(HUGE_PAGE_SIZE, e3)
                 else if Present(e2) && Huge(e2) then Leaf(LARGE_PAGE_SIZE, e2)
                 else if Present(e1) then Leaf(PAGE_SIZE, e1)
                 else Absent
    ensures TableAt(m, root, ix, 1).Some? ==> !(Present(WordAt(m, root, ix, 2)) && Huge(WordAt(m, root, ix, 2)))
    ensures TableAt(m, root, ix, 2).Some? ==> !(Present(WordAt(m, root, ix, 3)) && Huge(WordAt(m, root, ix, 3)))
  {
    hide Present, Huge, EntryAddr;
    NothingAtZero();
    assert TableAt(m, root, ix, 4) == Some(root);
    var t3 := TableAt(m, root, ix, 3);
    var t2 := TableAt(m, root, ix, 2);
    var t1 := TableAt(m, root, ix, 1);
  }

  lemma NothingAtZero()
    ensures !Present(0) && !Huge(0)
  {
  }

  /** A hierarchy's walk stays inside its shape, at the right level and under its own PML4 slot. */
  lemma {:induction false} PathInShape(m: Mem, s: Shape, root: nat, ix: Ix, level: nat)
    requires Linked(m, s, root) && ValidIx(ix) && 1 <= level <= 4
    ensures TableAt(m, root, ix, level).Some? ==>
              var t := TableAt(m, root, ix, level).value;
              t in s && s[t].level == level && (level < 4 ==> s[t].slot == ix.i4)
    decreases 4 - level
  {
    hide Present, Huge, EntryAddr, Sealed, LinkFlags;
    if level < 4 {
      PathInShape(m, s, root, ix, level + 1);
      if TableAt(m, root, ix, level + 1).Some? {
        var t := TableAt(m, root, ix, level + 1).value;
        assert LinkOk(m, s, root, t, IxAt(ix, level + 1));
      }
    }
  }

  /** Two walks that meet in an unsealed table took the same path to it. */
  lemma {:induction false} PathDetermined(m: Mem, s: Shape, root: nat, ix: Ix, jx: Ix, level: nat)
    requires Linked(m, s, root) && ValidIx(ix) && ValidIx(jx) && 1 <= level <= 4
    requires TableAt(m, root, ix, level).Some? && TableAt(m, root, jx, level) == TableAt(m, root, ix, level)
    requires !(level == 2 && Sealed(m, TableAt(m, root, ix, level).value))
    ensures forall k: nat | level < k <= 4 :: IxAt(ix, k) == IxAt(jx, k)
    decreases 4 - level
  {
    hide Present, Huge, EntryAddr, LinkFlags;
    if level < 4 {
      var t := TableAt(m, root, ix, level).value;
      PathInShape(m, s, root, ix, level);
      PathInShape(m, s, root, ix, level + 1);
      PathInShape(m, s, root, jx, level + 1);
      var u, v := TableAt(m, root, ix, level + 1).value, TableAt(m, root, jx, level + 1).value;
      assert LinkOk(m, s, root, u, IxAt(ix, level + 1));
      assert LinkOk(m, s, root, v, IxAt(jx, level + 1));
      assert u == v && IxAt(ix, level + 1) == IxAt(jx, level + 1);
      PathDetermined(m, s, root, ix, jx, level + 1);
    }
  }

  /** A walk that reads the same words is the same walk. */
  lemma SameReads(m: Mem, m': Mem, root: nat, ix: Ix)
    requires forall level: nat | 1 <= level <= 4 && TableAt(m, root, ix, level).Some? ::
               var t := TableAt(m, root, ix, level).value;
               Word(m', t, IxAt(ix, level)) == Word(m, t, IxAt(ix, level))
    ensures forall level: nat | 1 <= level <= 4 :: TableAt(m', root, ix, level) == TableAt(m, root, ix, level)
    ensures WalkFrom(m', root, ix) == WalkFrom(m, root, ix)
  {
    hide Present, Huge, EntryAddr;
    assert TableAt(m', root, ix, 4) == TableAt(m, root, ix, 4) == Some(root);
    assert TableAt(m', root, ix, 3) == TableAt(m, root, ix, 3);
    assert TableAt(m', root, ix, 2) == TableAt(m, root, ix, 2);
    assert TableAt(m', root, ix, 1) == TableAt(m, root, ix, 1);
    WalkByLevel(m, root, ix);
    WalkByLevel(m', root, ix);
  }

  function Zeros(): (z: seq<u64>)
    ensures |z| == 512
  {
    seq(512, _ => 0)
  }

  /** `t[i] := e`. */
  function Store(m: Mem, t: nat, i: nat, e: u64): Mem
    requires t in m && i < |m[t]|
  {
    var table: seq<u64> := m[t][i := e];
    m[t := table]
  }

  lemma StoreWord(m: Mem, t: nat, i: nat, e: u64, u: nat, j: nat)
    requires t in m && i < |m[t]|
    ensures Word(Store(m, t, i, e), u, j) == if u == t && j == i then e else Word(m, u, j)
  {
  }

  // Extending the hierarchy by one zeroed table.

  function Extend(m: Mem, t: nat, i: nat, c: nat): Mem
    requires t in m && i < |m[t]| && c != t && c + PRESENT + WRITABLE < U64_SIZE
  {
    Store(m[c := Zeros()], t, i, c + PRESENT + WRITABLE)
  }

  function ExtendShape(s: Shape, root: nat, t: nat, i: nat, c: nat): Shape
    requires t in s && s[t].level >= 1
  {
    s[c := Node(s[t].level - 1, if t == root then i else s[t].slot, t, i)]
  }

  ghost predicate CanExtend(m: Mem, s: Shape, root: nat, t: nat, i: nat, c: nat) {
    && Linked(m, s, root)
    && t in s && s[t].level >= 2 && i < 512 && !Present(Word(m, t, i))
    && c !in s && c % PAGE_SIZE == 0 && c < BOOT_MAPPED_BYTES
  }

  lemma ExtendWord(m: Mem, s: Shape, root: nat, t: nat, i: nat, c: nat, u: nat, j: nat)
    requires CanExtend(m, s, root, t, i, c)
    ensures t in m && |m[t]| == 512
    ensures Word(Extend(m, t, i, c), u, j) ==
              if u == t && j == i then c + PRESENT + WRITABLE else if u == c then 0 else Word(m, u, j)
  {
    hide Present;
    assert NodeOk(m, s, root, t);
  }

  lemma LinkEntry(c: nat, level: nat)
    requires c % PAGE_SIZE == 0 && c < BOOT_MAPPED_BYTES && level >= 2
    ensures var e := c + PRESENT + WRITABLE;
            IsLink(level, e) && EntryAddr(e) == c && LinkFlags(e)
  {
    EntryFields(c, PRESENT + WRITABLE);
  }

  /** The extended hierarchy is well formed. */
  lemma ExtendLinked(m: Mem, s: Shape, root: nat, t: nat, i: nat, c: nat)
    requires CanExtend(m, s, root, t, i, c)
    ensures t in m && |m[t]| == 512
    ensures Linked(Extend(m, t, i, c), ExtendShape(s, root, t, i, c), root)
  {
    hide Present, Huge, EntryAddr, LinkFlags, Sealed, Word, Extend;
    assert NodeOk(m, s, root, t);
    var m', s' := Extend(m, t, i, c), ExtendShape(s, root, t, i, c);
    forall u | u in s' ensures NodeOk(m', s', root, u) {
      ExtendNode(m, s, root, t, i, c, u);
    }
    forall u, j: nat | u in s' && j < 512 ensures LinkOk(m', s', root, u, j) {
      ExtendLink(m, s, root, t, i, c, u, j);
    }
  }

  lemma ExtendNode(m: Mem, s: Shape, root: nat, t: nat, i: nat, c: nat, u: nat)
    requires CanExtend(m, s, root, t, i, c) && u in ExtendShape(s, root, t, i, c)
    ensures t in m && |m[t]| == 512
    ensures NodeOk(Extend(m, t, i, c), ExtendShape(s, root, t, i, c), root, u)
  {
    hide Present, Linked;
    assert Linked(m, s, root) ==> NodeOk(m, s, root, t) by { LinkedNode(m, s, root, t); }
    if u != c {
      LinkedNode(m, s, root, u);
    }
  }

  lemma LinkedNode(m: Mem, s: Shape, root: nat, u: nat)
    requires Linked(m, s, root) && u in s
    ensures NodeOk(m, s, root, u)
  {
    hide NodeOk, LinkOk;
  }

  lemma ExtendLink(m: Mem, s: Shape, root: nat, t: nat, i: nat, c: nat, u: nat, j: nat)
    requires CanExtend(m, s, root, t, i, c) && u in ExtendShape(s, root, t, i, c) && j < 512
    ensures t in m && |m[t]| == 512
    ensures LinkOk(Extend(m, t, i, c), ExtendShape(s, root, t, i, c), root, u, j)
  {
    hide Present, Huge, EntryAddr, LinkFlags, Sealed, Word, Extend;
    var m', s' := Extend(m, t, i, c), ExtendShape(s, root, t, i, c);
    ExtendWord(m, s, root, t, i, c, u, j);
    NothingAtZero();
    if u == t && j == i {
      LinkEntry(c, s[t].level);
    } else if u != c {
      assert LinkOk(m, s, root, u, j);
      var d := EntryAddr(Word(m, u, j));
      if d in s && Sealed(m, d) {
        ExtendSealed(m, s, root, t, i, c, d);
      }
    }
  }

  lemma ExtendSealed(m: Mem, s: Shape, root: nat, t: nat, i: nat, c: nat, d: nat)
    requires CanExtend(m, s, root, t, i, c) && d in s && Sealed(m, d)
    ensures t in m && |m[t]| == 512
    ensures Sealed(Extend(m, t, i, c), d)
  {
    hide Present, Huge, Word, Extend;
    ExtendWord(m, s, root, t, i, c, t, i);
    forall j: nat | j < 512 ensures Word(Extend(m, t, i, c), d, j) == Word(m, d, j) {
      ExtendWord(m, s, root, t, i, c, d, j);
    }
  }

  /** Hanging a zeroed table under an absent entry changes no translation, mapped or not. */
  lemma ExtendKeepsWalks(m: Mem, s: Shape, root: nat, t: nat, i: nat, c: nat, ix: Ix)
    requires CanExtend(m, s, root, t, i, c) && ValidIx(ix)
    ensures t in m && |m[t]| == 512
    ensures var m' := Extend(m, t, i, c);
            && WalkFrom(m', root, ix) == WalkFrom(m, root, ix)
            && (forall l: nat | s[t].level <= l <= 4 :: TableAt(m', root, ix, l) == TableAt(m, root, ix, l))
            && (TableAt(m, root, ix, s[t].level) == Some(t) && IxAt(ix, s[t].level) == i ==>
                  TableAt(m', root, ix, s[t].level - 1) == Some(c))
  {
    hide Present, Huge, EntryAddr, LinkFlags, Sealed, Word, Extend, WalkFrom;
    ExtendWord(m, s, root, t, i, c, t, i);
    var m' := Extend(m, t, i, c);
    var k := s[t].level;
    assert NodeOk(m, s, root, t);
    forall l: nat, u | 1 <= l <= 4 && TableAt(m, root, ix, l) == Some(u)
      ensures u in s && s[u].level == l
      ensures (u == t && IxAt(ix, l) == i) || Word(m', u, IxAt(ix, l)) == Word(m, u, IxAt(ix, l))
    {
      PathInShape(m, s, root, ix, l);
      ExtendWord(m, s, root, t, i, c, u, IxAt(ix, l));
    }
    if TableAt(m, root, ix, k) == Some(t) && IxAt(ix, k) == i {
      ExtendPath(m, s, root, t, i, c, ix);
    } else {
      SameReads(m, m', root, ix);
    }
  }

  /** A walk through the new table finds it empty, where it found no table before. */
  lemma ExtendPath(m: Mem, s: Shape, root: nat, t: nat, i: nat, c: nat, ix: Ix)
    requires CanExtend(m, s, root, t, i, c) && ValidIx(ix)
    requires TableAt(m, root, ix, s[t].level) == Some(t) && IxAt(ix, s[t].level) == i
    ensures t in m && |m[t]| == 512
    ensures var m' := Extend(m, t, i, c);
            && WalkFrom(m', root, ix) == WalkFrom(m, root, ix) == Absent
            && (forall l: nat | s[t].level <= l <= 4 :: TableAt(m', root, ix, l) == TableAt(m, root, ix, l))
            && TableAt(m', root, ix, s[t].level - 1) == Some(c)
  {
    hide Present, Huge, EntryAddr, LinkFlags, Sealed, Word, Extend, WalkFrom;
    ExtendWord(m, s, root, t, i, c, t, i);
    var m' := Extend(m, t, i, c);
    var k := s[t].level;
    assert NodeOk(m, s, root, t);
    forall l: nat, u | k <= l <= 4 && TableAt(m, root, ix, l) == Some(u)
      ensures u in s && s[u].level == l && (l > k ==> Word(m', u, IxAt(ix, l)) == Word(m, u, IxAt(ix, l)))
    {
      PathInShape(m, s, root, ix, l);
      ExtendWord(m, s, root, t, i, c, u, IxAt(ix, l));
    }
    assert TableAt(m', root, ix, 4) == TableAt(m, root, ix, 4);
    assert k <= 3 ==> TableAt(m', root, ix, 3) == TableAt(m, root, ix, 3);
    assert k <= 2 ==> TableAt(m', root, ix, 2) == TableAt(m, root, ix, 2);
    LinkEntry(c, k);
    assert TableAt(m', root, ix, k - 1) == Some(c);
    ExtendWord(m, s, root, t, i, c, c, IxAt(ix, k - 1));
    NothingAtZero();
    WalkByLevel(m, root, ix);
    WalkByLevel(m', root, ix);
  }

  // Writing a leaf.

  /** Writing the last-level word on the path of `ix` changes the walk of `ix` and of no other index path. */
  lemma SetLeafWalk(m: Mem, s: Shape, root: nat, ix: Ix, t: nat, e: u64, jx: Ix)
    requires Linked(m, s, root) && ValidIx(ix) && ValidIx(jx) && Present(e)
    requires TableAt(m, root, ix, 1) == Some(t)
    ensures t in s && t in m && |m[t]| == 512 && s[t].level == 1
    ensures WalkFrom(Store(m, t, ix.i1, e), root, jx) ==
              if jx == ix then Leaf(PAGE_SIZE, e) else WalkFrom(m, root, jx)
  {
    hide Present, Huge, EntryAddr, LinkFlags, Sealed, Word, Store, WalkFrom;
    PathInShape(m, s, root, ix, 1);
    assert NodeOk(m, s, root, t);
    var m' := Store(m, t, ix.i1, e);
    forall l: nat, u | 1 <= l <= 4 && TableAt(m, root, jx, l) == Some(u)
      ensures (l == 1 && u == t && jx == ix) || Word(m', u, IxAt(jx, l)) == Word(m, u, IxAt(jx, l))
    {
      PathInShape(m, s, root, jx, l);
      StoreWord(m, t, ix.i1, e, u, IxAt(jx, l));
      if u == t && IxAt(jx, l) == ix.i1 {
        PathDetermined(m, s, root, ix, jx, 1);
        assert IxAt(ix, 2) == IxAt(jx, 2) && IxAt(ix, 3) == IxAt(jx, 3) && IxAt(ix, 4) == IxAt(jx, 4);
      }
    }
    if jx == ix {
      assert TableAt(m', root, ix, 4) == TableAt(m, root, ix, 4);
      assert TableAt(m', root, ix, 3) == TableAt(m, root, ix, 3);
      assert TableAt(m', root, ix, 2) == TableAt(m, root, ix, 2);
      assert TableAt(m', root, ix, 1) == TableAt(m, root, ix, 1);
      StoreWord(m, t, ix.i1, e, t, ix.i1);
      WalkByLevel(m, root, ix);
      WalkByLevel(m', root, ix);
    } else {
      SameReads(m, m', root, jx);
    }
  }

  lemma SetLeafLinked(m: Mem, s: Shape, root: nat, t: nat, i: nat, e: u64)
    requires Linked(m, s, root) && t in s && s[t].level == 1 && i < 512
    ensures t in m && |m[t]| == 512
    ensures Linked(Store(m, t, i, e), s, root)
  {
    hide Present, Huge, EntryAddr, LinkFlags, Sealed, Word;
    assert NodeOk(m, s, root, t);
    var m' := Store(m, t, i, e);
    forall u | u in s ensures NodeOk(m', s, root, u) {
      assert NodeOk(m, s, root, u);
    }
    forall u, j: nat | u in s && j < 512 ensures LinkOk(m', s, root, u, j) {
      StoreWord(m, t, i, e, u, j);
      assert LinkOk(m, s, root, u, j);
      var d := EntryAddr(Word(m, u, j));
      if d in s && s[d].level == 2 && Sealed(m, d) {
        StoreSealed(m, t, i, e, d);
      }
    }
  }

  lemma StoreSealed(m: Mem, t: nat, i: nat, e: u64, d: nat)
    requires t in m && i < |m[t]| && d != t && Sealed(m, d)
    ensures Sealed(Store(m, t, i, e), d)
  {
    hide Present, Huge, Word, Store;
    forall j: nat | j < 512 ensures Word(Store(m, t, i, e), d, j) == Word(m, d, j) {
      StoreWord(m, t, i, e, d, j);
    }
  }

  /** Memory outside the tables is not part of the address space. */
  lemma OutsideWrite(m: Mem, m': Mem, s: Shape, root: nat)
    requires Linked(m, s, root)
    requires forall t | t in s :: t in m' && t in m && m'[t] == m[t]
    ensures Linked(m', s, root)
    ensures forall ix | ValidIx(ix) :: WalkFrom(m', root, ix) == WalkFrom(m, root, ix)
  {
    hide Present, Huge, EntryAddr, LinkFlags, WalkFrom;
    forall u | u in s ensures NodeOk(m', s, root, u) {
      assert NodeOk(m, s, root, u);
    }
    forall u, j: nat | u in s && j < 512 ensures LinkOk(m', s, root, u, j) {
      assert LinkOk(m, s, root, u, j);
      assert forall d, k: nat | d in s :: Word(m', d, k) == Word(m, d, k);
    }
    forall ix | ValidIx(ix) ensures WalkFrom(m', root, ix) == WalkFrom(m, root, ix) {
      forall l: nat | 1 <= l <= 4 && TableAt(m, root, ix, l).Some?
        ensures var t := TableAt(m, root, ix, l).value; Word(m', t, IxAt(ix, l)) == Word(m, t, IxAt(ix, l))
      {
        PathInShape(m, s, root, ix, l);
      }
      SameReads(m, m', root, ix);
    }
  }
}
