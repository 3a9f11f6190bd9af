/**
 The write-xor-execute audit: four nested loops over a hierarchy that may share tables and hold
 1 GiB, 2 MiB and 4 KiB leaves. The count is the exact number of offending leaves, path by path.
 */
module Audit {
  import opened Bits
  import opened Wrappers
  import opened Paging
  import opened PageTable
  import opened AddressSpace

  /** Every table a walk can reach is in memory. */
  ghost predicate Readable(m: Mem, root: nat) {
    forall ix, level: nat | ValidIx(ix) && 1 <= level <= 4 && TableAt(m, root, ix, level).Some? ::
      var t := TableAt(m, root, ix, level).value; t in m && |m[t]| == 512
  }

  lemma LinkedIsReadable(m: Mem, s: Shape, root: nat)
    requires Linked(m, s, root)
    ensures Readable(m, root)
  {
    hide TableAt, LinkOk;
    forall ix, level: nat | ValidIx(ix) && 1 <= level <= 4 && TableAt(m, root, ix, level).Some?
      ensures var t := TableAt(m, root, ix, level).value; t in m && |m[t]| == 512
    {
      PathInShape(m, s, root, ix, level);
      LinkedNode(m, s, root, TableAt(m, root, ix, level).value);
    }
  }

  /** `is_wx`: on a CPU without NX the question is not asked. */
  predicate IsWx(nx: bool, e: u64) {
    Writable(e) && (if nx then !NoExecute(e) else false)
  }

  /** `ix` is the first path of a leaf that is both writable and executable. */
  ghost predicate WxLeaf(m: Mem, root: nat, nx: bool, ix: Ix) {
    var w := WalkFrom(m, root, ix);
    && ValidIx(ix) && w.Leaf? && IsWx(nx, w.entry)
    && (w.span == HUGE_PAGE_SIZE ==> ix.i2 == 0)
    && (w.span != PAGE_SIZE ==> ix.i1 == 0)
  }

  /** The offending leaves, one index path each. */
  ghost function WxLeaves(m: Mem, root: nat, nx: bool): set<Ix> {
    set a: nat, b: nat, c: nat, d: nat
      | a < 512 && b < 512 && c < 512 && d < 512 && WxLeaf(m, root, nx, Ix(a, b, c, d)) :: Ix(a, b, c, d)
  }

  lemma WxLeavesMembers(m: Mem, root: nat, nx: bool, ix: Ix)
    ensures ix in WxLeaves(m, root, nx) <==> WxLeaf(m, root, nx, ix)
  {
    assert ix == Ix(ix.i4, ix.i3, ix.i2, ix.i1);
  }

  /** The first path of the leaf that `ix` leads to. */
  function LeafStart(w: Walk, ix: Ix): Ix {
    if !w.Leaf? || w.span == PAGE_SIZE then ix
    else if w.span == HUGE_PAGE_SIZE then Ix(ix.i4, ix.i3, 0, 0) else Ix(ix.i4, ix.i3, ix.i2, 0)
  }

  lemma SameLeaf(m: Mem, root: nat, ix: Ix)
    requires ValidIx(ix)
    ensures WalkFrom(m, root, LeafStart(WalkFrom(m, root, ix), ix)) == WalkFrom(m, root, ix)
  {
    hide Present, Huge, EntryAddr, Word;
  }

  /** With NX available, the audit finds nothing exactly when no page is both writable and executable. */
  lemma NoLeavesIsNoWx(m: Mem, root: nat)
    ensures WxLeaves(m, root, true) == {} <==> NoWx(m, root)
  {
    hide WalkFrom;
    if NoWx(m, root) {
      if ix :| ix in WxLeaves(m, root, true) {
        WxLeavesMembers(m, root, true, ix);
      }
    }
    if WxLeaves(m, root, true) == {} {
      forall ix | ValidIx(ix) && WalkFrom(m, root, ix).Leaf? ensures !WxEntry(WalkFrom(m, root, ix).entry) {
        SameLeaf(m, root, ix);
        WxLeavesMembers(m, root, true, LeafStart(WalkFrom(m, root, ix), ix));
      }
    }
  }

  /** Without NX every page is executable, and the audit reports nothing. */
  lemma NoLeavesWithoutNx(m: Mem, root: nat)
    ensures WxLeaves(m, root, false) == {}
  {
    if ix :| ix in WxLeaves(m, root, false) {
      WxLeavesMembers(m, root, false, ix);
    }
  }

  // Walks below a known table.

  lemma Below4(m: Mem, root: nat, ix: Ix)
    ensures var e := Word(m, root, ix.i4);
            if Present(e) then TableAt(m, root, ix, 3) == Some(EntryAddr(e)) else WalkFrom(m, root, ix) == Absent
  {
    hide Huge, EntryAddr, Word;
    assert TableAt(m, root, ix, 4) == Some(root);
  }

  lemma Below3(m: Mem, root: nat, ix: Ix, t: nat)
    requires TableAt(m, root, ix, 3) == Some(t)
    ensures var e := Word(m, t, ix.i3);
            if !Present(e) then WalkFrom(m, root, ix) == Absent
            else if Huge(e) then WalkFrom(m, root, ix) == Leaf(HUGE_PAGE_SIZE, e)
            else TableAt(m, root, ix, 2) == Some(EntryAddr(e))
  {
    hide Present, Huge, EntryAddr, Word;
    assert TableAt(m, root, ix, 4) == Some(root);
  }

  lemma Below2(m: Mem, root: nat, ix: Ix, t: nat)
    requires TableAt(m, root, ix, 2) == Some(t)
    ensures var e := Word(m, t, ix.i2);
            if !Present(e) then WalkFrom(m, root, ix) == Absent
            else if Huge(e) then WalkFrom(m, root, ix) == Leaf(LARGE_PAGE_SIZE, e)
            else TableAt(m, root, ix, 1) == Some(EntryAddr(e))
  {
    hide Present, Huge, EntryAddr, Word, WalkFrom;
    WalkByLevel(m, root, ix);
    NothingAtZero();
    assert TableAt(m, root, ix, 3).Some?;
  }

  lemma Below1(m: Mem, root: nat, ix: Ix, t: nat)
    requires TableAt(m, root, ix, 1) == Some(t)
    ensures var e := Word(m, t, ix.i1);
            WalkFrom(m, root, ix) == if Present(e) then Leaf(PAGE_SIZE, e) else Absent
  {
    hide Present, Huge, EntryAddr, Word, WalkFrom;
    WalkByLevel(m, root, ix);
    assert TableAt(m, root, ix, 2).Some?;
  }

  /** The table at a level depends only on the indices above it. */
  lemma SamePrefix(m: Mem, root: nat, ix: Ix, jx: Ix, level: nat)
    requires 1 <= level <= 3
    requires ix.i4 == jx.i4 && (level <= 2 ==> ix.i3 == jx.i3) && (level <= 1 ==> ix.i2 == jx.i2)
    ensures TableAt(m, root, ix, level) == TableAt(m, root, jx, level)
  {
    hide Present, Huge, EntryAddr, Word, IsLink;
    assert TableAt(m, root, ix, 4) == TableAt(m, root, jx, 4);
    assert TableAt(m, root, ix, 3) == TableAt(m, root, jx, 3);
    assert level <= 2 ==> TableAt(m, root, ix, 2) == TableAt(m, root, jx, 2);
  }

  ghost predicate Found1(m: Mem, root: nat, nx: bool, p: Ix, k: nat, found: set<Ix>) {
    forall ix: Ix :: ix in found <==> WxLeaf(m, root, nx, ix) && ix.i4 == p.i4 && ix.i3 == p.i3 && ix.i2 == p.i2 && ix.i1 < k
  }

  ghost predicate Found2(m: Mem, root: nat, nx: bool, p: Ix, k: nat, found: set<Ix>) {
    forall ix: Ix :: ix in found <==> WxLeaf(m, root, nx, ix) && ix.i4 == p.i4 && ix.i3 == p.i3 && ix.i2 < k
  }

  ghost predicate Found3(m: Mem, root: nat, nx: bool, p: Ix, k: nat, found: set<Ix>) {
    forall ix: Ix :: ix in found <==> WxLeaf(m, root, nx, ix) && ix.i4 == p.i4 && ix.i3 < k
  }

  ghost predicate Found4(m: Mem, root: nat, nx: bool, k: nat, found: set<Ix>) {
    forall ix: Ix :: ix in found <==> WxLeaf(m, root, nx, ix) && ix.i4 < k
  }

  /** The innermost loop, over a last-level table. */
  method ScanTable(m: Mem, root: nat, nx: bool, pt: nat, ghost p: Ix) returns (n: nat, ghost found: set<Ix>)
    requires Readable(m, root) && ValidIx(p) && TableAt(m, root, p, 1) == Some(pt)
    ensures n == |found| && Found1(m, root, nx, p, 512, found)
  {
    hide WalkFrom, TableAt, Present, IsWx, Found1;
    n, found := 0, {};
    var i := 0;
    EmptyFound(m, root, nx, p);
    while i < 512
      invariant 0 <= i <= 512 && n == |found| && Found1(m, root, nx, p, i, found)
    {
      ghost var ix := Ix(p.i4, p.i3, p.i2, i);
      var e := m[pt][i];
      Step1(m, root, nx, ix, p, pt, e, found);
      if Present(e) && IsWx(nx, e) {
        n, found := n + 1, found + {ix};
      }
      i := i + 1;
    }
  }

  lemma EmptyFound(m: Mem, root: nat, nx: bool, p: Ix)
    ensures Found1(m, root, nx, p, 0, {}) && Found2(m, root, nx, p, 0, {}) && Found3(m, root, nx, p, 0, {}) && Found4(m, root, nx, 0, {})
  {
    hide WxLeaf;
  }

  lemma Step1(m: Mem, root: nat, nx: bool, ix: Ix, p: Ix, pt: nat, e: u64, found: set<Ix>)
    requires TableAt(m, root, p, 1) == Some(pt) && ValidIx(ix) && ix.i4 == p.i4 && ix.i3 == p.i3 && ix.i2 == p.i2
    requires pt in m && ix.i1 < |m[pt]| && e == m[pt][ix.i1] && Found1(m, root, nx, p, ix.i1, found)
    ensures ix !in found
    ensures Found1(m, root, nx, p, ix.i1 + 1, if Present(e) && IsWx(nx, e) then found + {ix} else found)
  {
    hide WalkFrom, TableAt, Present, IsWx;
    SamePrefix(m, root, ix, p, 1);
    Below1(m, root, ix, pt);
    assert WxLeaf(m, root, nx, ix) <==> Present(e) && IsWx(nx, e);
  }

  /** The loop over a page directory. */
  method ScanDirectory(m: Mem, root: nat, nx: bool, pd: nat, ghost p: Ix) returns (n: nat, ghost found: set<Ix>)
    requires Readable(m, root) && ValidIx(p) && TableAt(m, root, p, 2) == Some(pd)
    ensures n == |found| && Found2(m, root, nx, p, 512, found)
  {
    hide WalkFrom, TableAt, Present, Huge, EntryAddr, IsWx, Found1, Found2;
    n, found := 0, {};
    var i := 0;
    EmptyFound(m, root, nx, p);
    while i < 512
      invariant 0 <= i <= 512 && n == |found| && Found2(m, root, nx, p, i, found)
    {
      ghost var ix := Ix(p.i4, p.i3, i, 0);
      var e := m[pd][i];
      Step2(m, root, nx, ix, p, pd, e, found);
      if Present(e) {
        if Huge(e) {
          if IsWx(nx, e) {
            n, found := n + 1, found + {ix};
          }
        } else {
          var k, more := ScanTable(m, root, nx, EntryAddr(e), ix);
          Add2(m, root, nx, p, ix, found, more);
          n, found := n + k, found + more;
        }
      }
      i := i + 1;
    }
  }

  lemma Step2(m: Mem, root: nat, nx: bool, ix: Ix, p: Ix, pd: nat, e: u64, found: set<Ix>)
    requires TableAt(m, root, p, 2) == Some(pd) && ValidIx(ix) && ix.i4 == p.i4 && ix.i3 == p.i3 && ix.i1 == 0
    requires pd in m && ix.i2 < |m[pd]| && e == m[pd][ix.i2] && Found2(m, root, nx, p, ix.i2, found)
    ensures ix !in found
    ensures !Present(e) ==> Found2(m, root, nx, p, ix.i2 + 1, found)
    ensures Present(e) && Huge(e) ==>
              Found2(m, root, nx, p, ix.i2 + 1, if IsWx(nx, e) then found + {ix} else found)
    ensures Present(e) && !Huge(e) ==> TableAt(m, root, ix, 1) == Some(EntryAddr(e))
  {
    hide WalkFrom, TableAt, Present, Huge, EntryAddr, IsWx;
    SamePrefix(m, root, ix, p, 2);
    Below2(m, root, ix, pd);
    forall jx: Ix | jx.i4 == p.i4 && jx.i3 == p.i3 && jx.i2 == ix.i2
      ensures !Present(e) ==> !WxLeaf(m, root, nx, jx)
      ensures Present(e) && Huge(e) ==> (WxLeaf(m, root, nx, jx) <==> jx == ix && IsWx(nx, e))
    {
      SamePrefix(m, root, jx, p, 2);
      Below2(m, root, jx, pd);
    }
  }

  lemma Add2(m: Mem, root: nat, nx: bool, p: Ix, ix: Ix, found: set<Ix>, more: set<Ix>)
    requires Found2(m, root, nx, p, ix.i2, found) && Found1(m, root, nx, ix, 512, more) && ix.i4 == p.i4 && ix.i3 == p.i3
    ensures Found2(m, root, nx, p, ix.i2 + 1, found + more) && |found + more| == |found| + |more|
  {
    hide WalkFrom, IsWx;
    assert found !! more;
  }

  /** The loop over a PDPT. */
  method ScanPdpt(m: Mem, root: nat, nx: bool, pdpt: nat, ghost p: Ix) returns (n: nat, ghost found: set<Ix>)
    requires Readable(m, root) && ValidIx(p) && TableAt(m, root, p, 3) == Some(pdpt)
    ensures n == |found| && Found3(m, root, nx, p, 512, found)
  {
    hide WalkFrom, TableAt, Present, Huge, EntryAddr, IsWx, Found2, Found3;
    n, found := 0, {};
    var i := 0;
    EmptyFound(m, root, nx, p);
    while i < 512
      invariant 0 <= i <= 512 && n == |found| && Found3(m, root, nx, p, i, found)
    {
      ghost var ix := Ix(p.i4, i, 0, 0);
      var e := m[pdpt][i];
      Step3(m, root, nx, ix, p, pdpt, e, found);
      if Present(e) {
        if Huge(e) {
          if IsWx(nx, e) {
            n, found := n + 1, found + {ix};
          }
        } else {
          var k, more := ScanDirectory(m, root, nx, EntryAddr(e), ix);
          Add3(m, root, nx, p, ix, found, more);
          n, found := n + k, found + more;
        }
      }
      i := i + 1;
    }
  }

  lemma Step3(m: Mem, root: nat, nx: bool, ix: Ix, p: Ix, pdpt: nat, e: u64, found: set<Ix>)
    requires TableAt(m, root, p, 3) == Some(pdpt) && ValidIx(ix) && ix.i4 == p.i4 && ix.i2 == 0 && ix.i1 == 0
    requires pdpt in m && ix.i3 < |m[pdpt]| && e == m[pdpt][ix.i3] && Found3(m, root, nx, p, ix.i3, found)
    ensures ix !in found
    ensures !Present(e) ==> Found3(m, root, nx, p, ix.i3 + 1, found)
    ensures Present(e) && Huge(e) ==>
              Found3(m, root, nx, p, ix.i3 + 1, if IsWx(nx, e) then found + {ix} else found)
    ensures Present(e) && !Huge(e) ==> TableAt(m, root, ix, 2) == Some(EntryAddr(e))
  {
    hide WalkFrom, TableAt, Present, Huge, EntryAddr, IsWx;
    SamePrefix(m, root, ix, p, 3);
    Below3(m, root, ix, pdpt);
    forall jx: Ix | jx.i4 == p.i4 && jx.i3 == ix.i3
      ensures !Present(e) ==> !WxLeaf(m, root, nx, jx)
      ensures Present(e) && Huge(e) ==> (WxLeaf(m, root, nx, jx) <==> jx == ix && IsWx(nx, e))
    {
      SamePrefix(m, root, jx, p, 3);
      Below3(m, root, jx, pdpt);
    }
  }

  lemma Add3(m: Mem, root: nat, nx: bool, p: Ix, ix: Ix, found: set<Ix>, more: set<Ix>)
    requires Found3(m, root, nx, p, ix.i3, found) && Found2(m, root, nx, ix, 512, more) && ix.i4 == p.i4
    ensures Found3(m, root, nx, p, ix.i3 + 1, found + more) && |found + more| == |found| + |more|
  {
    hide WalkFrom, IsWx;
    assert found !! more;
  }

  /** `count_wx_violations` on the hierarchy at `root`. */
  method CountWxViolations(m: Mem, root: nat, nx: bool) returns (n: nat)
    requires root != 0 ==> Readable(m, root)
    ensures n == if root != 0 then |WxLeaves(m, root, nx)| else 0
  {
    hide WalkFrom, TableAt, Present, Huge, EntryAddr, IsWx, Found3, Found4;
    if root == 0 {
      return 0;
    }
    ghost var found: set<Ix> := {};
    n := 0;
    var i := 0;
    EmptyFound(m, root, nx, Ix(0, 0, 0, 0));
    RootReadable(m, root);
    while i < 512
      invariant 0 <= i <= 512 && n == |found| && Found4(m, root, nx, i, found)
    {
      ghost var ix := Ix(i, 0, 0, 0);
      var e := m[root][i];
      Step4(m, root, nx, ix, e, found);
      if Present(e) {
        var k, more := ScanPdpt(m, root, nx, EntryAddr(e), ix);
        Add4(m, root, nx, ix, found, more);
        n, found := n + k, found + more;
      }
      i := i + 1;
    }
    AllFound(m, root, nx, found);
  }

  lemma RootReadable(m: Mem, root: nat)
    requires Readable(m, root)
    ensures root in m && |m[root]| == 512
  {
    assert TableAt(m, root, Ix(0, 0, 0, 0), 4) == Some(root);
  }

  lemma Step4(m: Mem, root: nat, nx: bool, ix: Ix, e: u64, found: set<Ix>)
    requires root in m && ix.i4 < |m[root]| && e == m[root][ix.i4] && Found4(m, root, nx, ix.i4, found)
    ensures !Present(e) ==> Found4(m, root, nx, ix.i4 + 1, found)
    ensures Present(e) ==> TableAt(m, root, ix, 3) == Some(EntryAddr(e))
  {
    hide WalkFrom, TableAt, Present, Huge, EntryAddr, IsWx;
    Below4(m, root, ix);
    forall jx: Ix | jx.i4 == ix.i4 ensures !Present(e) ==> !WxLeaf(m, root, nx, jx) {
      Below4(m, root, jx);
    }
  }

  lemma Add4(m: Mem, root: nat, nx: bool, ix: Ix, found: set<Ix>, more: set<Ix>)
    requires Found4(m, root, nx, ix.i4, found) && Found3(m, root, nx, ix, 512, more)
    ensures Found4(m, root, nx, ix.i4 + 1, found + more) && |found + more| == |found| + |more|
  {
    hide WalkFrom, IsWx;
    assert found !! more;
  }

  lemma AllFound(m: Mem, root: nat, nx: bool, found: set<Ix>)
    requires Found4(m, root, nx, 512, found)
    ensures found == WxLeaves(m, root, nx)
  {
    hide WalkFrom, IsWx;
    forall ix ensures ix in found <==> ix in WxLeaves(m, root, nx) {
      WxLeavesMembers(m, root, nx, ix);
    }
  }
}
