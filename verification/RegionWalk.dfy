/** Reporting the mapped regions of the guest (walk_memory_regions in exec.c).

    A region is a maximal run of pages with the same nonzero flags.  The walk over the tree is related to a
    walk over the flat map of page flags; what that reports is then characterised on its own. */
module RegionWalk {
  import opened Common
  import opened Words
  import opened PageTable

  datatype Region = Region(start: nat, end: nat, prot: nat)

  /** The state of a walk: where the run being collected began, its flags, the regions reported so far, and
      the last result of the callback, which stops the walk unless it is zero. */
  datatype Walk = Walk(start: Option<nat>, prot: nat, log: seq<Region>, rc: int)

  const BEGIN := Walk(None, 0, [], 0)

  /** The callback's result may depend on everything reported so far, the region it is called for last. */
  type Callback = seq<Region> -> int

  /** Ends the run being collected, if any, and begins a new one unless the new flags are zero. */
  function End(w: Walk, end: nat, newProt: nat, fn: Callback): Walk {
    var log := if w.start.Some? then w.log + [Region(w.start.value, end, w.prot)] else w.log;
    if w.start.Some? && fn(log) != 0 then Walk(w.start, w.prot, log, fn(log))
    else Walk(if newProt != 0 then Some(end) else None, newProt, log, 0)
  }

  /** One page of the walk over a flat map. */
  function Step(w: Walk, address: nat, flags: nat, fn: Callback): Walk {
    if w.rc == 0 && flags != w.prot then End(w, address, flags, fn) else w
  }

  /** The walk over the pages from lo to hi of a flat map, taking at[p] for the address of page p. */
  function Fold(w: Walk, flat: seq<nat>, at: seq<nat>, lo: nat, hi: nat, fn: Callback): Walk
    requires lo <= hi <= |flat| == |at|
    decreases hi
  {
    if lo == hi then w else Step(Fold(w, flat, at, lo, hi - 1, fn), at[hi - 1], flat[hi - 1], fn)
  }

  /** No run is being collected exactly if the current flags are zero. */
  predicate Sane(w: Walk) {
    w.rc == 0 ==> (w.start == None <==> w.prot == 0)
  }

  lemma {:induction false} FoldSplit(w: Walk, flat: seq<nat>, at: seq<nat>, lo: nat, mid: nat, hi: nat, fn: Callback)
    requires lo <= mid <= hi <= |flat| == |at|
    ensures Fold(w, flat, at, lo, hi, fn) == Fold(Fold(w, flat, at, lo, mid, fn), flat, at, mid, hi, fn)
    decreases hi
  {
    if mid < hi { FoldSplit(w, flat, at, lo, mid, hi - 1, fn); }
  }

  lemma {:induction false} FoldSane(w: Walk, flat: seq<nat>, at: seq<nat>, lo: nat, hi: nat, fn: Callback)
    requires lo <= hi <= |flat| == |at| && Sane(w)
    ensures Sane(Fold(w, flat, at, lo, hi, fn))
    decreases hi
  {
    if lo < hi { FoldSane(w, flat, at, lo, hi - 1, fn); }
  }

  /** A stretch of pages without flags, such as a missing subtree, merely ends the current run. */
  lemma {:induction false} FoldZeros(w: Walk, flat: seq<nat>, at: seq<nat>, lo: nat, hi: nat, fn: Callback)
    requires lo < hi <= |flat| == |at| && Sane(w) && w.rc == 0 && forall p :: lo <= p < hi ==> flat[p] == 0
    ensures Fold(w, flat, at, lo, hi, fn) == End(w, at[lo], 0, fn)
    decreases hi
  {
    if lo + 1 < hi { FoldZeros(w, flat, at, lo, hi - 1, fn); }
    assert lo + 1 == hi ==> Fold(w, flat, at, lo, hi - 1, fn) == w;
  }

  /** Nothing happens once the callback has stopped the walk. */
  lemma {:induction false} FoldStopped(w: Walk, flat: seq<nat>, at: seq<nat>, lo: nat, hi: nat, fn: Callback)
    requires lo <= hi <= |flat| == |at| && w.rc != 0
    ensures Fold(w, flat, at, lo, hi, fn) == w
    decreases hi
  {
    if lo < hi { FoldStopped(w, flat, at, lo, hi - 1, fn); }
  }

  // ----- What is reported -----

  /** The first page of a region, and the page after its last one.  What follows the last page of the address space
      is written as the address 0. */
  function First(r: Region): nat { r.start / PAGE_SIZE }

  function Past(r: Region, pages: nat): nat { if r.end == 0 then pages else r.end / PAGE_SIZE }

  function PageAddress(page: nat, pages: nat): nat { if page == pages then 0 else page * PAGE_SIZE }

  lemma PageAddressPages(s: nat, e: nat, prot: nat, pages: nat)
    requires s < pages && 0 < e <= pages
    ensures First(Region(PageAddress(s, pages), PageAddress(e, pages), prot)) == s
    ensures Past(Region(PageAddress(s, pages), PageAddress(e, pages), prot), pages) == e
  {
    PageNumber(s);
    PageNumber(e);
  }

  /** The pages from s to e have the same nonzero flags, and neither neighbour below hi has them too. */
  ghost predicate MaximalRun(flat: seq<nat>, hi: nat, s: nat, e: nat, prot: nat)
    requires hi <= |flat|
  {
    && s < e <= hi && prot != 0
    && (forall p :: s <= p < e ==> flat[p] == prot)
    && (s > 0 ==> flat[s - 1] != prot)
    && (e < hi ==> flat[e] != prot)
  }

  ghost predicate RunReported(flat: seq<nat>, hi: nat, r: Region)
    requires hi <= |flat|
  {
    && r == Region(PageAddress(First(r), |flat|), PageAddress(Past(r, |flat|), |flat|), r.prot)
    && MaximalRun(flat, hi, First(r), Past(r, |flat|), r.prot)
  }

  ghost predicate InSome(log: seq<Region>, pages: nat, p: nat) {
    exists i :: 0 <= i < |log| && First(log[i]) <= p < Past(log[i], pages)
  }

  /** The regions are maximal runs, in increasing order, and cover every page with flags below "upTo". */
  ghost predicate RunsUpTo(log: seq<Region>, flat: seq<nat>, hi: nat, upTo: nat)
    requires upTo <= hi <= |flat|
  {
    && (forall i :: 0 <= i < |log| ==> RunReported(flat, hi, log[i]) && Past(log[i], |flat|) <= upTo)
    && (forall i, j :: 0 <= i < j < |log| ==> Past(log[i], |flat|) <= First(log[j]))
    && (forall p :: 0 <= p < upTo && flat[p] != 0 ==> InSome(log, |flat|, p))
  }

  ghost predicate ExactlyTheRuns(log: seq<Region>, flat: seq<nat>) {
    RunsUpTo(log, flat, |flat|, |flat|)
  }

  lemma RunsExtend(log: seq<Region>, flat: seq<nat>, hi: nat, upTo: nat)
    requires upTo <= hi < |flat| && RunsUpTo(log, flat, hi, upTo)
    requires upTo == hi ==> forall i :: 0 <= i < |log| ==> Past(log[i], |flat|) == hi ==> flat[hi] != log[i].prot
    ensures RunsUpTo(log, flat, hi + 1, upTo)
  {
  }

  lemma RunsSkip(log: seq<Region>, flat: seq<nat>, hi: nat, upTo: nat)
    requires upTo < hi <= |flat| && RunsUpTo(log, flat, hi, upTo) && flat[upTo] == 0
    ensures RunsUpTo(log, flat, hi, upTo + 1)
  {
  }

  lemma RunsAppend(log: seq<Region>, flat: seq<nat>, hi: nat, r: Region)
    requires hi <= |flat| && First(r) <= hi && RunsUpTo(log, flat, hi, First(r)) && RunReported(flat, hi, r)
    ensures RunsUpTo(log + [r], flat, hi, Past(r, |flat|))
  {
    var all := log + [r];
    forall p | 0 <= p < Past(r, |flat|) && flat[p] != 0 ensures InSome(all, |flat|, p) {
      if p < First(r) {
        var i :| 0 <= i < |log| && First(log[i]) <= p < Past(log[i], |flat|);
        assert all[i] == log[i];
      } else {
        assert all[|log|] == r;
      }
    }
  }

  // ----- The walk reports exactly the runs -----

  /** A callback that never stops the walk. */
  function Continue(): Callback {
    log => 0
  }

  /** The whole walk, with the final call for what is still being collected. */
  function Whole(flat: seq<nat>, at: seq<nat>, fn: Callback): Walk
    requires |flat| == |at|
  {
    var w := Fold(BEGIN, flat, at, 0, |flat|, fn);
    if w.rc != 0 then w else End(w, 0, 0, fn)
  }

  /** After hi pages: everything before the run being collected has been reported. */
  ghost predicate Collected(w: Walk, flat: seq<nat>, hi: nat)
    requires hi <= |flat|
  {
    && w.rc == 0
    && match w.start
       case None => w.prot == 0 && RunsUpTo(w.log, flat, hi, hi) && (hi > 0 ==> flat[hi - 1] == 0)
       case Some(a) => var s := a / PAGE_SIZE;
                       && a == PageAddress(s, |flat|) && MaximalRun(flat, hi, s, hi, w.prot)
                       && RunsUpTo(w.log, flat, hi, s)
  }

  ghost predicate TrueAddresses(at: seq<nat>) {
    forall p :: 0 <= p < |at| ==> at[p] == p * PAGE_SIZE
  }

  lemma {:induction false} FoldCollects(flat: seq<nat>, at: seq<nat>, hi: nat)
    requires hi <= |flat| == |at| && TrueAddresses(at)
    ensures Collected(Fold(BEGIN, flat, at, 0, hi, Continue()), flat, hi)
    decreases hi
  {
    if hi > 0 {
      FoldCollects(flat, at, hi - 1);
      StepCollects(Fold(BEGIN, flat, at, 0, hi - 1, Continue()), flat, hi - 1, at[hi - 1]);
    }
  }

  lemma StepCollects(w: Walk, flat: seq<nat>, hi: nat, address: nat)
    requires hi < |flat| && Collected(w, flat, hi) && address == hi * PAGE_SIZE
    ensures Collected(Step(w, address, flat[hi], Continue()), flat, hi + 1)
  {
    if flat[hi] == w.prot {
      SameFlags(w, flat, hi);
    } else {
      var log := EndReports(w, flat, hi, hi + 1);
      NewRun(log, flat, hi);
    }
  }

  /** A page whose flags differ from those before it. */
  lemma NewRun(log: seq<Region>, flat: seq<nat>, hi: nat)
    requires hi < |flat| && RunsUpTo(log, flat, hi + 1, hi) && (hi > 0 ==> flat[hi - 1] != flat[hi])
    ensures Collected(Walk(if flat[hi] != 0 then Some(hi * PAGE_SIZE) else None, flat[hi], log, 0), flat, hi + 1)
  {
    PageNumber(hi);
    if flat[hi] == 0 { RunsSkip(log, flat, hi + 1, hi); }
  }

  lemma SameFlags(w: Walk, flat: seq<nat>, hi: nat)
    requires hi < |flat| && Collected(w, flat, hi) && flat[hi] == w.prot
    ensures Collected(w, flat, hi + 1)
  {
    if w.start.Some? {
      RunsExtend(w.log, flat, hi, w.start.value / PAGE_SIZE);
    } else {
      RunsExtend(w.log, flat, hi, hi);
      RunsSkip(w.log, flat, hi + 1, hi);
    }
  }

  /** The end of a run: it is reported, if there is one. */
  lemma EndReports(w: Walk, flat: seq<nat>, hi: nat, next: nat) returns (log: seq<Region>)
    requires hi <= next <= |flat| && Collected(w, flat, hi)
    requires (next == hi + 1 && flat[hi] != w.prot) || next == hi == |flat|
    ensures log == End(w, PageAddress(hi, |flat|), 0, Continue()).log && RunsUpTo(log, flat, next, hi)
  {
    log := w.log;
    if w.start == None {
      if hi < next { RunsExtend(log, flat, hi, hi); }
    } else {
      var s := w.start.value / PAGE_SIZE;
      var r := Region(PageAddress(s, |flat|), PageAddress(hi, |flat|), w.prot);
      PageAddressPages(s, hi, w.prot, |flat|);
      if hi < next { RunsExtend(log, flat, hi, s); }
      RunsAppend(log, flat, next, r);
      log := log + [r];
    }
  }

  /** With true page addresses the walk reports exactly the maximal runs of equal nonzero flags, in increasing
      order. */
  lemma WholeReportsTheRuns(flat: seq<nat>, at: seq<nat>)
    requires |flat| == |at| && TrueAddresses(at)
    ensures ExactlyTheRuns(Whole(flat, at, Continue()).log, flat)
  {
    FoldCollects(flat, at, |flat|);
    var log := EndReports(Fold(BEGIN, flat, at, 0, |flat|, Continue()), flat, |flat|, |flat|);
  }

  /** That determines what is reported. */
  lemma RunsUnique(log: seq<Region>, other: seq<Region>, flat: seq<nat>)
    requires ExactlyTheRuns(log, flat) && ExactlyTheRuns(other, flat)
    ensures log == other
  {
    RunsPrefix(log, other, flat);
    RunsPrefix(other, log, flat);
  }

  lemma RunsPrefix(log: seq<Region>, other: seq<Region>, flat: seq<nat>)
    requires ExactlyTheRuns(log, flat) && ExactlyTheRuns(other, flat)
    ensures log <= other
  {
    forall i | 0 <= i < |log| ensures i < |other| && other[i] == log[i] {
      SameRun(log, other, flat, i);
    }
    if log != [] { SameRun(log, other, flat, |log| - 1); }
  }

  lemma {:induction false} SameRun(log: seq<Region>, other: seq<Region>, flat: seq<nat>, i: nat)
    requires ExactlyTheRuns(log, flat) && ExactlyTheRuns(other, flat) && i < |log|
    ensures i < |other| && other[i] == log[i]
  {
    var j := SomeRun(log, other, flat, i);
    if j < i {
      SameRun(log, other, flat, j);
    } else if j > i {
      var m := SomeRun(other, log, flat, i);
      InOrder(other, flat, i, j);
      InOrder(log, flat, i, m);
      if m < i { SameRun(log, other, flat, m); }
    }
  }

  /** Reported runs lie in the order of their places. */
  lemma InOrder(log: seq<Region>, flat: seq<nat>, i: nat, j: nat)
    requires ExactlyTheRuns(log, flat) && i < |log| && j < |log|
    ensures i < j ==> First(log[i]) < First(log[j])
    ensures j < i ==> First(log[j]) < First(log[i])
  {
    assert RunReported(flat, |flat|, log[i]) && RunReported(flat, |flat|, log[j]);
  }

  lemma SomeRun(log: seq<Region>, other: seq<Region>, flat: seq<nat>, i: nat) returns (j: nat)
    requires ExactlyTheRuns(log, flat) && ExactlyTheRuns(other, flat) && i < |log|
    ensures j < |other| && other[j] == log[i]
  {
    var r := log[i];
    assert RunReported(flat, |flat|, r);
    assert flat[First(r)] != 0;
    assert InSome(other, |flat|, First(r));
    j :| 0 <= j < |other| && First(other[j]) <= First(r) < Past(other[j], |flat|);
    assert RunReported(flat, |flat|, other[j]);
    SameBounds(flat, First(r), Past(r, |flat|), r.prot, First(other[j]), Past(other[j], |flat|), other[j].prot);
  }

  lemma SameBounds(flat: seq<nat>, s: nat, e: nat, prot: nat, s': nat, e': nat, prot': nat)
    requires MaximalRun(flat, |flat|, s, e, prot) && MaximalRun(flat, |flat|, s', e', prot')
    requires s' <= s < e'
    ensures s == s' && e == e' && prot == prot'
  {
    assert flat[s] == prot == prot';
  }

  // ----- A callback that stops the walk -----

  /** A walk stopped by its callback has reported a part of what is reported otherwise, up to the first region
      for which the callback's result is not zero; a walk that is not stopped is the same. */
  ghost predicate Follows(w: Walk, full: Walk, fn: Callback) {
    && w.log <= full.log
    && (forall k :: 0 < k < |w.log| ==> fn(full.log[..k]) == 0)
    && (if w.rc == 0 then w == full && (w.log != [] ==> fn(w.log) == 0) else w.log != [] && fn(w.log) == w.rc)
  }

  lemma EndFollows(w: Walk, end: nat, newProt: nat, fn: Callback)
    requires Follows(w, w, fn) && w.rc == 0
    ensures Follows(End(w, end, newProt, fn), End(w, end, newProt, Continue()), fn)
  {
    if w.start.Some? {
      var log := w.log + [Region(w.start.value, end, w.prot)];
      forall k | 0 < k < |log| ensures fn(log[..k]) == 0 {
        assert log[..k] == w.log[..k];
        assert k == |w.log| ==> w.log[..k] == w.log;
      }
    }
  }

  lemma {:induction false} FoldFollows(flat: seq<nat>, at: seq<nat>, hi: nat, fn: Callback)
    requires hi <= |flat| == |at|
    ensures Follows(Fold(BEGIN, flat, at, 0, hi, fn), Fold(BEGIN, flat, at, 0, hi, Continue()), fn)
    decreases hi
  {
    if hi > 0 {
      FoldFollows(flat, at, hi - 1, fn);
      var w, full := Fold(BEGIN, flat, at, 0, hi - 1, fn), Fold(BEGIN, flat, at, 0, hi - 1, Continue());
      if w.rc == 0 {
        EndFollows(w, at[hi - 1], flat[hi - 1], fn);
      } else {
        FollowsOn(w, full, Step(full, at[hi - 1], flat[hi - 1], Continue()), fn);
      }
    }
  }

  lemma FollowsOn(w: Walk, full: Walk, more: Walk, fn: Callback)
    requires Follows(w, full, fn) && w.rc != 0 && full.log <= more.log
    ensures Follows(w, more, fn)
  {
    forall k | 0 < k < |w.log| ensures fn(more.log[..k]) == 0 {
      assert more.log[..k] == full.log[..k];
    }
  }

  lemma WholeFollows(flat: seq<nat>, at: seq<nat>, fn: Callback)
    requires |flat| == |at|
    ensures Follows(Whole(flat, at, fn), Whole(flat, at, Continue()), fn)
  {
    FoldFollows(flat, at, |flat|, fn);
    var w, full := Fold(BEGIN, flat, at, 0, |flat|, fn), Fold(BEGIN, flat, at, 0, |flat|, Continue());
    if w.rc == 0 {
      EndFollows(w, 0, 0, fn);
    } else {
      FollowsOn(w, full, Whole(flat, at, Continue()), fn);
    }
  }

  // ----- The walk over the tree -----

  /** The first page of the subtree for a prefix; the node for it is at the level below "level". */
  function Begin(prefix: nat, level: nat): nat
    decreases level, prefix
  {
    if level == 0 then prefix else Begin(prefix * L2_SIZE, level - 1)
  }

  lemma {:induction false} BeginOrder(a: nat, b: nat, level: nat)
    requires a < b
    ensures Begin(a, level) < Begin(b, level)
    decreases level
  {
    if level > 0 { BeginOrder(a * L2_SIZE, b * L2_SIZE, level - 1); }
  }

  lemma {:induction false} UpBetween(p: nat, a: nat, b: nat, level: nat)
    requires Begin(a, level) <= p < Begin(b, level)
    ensures a <= Up(p, level) < b
    decreases level
  {
    if level > 0 {
      UpBetween(p, a * L2_SIZE, b * L2_SIZE, level - 1);
      UpStep(p, level - 1);
    }
  }

  /** The base address of child i of a node. */
  function ChildBase(base: nat, i: nat, level: nat): nat {
    Or(base, Shl(i, 12 + 10 * level))
  }

  /** The addresses that a walk of the subtree for a prefix shows for its pages, given its base address. */
  ghost predicate Bases(at: seq<nat>, base: nat, prefix: nat, level: nat)
    decreases level
  {
    && Begin(prefix, level + 1) < Begin(prefix + 1, level + 1) <= |at|
    && at[Begin(prefix, level + 1)] == base
    && if level == 0 then
         (prefix + 1) * L2_SIZE <= |at| && forall j: nat :: j < L2_SIZE ==>
             at[prefix * L2_SIZE + j] == ChildBase(base, j, 0)
       else forall i: nat :: i < L2_SIZE ==> Bases(at, ChildBase(base, i, level), prefix * L2_SIZE + i, level - 1)
  }

  /** The flat map of the page flags in the tree. */
  ghost predicate Shows(tree: PageMap, flat: seq<nat>)
    requires tree.Sound()
    reads tree, tree.repr
  {
    forall p: nat :: p < |flat| ==> flat[p] == tree.Flags(p)
  }

  /** The state that the walk updates. */
  class WalkData {
    const fn: Callback
    var start: int
    var prot: nat
    var log: seq<Region>

    constructor (fn: Callback)
      ensures this.fn == fn && Value(0) == BEGIN
    {
      this.fn := fn;
      start, prot, log := -1, 0, [];
    }

    function Value(rc: int): Walk
      reads this
    {
      Walk(if start >= 0 then Some(start) else None, prot, log, rc)
    }

    method WalkEnd(end: nat, newProt: nat) returns (rc: int)
      modifies this
      ensures Value(rc) == End(old(Value(0)), end, newProt, fn)
    {
      if start >= 0 {
        log := log + [Region(start, end, prot)];
        rc := fn(log);
        if rc != 0 {
          return rc;
        }
      }
      start := if newProt != 0 then end else -1;
      prot := newProt;
      rc := 0;
    }

    /** Walking a leaf is walking its pages. */
    method WalkLeaf(flags: seq<nat>, base: nat, ghost flat: seq<nat>, ghost at: seq<nat>, ghost prefix: nat)
      returns (rc: int)
      requires |flat| == |at| && |flags| == L2_SIZE && Bases(at, base, prefix, 0)
      requires forall i: nat :: i < L2_SIZE ==> flags[i] == flat[prefix * L2_SIZE + i]
      modifies this
      ensures Value(rc) == Fold(old(Value(0)), flat, at, prefix * L2_SIZE, (prefix + 1) * L2_SIZE, fn)
    {
      ghost var lo, hi := prefix * L2_SIZE, (prefix + 1) * L2_SIZE;
      rc := 0;
      var i := 0;
      while i < L2_SIZE
        invariant 0 <= i <= L2_SIZE && rc == 0
        invariant Value(0) == Fold(old(Value(0)), flat, at, lo, lo + i, fn)
      {
        if flags[i] != prot {
          rc := WalkEnd(ChildBase(base, i, 0), flags[i]);
          if rc != 0 {
            FoldSplit(old(Value(0)), flat, at, lo, lo + i + 1, hi, fn);
            FoldStopped(Value(rc), flat, at, lo + i + 1, hi, fn);
            return rc;
          }
        }
        i := i + 1;
      }
    }

    /** Walking a subtree is walking its pages, from lo to hi, in the flat map. */
    method WalkSubtree(tree: PageMap, ptr: Node?, base: nat, level: nat,
                       ghost flat: seq<nat>, ghost at: seq<nat>, ghost prefix: nat, ghost lo: nat, ghost hi: nat)
      returns (rc: int)
      requires tree.Sound() && level < tree.shift && ptr == tree.Get(tree.PathFor(prefix, level))
      requires |flat| == |at| && Shows(tree, flat) && Span(prefix, level, lo, hi)
      requires Bases(at, base, prefix, level) && Sane(Value(0))
      modifies this
      ensures lo < hi <= |flat| && Value(rc) == Fold(old(Value(0)), flat, at, lo, hi, fn)
      decreases level, 3
    {
      BasesSpan(at, base, prefix, level, lo, hi);
      if ptr == null {
        MissingSubtree(tree, level, flat, prefix, lo, hi);
        FoldZeros(Value(0), flat, at, lo, hi, fn);
        rc := WalkEnd(base, 0);
        return;
      }
      if level == 0 {
        LeafSpan(prefix, lo, hi);
        LeafFlags(tree, flat, prefix, ptr);
        rc := WalkLeaf(ptr.flags, base, flat, at, prefix);
        return;
      }
      rc := WalkKids(tree, ptr, base, level, flat, at, prefix, lo, hi);
    }

    method WalkKid(tree: PageMap, node: Node, base: nat, level: nat, i: nat,
                   ghost flat: seq<nat>, ghost at: seq<nat>, ghost prefix: nat, ghost cur: nat, ghost next: nat)
      returns (rc: int)
      requires tree.Sound() && 0 < level < tree.shift && node == tree.Get(tree.PathFor(prefix, level)) && i < L2_SIZE
      requires |flat| == |at| && Shows(tree, flat) && Span(prefix * L2_SIZE + i, level - 1, cur, next)
      requires Bases(at, base, prefix, level) && Sane(Value(0))
      modifies this
      ensures cur < next <= |flat| && Value(rc) == Fold(old(Value(0)), flat, at, cur, next, fn)
      decreases level, 0
    {
      KidPlace(tree, node, prefix, level, i);
      KidBases(at, base, prefix, level, i);
      rc := WalkSubtree(tree, node.kids[i], ChildBase(base, i, level), level - 1, flat, at, prefix * L2_SIZE + i,
                        cur, next);
    }

    /** One child further in the walk of a node, whose pages lie between lo and hi. */
    method WalkNext(tree: PageMap, node: Node, base: nat, level: nat, i: nat, ghost w: Walk,
                    ghost flat: seq<nat>, ghost at: seq<nat>, ghost prefix: nat, ghost lo: nat, ghost hi: nat,
                    ghost cur: nat)
      returns (rc: int, ghost next: nat)
      requires tree.Sound() && 0 < level < tree.shift && node == tree.Get(tree.PathFor(prefix, level)) && i < L2_SIZE
      requires |flat| == |at| && Shows(tree, flat)
      requires Bases(at, base, prefix, level) && Sane(Value(0)) && Sane(w)
      requires Span(prefix, level, lo, hi) && KidAt(prefix, i, level, cur) && lo <= cur <= hi <= |flat|
      requires Value(0) == Fold(w, flat, at, lo, cur, fn)
      modifies this
      ensures KidAt(prefix, i + 1, level, next) && lo <= next <= hi && Sane(Value(rc))
      ensures i + 1 == L2_SIZE ==> next == hi
      ensures Value(rc) == Fold(w, flat, at, lo, next, fn)
      ensures rc != 0 ==> Value(rc) == Fold(w, flat, at, lo, hi, fn)
      decreases level, 1
    {
      ghost var now := Value(0);
      next := KidSpan(prefix, level, i, lo, hi, cur);
      rc := WalkKid(tree, node, base, level, i, flat, at, prefix, cur, next);
      StepFurther(w, now, Value(rc), flat, at, lo, cur, next, hi, fn);
    }

    method WalkKids(tree: PageMap, node: Node, base: nat, level: nat,
                    ghost flat: seq<nat>, ghost at: seq<nat>, ghost prefix: nat, ghost lo: nat, ghost hi: nat)
      returns (rc: int)
      requires tree.Sound() && 0 < level < tree.shift && node == tree.Get(tree.PathFor(prefix, level))
      requires |flat| == |at| && Shows(tree, flat) && Span(prefix, level, lo, hi) && lo <= hi <= |flat|
      requires Bases(at, base, prefix, level) && Sane(Value(0))
      modifies this
      ensures Value(rc) == Fold(old(Value(0)), flat, at, lo, hi, fn)
      decreases level, 2
    {
      ghost var w, cur: nat := Value(0), lo;
      rc := 0;
      var i := 0;
      FirstKid(prefix, level, lo, hi);
      while i < L2_SIZE
        invariant 0 <= i <= L2_SIZE && rc == 0 && Sane(Value(0))
        invariant KidAt(prefix, i, level, cur) && lo <= cur <= hi && (i == L2_SIZE ==> cur == hi)
        invariant Value(0) == Fold(w, flat, at, lo, cur, fn)
      {
        rc, cur := WalkNext(tree, node, base, level, i, w, flat, at, prefix, lo, hi, cur);
        if rc != 0 {
          return;
        }
        i := i + 1;
      }
    }
  }

  /** The pages of a subtree lie from lo to hi. */
  ghost predicate Span(prefix: nat, level: nat, lo: nat, hi: nat) {
    lo == Begin(prefix, level + 1) && hi == Begin(prefix + 1, level + 1)
  }

  /** The pages of child i of a node begin at "cur". */
  ghost predicate KidAt(prefix: nat, i: nat, level: nat, cur: nat) {
    cur == Begin(prefix * L2_SIZE + i, level)
  }

  lemma FirstKid(prefix: nat, level: nat, lo: nat, hi: nat)
    requires Span(prefix, level, lo, hi)
    ensures KidAt(prefix, 0, level, lo)
  {
  }

  /** The pages of child i lie between those of its neighbours. */
  lemma KidSpan(prefix: nat, level: nat, i: nat, lo: nat, hi: nat, cur: nat) returns (next: nat)
    requires i < L2_SIZE && level > 0 && Span(prefix, level, lo, hi) && KidAt(prefix, i, level, cur)
    ensures KidAt(prefix, i + 1, level, next) && Span(prefix * L2_SIZE + i, level - 1, cur, next)
    ensures lo <= cur < next <= hi && (i + 1 == L2_SIZE ==> next == hi)
  {
    next := Begin(prefix * L2_SIZE + i + 1, level);
    KidOrder(prefix, level, i);
  }

  lemma BasesSpan(at: seq<nat>, base: nat, prefix: nat, level: nat, lo: nat, hi: nat)
    requires Bases(at, base, prefix, level) && Span(prefix, level, lo, hi)
    ensures lo < hi <= |at| && at[lo] == base
  {
  }

  lemma KidBases(at: seq<nat>, base: nat, prefix: nat, level: nat, i: nat)
    requires Bases(at, base, prefix, level) && level > 0 && i < L2_SIZE
    ensures Bases(at, ChildBase(base, i, level), prefix * L2_SIZE + i, level - 1)
  {
  }

  lemma LeafSpan(prefix: nat, lo: nat, hi: nat)
    requires Span(prefix, 0, lo, hi)
    ensures lo == prefix * L2_SIZE && hi == (prefix + 1) * L2_SIZE
  {
    assert Begin(prefix, 1) == Begin(prefix * L2_SIZE, 0) && Begin(prefix + 1, 1) == Begin((prefix + 1) * L2_SIZE, 0);
  }

  lemma StepFurther(w: Walk, now: Walk, next: Walk, flat: seq<nat>, at: seq<nat>, lo: nat, cur: nat, mid: nat,
                    hi: nat, fn: Callback)
    requires lo <= cur <= mid <= hi <= |flat| == |at| && Sane(w)
    requires now == Fold(w, flat, at, lo, cur, fn) && next == Fold(now, flat, at, cur, mid, fn)
    ensures next == Fold(w, flat, at, lo, mid, fn) && Sane(next)
    ensures next.rc != 0 ==> next == Fold(w, flat, at, lo, hi, fn)
  {
    FoldSplit(w, flat, at, lo, cur, mid, fn);
    FoldSane(w, flat, at, lo, mid, fn);
    FoldSplit(w, flat, at, lo, mid, hi, fn);
    if next.rc != 0 { FoldStopped(next, flat, at, mid, hi, fn); }
  }

  /** A missing node stands for pages without flags. */
  lemma MissingSubtree(tree: PageMap, level: nat, flat: seq<nat>, prefix: nat, lo: nat, hi: nat)
    requires tree.Sound() && level < tree.shift && tree.PathFor(prefix, level) !in tree.nodes
    requires Shows(tree, flat) && Span(prefix, level, lo, hi)
    ensures forall p: nat :: p < |flat| && lo <= p < hi ==> flat[p] == 0
  {
    forall p: nat | p < |flat| && lo <= p < hi ensures flat[p] == 0 {
      UpBetween(p, prefix, prefix + 1, level + 1);
      tree.PathOfPrefix(p, level);
      tree.NothingBelow(p, level);
    }
  }

  lemma KidPlace(tree: PageMap, node: Node, prefix: nat, level: nat, i: nat)
    requires tree.Sound() && 0 < level < tree.shift && node == tree.Get(tree.PathFor(prefix, level)) && i < L2_SIZE
    ensures |node.kids| == L2_SIZE && node.kids[i] == tree.Get(tree.PathFor(prefix * L2_SIZE + i, level - 1))
  {
    DivModUnique(prefix * L2_SIZE + i, L2_SIZE, prefix, i);
  }

  /** The pages below the children of a node. */
  lemma KidOrder(prefix: nat, level: nat, i: nat)
    requires i < L2_SIZE
    ensures Begin(prefix, level + 1) == Begin(prefix * L2_SIZE, level)
    ensures Begin(prefix + 1, level + 1) == Begin(prefix * L2_SIZE + L2_SIZE, level)
    ensures Begin(prefix, level + 1) <= Begin(prefix * L2_SIZE + i, level)
    ensures Begin(prefix * L2_SIZE + i, level) < Begin(prefix * L2_SIZE + i + 1, level) <= Begin(prefix + 1, level + 1)
  {
    if i > 0 { BeginOrder(prefix * L2_SIZE, prefix * L2_SIZE + i, level); }
    BeginOrder(prefix * L2_SIZE + i, prefix * L2_SIZE + i + 1, level);
    if i + 1 < L2_SIZE { BeginOrder(prefix * L2_SIZE + i + 1, prefix * L2_SIZE + L2_SIZE, level); }
  }

  lemma LeafFlags(tree: PageMap, flat: seq<nat>, prefix: nat, leaf: Node)
    requires tree.Sound() && leaf == tree.Get(tree.PathFor(prefix, 0)) && (prefix + 1) * L2_SIZE <= |flat|
    requires Shows(tree, flat)
    ensures |leaf.flags| == L2_SIZE && forall i: nat :: i < L2_SIZE ==> leaf.flags[i] == flat[prefix * L2_SIZE + i]
  {
    forall i: nat | i < L2_SIZE ensures leaf.flags[i] == flat[prefix * L2_SIZE + i] {
      var p := prefix * L2_SIZE + i;
      DivModUnique(p, L2_SIZE, prefix, i);
      assert Up(p, 1) == Up(p / L2_SIZE, 0) == prefix;
      tree.PathOfPrefix(p, 0);
    }
  }

  // ----- True base addresses -----

  /** With the address of its first page as the base, the walk of a subtree shows true page addresses. */
  lemma {:induction false} TrueBases(at: seq<nat>, prefix: nat, level: nat)
    requires TrueAddresses(at) && Begin(prefix + 1, level + 1) <= |at|
    ensures Begin(prefix, level + 1) < |at|
    ensures Bases(at, Begin(prefix, level + 1) * PAGE_SIZE, prefix, level)
    decreases level
  {
    BeginOrder(prefix, prefix + 1, level + 1);
    if level == 0 {
      forall j: nat | j < L2_SIZE ensures at[prefix * L2_SIZE + j] == ChildBase(prefix * L2_SIZE * PAGE_SIZE, j, 0) {
        TrueChild(prefix, j, 0);
      }
    } else {
      var base := Begin(prefix, level + 1) * PAGE_SIZE;
      forall i: nat | i < L2_SIZE ensures Bases(at, ChildBase(base, i, level), prefix * L2_SIZE + i, level - 1) {
        KidOrder(prefix, level, i);
        TrueChild(prefix, i, level);
        TrueBases(at, prefix * L2_SIZE + i, level - 1);
      }
    }
  }

  lemma {:induction false} BeginShifts(prefix: nat, level: nat)
    ensures Begin(prefix, level) == Shl(prefix, 10 * level)
    decreases level
  {
    if level > 0 {
      BeginShifts(prefix * L2_SIZE, level - 1);
      ShiftedPlace(prefix);
      ShlAdd(prefix, 10, 10 * (level - 1));
    }
  }

  /** Or-ing the number of a child into the base of its parent gives the address of the child's first page. */
  lemma TrueChild(prefix: nat, i: nat, level: nat)
    requires i < L2_SIZE
    ensures ChildBase(Begin(prefix, level + 1) * PAGE_SIZE, i, level) == Begin(prefix * L2_SIZE + i, level) * PAGE_SIZE
  {
    var m := 12 + 10 * level;
    FirstAddress(prefix, level + 1);
    FirstAddress(prefix * L2_SIZE + i, level);
    ShiftedBelow(i, m, m);
    ShiftedPlace(prefix);
    ShlAdd(prefix, 10, m);
    ShlPlus(prefix * L2_SIZE, i, m);
    OrDisjoint(prefix, Shl(i, m), m + 10);
  }

  lemma ShiftedPlace(prefix: nat)
    ensures Shl(prefix, 10) == prefix * L2_SIZE
  {
    ShlIsProduct(prefix, 10);
    assert Pow2(10) == L2_SIZE;
  }

  lemma FirstAddress(prefix: nat, level: nat)
    ensures Begin(prefix, level) * PAGE_SIZE == Shl(prefix, 12 + 10 * level)
  {
    BeginShifts(prefix, level);
    ShlAdd(prefix, 10 * level, 12);
    assert Shl(Shl(prefix, 10 * level), 12) == Shl(prefix, 10 * level) * PAGE_SIZE by {
      ShlIsProduct(Shl(prefix, 10 * level), 12);
      assert Pow2(12) == PAGE_SIZE;
    }
  }

  // ----- The walk of the whole tree -----

  /** The configuration of the i386 target: one level of leaves below the top. */
  const V_L1_SHIFT := 10

  const TRUE_SHIFT := 22

  /** The address shown for a page if the bases of the leaves are their numbers shifted by "shift". */
  function ShownAddress(p: nat, shift: nat): (r: word32)
    requires p < PAGES && shift <= TRUE_SHIFT
    ensures shift == V_L1_SHIFT ==> r < 0x40_0000
  {
    ShownBelow(p / L2_SIZE, p % L2_SIZE, shift);
    ChildBase(Shl(p / L2_SIZE, shift), p % L2_SIZE, 0)
  }

  lemma ShownBelow(i: nat, j: nat, shift: nat)
    requires i < L2_SIZE && j < L2_SIZE && shift <= TRUE_SHIFT
    ensures ChildBase(Shl(i, shift), j, 0) < B32
    ensures shift == V_L1_SHIFT ==> ChildBase(Shl(i, shift), j, 0) < 0x40_0000
  {
    var k := if shift == V_L1_SHIFT then 12 else TRUE_SHIFT;
    assert Shl(1, 10) == L2_SIZE && Shl(1, 22) == 0x40_0000 && Shl(1, 32) == B32;
    ShiftedBelow(i, shift, k);
    ShiftedBelow(j, 12, k);
    OrBelow(Shl(i, shift), Shl(j, 12), 10 + k);
  }

  lemma ShiftedBelow(i: nat, shift: nat, k: nat)
    requires i < L2_SIZE && shift <= k
    ensures Shl(i, shift) < Shl(1, 10 + k)
  {
    ShiftedPlace(1);
    ShlOrder(i, shift);
    ShlOrder(1, shift);
    assert Shl(i, shift) + Shl(1, shift) <= Shl(L2_SIZE, shift);
    ShlAdd(1, 10, shift);
    ShlAdd(1, 10 + shift, k - shift);
    ShlOrder(Shl(1, 10 + shift), k - shift);
  }

  function Shown(shift: nat): (at: seq<word32>)
    requires shift <= TRUE_SHIFT
    ensures |at| == PAGES && forall p: nat :: p < PAGES ==> at[p] == ShownAddress(p, shift)
  {
    seq(PAGES, p requires 0 <= p < PAGES => ShownAddress(p, shift))
  }

  lemma ShownAt(i: nat, j: nat, shift: nat)
    requires i < L2_SIZE && j < L2_SIZE && shift <= TRUE_SHIFT
    ensures Shown(shift)[i * L2_SIZE + j] == ChildBase(Shl(i, shift), j, 0)
  {
    DivModUnique(i * L2_SIZE + j, L2_SIZE, i, j);
  }

  lemma BaseOf(at: seq<nat>, i: nat, base: nat)
    requires i < L2_SIZE && |at| == PAGES
    requires forall j: nat :: j < L2_SIZE ==> at[i * L2_SIZE + j] == ChildBase(base, j, 0)
    ensures Bases(at, base, i, 0)
  {
    assert at[i * L2_SIZE + 0] == ChildBase(base, 0, 0);
    assert Shl(0, 12) == 0;
    OrBit(base, 0);
    assert Begin(i, 1) == i * L2_SIZE && Begin(i + 1, 1) == (i + 1) * L2_SIZE;
  }

  lemma ShownBases(i: nat, shift: nat)
    requires i < L2_SIZE && shift <= TRUE_SHIFT
    ensures Bases(Shown(shift), Shl(i, shift), i, 0)
  {
    forall j: nat | j < L2_SIZE ensures Shown(shift)[i * L2_SIZE + j] == ChildBase(Shl(i, shift), j, 0) {
      ShownAt(i, j, shift);
    }
    BaseOf(Shown(shift), i, Shl(i, shift));
  }

  /** Walks the whole tree; the base of each subtree is its number shifted by "shift".  "at" are the addresses that
      these bases show for the pages. */
  method WalkTree(tree: PageMap, fn: Callback, shift: nat, ghost flat: seq<nat>, ghost at: seq<nat>)
    returns (log: seq<Region>, rc: int)
    requires tree.Sound() && Begin(tree.l1Size, tree.shift) == tree.pageCount
    requires |flat| == |at| == tree.pageCount && Shows(tree, flat)
    requires forall i: nat :: i < tree.l1Size ==> Bases(at, Shl(i, shift), i, tree.shift - 1)
    ensures var w := Whole(flat, at, fn); log == w.log && rc == w.rc
  {
    var data := new WalkData(fn);
    BeginZero(tree.shift);
    var i := 0;
    while i < tree.l1Size
      invariant 0 <= i <= tree.l1Size && Sane(data.Value(0)) && data.fn == fn && Begin(i, tree.shift) <= |flat|
      invariant data.Value(0) == Fold(BEGIN, flat, at, 0, Begin(i, tree.shift), fn)
    {
      rc := WalkTop(tree, data, i, shift, flat, at);
      if rc != 0 {
        return data.log, rc;
      }
      i := i + 1;
    }
    rc := data.WalkEnd(0, 0);
    log := data.log;
  }

  /** Walks subtree i of the top level. */
  method WalkTop(tree: PageMap, data: WalkData, i: nat, shift: nat, ghost flat: seq<nat>, ghost at: seq<nat>)
    returns (rc: int)
    requires tree.Sound() && Begin(tree.l1Size, tree.shift) == tree.pageCount && i < tree.l1Size && Sane(data.Value(0))
    requires |flat| == |at| == tree.pageCount && Shows(tree, flat)
    requires Bases(at, Shl(i, shift), i, tree.shift - 1) && Begin(i, tree.shift) <= |flat|
    requires data.Value(0) == Fold(BEGIN, flat, at, 0, Begin(i, tree.shift), data.fn)
    modifies data
    ensures Sane(data.Value(rc)) && Begin(i + 1, tree.shift) <= |flat|
    ensures data.Value(rc) == Fold(BEGIN, flat, at, 0, Begin(i + 1, tree.shift), data.fn)
    ensures rc != 0 ==> data.Value(rc) == Fold(BEGIN, flat, at, 0, |flat|, data.fn)
  {
    ghost var now, a, b := data.Value(0), Begin(i, tree.shift), Begin(i + 1, tree.shift);
    BeginOrder(i, i + 1, tree.shift);
    rc := data.WalkSubtree(tree, tree.top[i], Shl(i, shift), tree.shift - 1, flat, at, i, a, b);
    StepFurther(BEGIN, now, data.Value(rc), flat, at, 0, a, b, |flat|, data.fn);
  }

  lemma {:induction false} BeginZero(level: nat)
    ensures Begin(0, level) == 0
    decreases level
  {
    if level > 0 { BeginZero(level - 1); }
  }

  /** The walk of the tree with true bases, for any number of pages and levels.  What it reports are exactly the maximal
      runs of equal nonzero flags, in increasing order, up to the first one for which the callback's result is not
      zero. */
  method WalkTrue(tree: PageMap, fn: Callback, ghost flat: seq<nat>)
    returns (log: seq<Region>, rc: int, ghost runs: seq<Region>)
    requires tree.Sound() && Begin(tree.l1Size, tree.shift) == tree.pageCount
    requires |flat| == tree.pageCount && Shows(tree, flat)
    ensures ExactlyTheRuns(runs, flat) && log <= runs
    ensures rc == 0 ==> log == runs
    ensures forall k :: 0 < k < |log| ==> fn(log[..k]) == 0
    ensures if log == [] then rc == 0 else fn(log) == rc
  {
    ghost var at, level := TrueTable(tree.pageCount), tree.shift - 1;
    var shift := 12 + 10 * tree.shift;
    forall i: nat | i < tree.l1Size ensures Bases(at, Shl(i, shift), i, level) {
      TopBase(at, i, tree.l1Size, tree.shift);
    }
    log, rc := WalkTree(tree, fn, shift, flat, at);
    runs := Whole(flat, at, Continue()).log;
    WholeReportsTheRuns(flat, at);
    StoppedLog(flat, at, fn);
  }

  /** What a walk with a callback that may stop it has reported. */
  lemma StoppedLog(flat: seq<nat>, at: seq<nat>, fn: Callback)
    requires |flat| == |at|
    ensures var w, full := Whole(flat, at, fn), Whole(flat, at, Continue()).log;
            && w.log <= full && (w.rc == 0 ==> w.log == full)
            && (forall k :: 0 < k < |w.log| ==> fn(w.log[..k]) == 0)
            && if w.log == [] then w.rc == 0 else fn(w.log) == w.rc
  {
    WholeFollows(flat, at, fn);
    var log, full := Whole(flat, at, fn).log, Whole(flat, at, Continue()).log;
    forall k | 0 < k < |log| ensures fn(log[..k]) == 0 {
      assert log[..k] == full[..k];
    }
  }

  function TrueTable(pages: nat): (at: seq<nat>)
    ensures |at| == pages && TrueAddresses(at)
  {
    seq(pages, p requires 0 <= p < pages => p * PAGE_SIZE)
  }

  /** For example, the tree for addresses of 47 bits: 2^35 pages in three levels below a top level of 32 entries. */
  method WideTree() returns (tree: PageMap)
    ensures tree.Sound() && tree.shift == 3 && tree.l1Size == 32
    ensures tree.pageCount == Begin(tree.l1Size, tree.shift) == 0x8_0000_0000
  {
    BeginOfWide();
    forall i: nat | i < 0x8_0000_0000 ensures Up(i, 3) < 32 {
      BeginZero(3);
      UpBetween(i, 0, 32, 3);
    }
    tree := new PageMap(0x8_0000_0000, 3, 32);
  }

  lemma BeginOfWide()
    ensures Begin(32, 3) == 0x8_0000_0000
  {
    assert Begin(32 * L2_SIZE * L2_SIZE * L2_SIZE, 0) == 0x8_0000_0000;
  }

  /** The base of a subtree of the top level, shifted by the number of address bits below it. */
  lemma TopBase(at: seq<nat>, i: nat, l1Size: nat, shift: nat)
    requires TrueAddresses(at) && shift > 0 && i < l1Size && Begin(l1Size, shift) == |at|
    ensures Bases(at, Shl(i, 12 + 10 * shift), i, shift - 1)
  {
    if i + 1 < l1Size { BeginOrder(i + 1, l1Size, shift); }
    FirstAddress(i, shift);
    TrueBases(at, i, shift - 1);
  }

  /** The walk with any bases, for one level of leaves below the top. */
  method WalkFrom(tree: PageMap, fn: Callback, shift: nat, ghost flat: seq<nat>) returns (log: seq<Region>, rc: int)
    requires tree.Valid() && tree.shift == 1 && tree.l1Size == L2_SIZE && shift <= TRUE_SHIFT
    requires |flat| == PAGES && Shows(tree, flat)
    ensures var w := Whole(flat, Shown(shift), fn); log == w.log && rc == w.rc
  {
    forall i: nat | i < L2_SIZE ensures Bases(Shown(shift), Shl(i, shift), i, 0) {
      ShownBases(i, shift);
    }
    assert Begin(L2_SIZE, 1) == PAGES;
    log, rc := WalkTree(tree, fn, shift, flat, Shown(shift));
  }

  /** Shifting by the number of address bits gives true addresses. */
  lemma ShownTruly()
    ensures TrueAddresses(Shown(TRUE_SHIFT))
  {
    forall p: nat | p < PAGES ensures ShownAddress(p, TRUE_SHIFT) == p * PAGE_SIZE {
      FirstAddress(p / L2_SIZE, 1);
      TrueChild(p / L2_SIZE, p % L2_SIZE, 0);
    }
  }

  // ----- The walk as it is -----

  /** No page after the first leaf differs from the last page of the first leaf. */
  predicate NothingChanges(flat: seq<nat>)
    requires |flat| == PAGES
  {
    forall p :: L2_SIZE <= p < PAGES ==> flat[p] == flat[L2_SIZE - 1]
  }

  /** The walk as it is: the base of a leaf is its number shifted by the number of page-number bits below the
      top, not by the number of address bits.  What it reports are the true runs as their pages are shown.  Unless the
      callback stops it, the walk is right if and only if the flags do not change after the first leaf; if the
      callback stops it, what it has reported by then is right also if the last run reported ends within that leaf. */
  method WalkRegions(tree: PageMap, fn: Callback, ghost flat: seq<nat>)
    returns (log: seq<Region>, rc: int, ghost runs: seq<Region>)
    requires tree.Valid() && tree.shift == 1 && tree.l1Size == L2_SIZE
    requires |flat| == PAGES && Shows(tree, flat)
    ensures ExactlyTheRuns(runs, flat) && |log| <= |runs| && log == AllSeen(runs)[..|log|]
    ensures forall k :: 0 < k < |log| ==> fn(log[..k]) == 0
    ensures if log == [] then rc == 0 else fn(log) == rc
    ensures rc == 0 ==> |log| == |runs| && (log == runs <==> NothingChanges(flat))
    ensures rc != 0 ==> (log == runs[..|log|] <==> StopsRight(flat, runs[|log| - 1]))
  {
    log, rc := WalkFrom(tree, fn, V_L1_SHIFT, flat);
    StoppedLog(flat, Shown(V_L1_SHIFT), fn);
    runs := Whole(flat, TrueTable(PAGES), Continue()).log;
    WholeReportsTheRuns(flat, TrueTable(PAGES));
    WholeSeen(flat);
    if rc != 0 {
      RightSoFar(flat, log, runs);
    } else {
      RightIff(flat);
      RightWhole(flat, log, runs);
    }
  }

  /** The address shown for a page, or for the end of the address space. */
  function SeenAddress(p: nat): nat {
    if p < PAGES then ShownAddress(p, V_L1_SHIFT) else 0
  }

  /** A run as it is shown. */
  function Seen(r: Region): Region {
    Region(SeenAddress(First(r)), SeenAddress(Past(r, PAGES)), r.prot)
  }

  function AllSeen(runs: seq<Region>): (r: seq<Region>)
    ensures |r| == |runs| && forall k :: 0 <= k < |r| ==> r[k] == Seen(runs[k])
  {
    seq(|runs|, k requires 0 <= k < |runs| => Seen(runs[k]))
  }

  /** A walk with the addresses shown, beside the one with true addresses. */
  ghost predicate AsSeen(w: Walk, truly: Walk, hi: nat) {
    && w.rc == truly.rc == 0 && w.prot == truly.prot
    && (if truly.start.None? then w.start.None?
        else var p := truly.start.value / PAGE_SIZE;
             p < hi && truly.start.value == p * PAGE_SIZE && w.start == Some(SeenAddress(p)))
    && |w.log| == |truly.log| && forall k :: 0 <= k < |w.log| ==> w.log[k] == Seen(truly.log[k])
  }

  lemma EndSeen(w: Walk, truly: Walk, hi: nat, newProt: nat)
    requires AsSeen(w, truly, hi) && hi <= PAGES && (hi == PAGES ==> newProt == 0)
    ensures AsSeen(End(w, SeenAddress(hi), newProt, Continue()),
                   End(truly, PageAddress(hi, PAGES), newProt, Continue()), hi + 1)
  {
    PageNumber(hi);
    if truly.start.Some? {
      var s := truly.start.value / PAGE_SIZE;
      PageAddressPages(s, hi, truly.prot, PAGES);
      assert Seen(Region(s * PAGE_SIZE, PageAddress(hi, PAGES), w.prot))
          == Region(SeenAddress(s), SeenAddress(hi), w.prot);
    }
  }

  lemma {:induction false} FoldSeen(flat: seq<nat>, hi: nat)
    requires hi <= |flat| == PAGES
    ensures AsSeen(Fold(BEGIN, flat, Shown(V_L1_SHIFT), 0, hi, Continue()),
                   Fold(BEGIN, flat, TrueTable(PAGES), 0, hi, Continue()), hi)
    decreases hi
  {
    if hi > 0 {
      var at, trueAt := Shown(V_L1_SHIFT), TrueTable(PAGES);
      FoldSeen(flat, hi - 1);
      assert at[hi - 1] == SeenAddress(hi - 1) && trueAt[hi - 1] == PageAddress(hi - 1, PAGES);
      EndSeen(Fold(BEGIN, flat, at, 0, hi - 1, Continue()), Fold(BEGIN, flat, trueAt, 0, hi - 1, Continue()),
              hi - 1, flat[hi - 1]);
    }
  }

  lemma WholeSeen(flat: seq<nat>)
    requires |flat| == PAGES
    ensures var log := Whole(flat, Shown(V_L1_SHIFT), Continue()).log;
            var runs := Whole(flat, TrueTable(PAGES), Continue()).log;
            log == AllSeen(runs)
  {
    FoldSeen(flat, PAGES);
    EndSeen(Fold(BEGIN, flat, Shown(V_L1_SHIFT), 0, PAGES, Continue()),
            Fold(BEGIN, flat, TrueTable(PAGES), 0, PAGES, Continue()), PAGES, 0);
  }

  /** Only the addresses of the first leaf are shown right. */
  lemma SeenRight(p: nat)
    requires p < PAGES
    ensures SeenAddress(p) == p * PAGE_SIZE <==> p < L2_SIZE
  {
    ShownTruly();
    assert Shown(TRUE_SHIFT)[p] == p * PAGE_SIZE;
    if p < L2_SIZE { ShownFirst(p); }
  }

  lemma RunSeenRight(flat: seq<nat>, r: Region)
    requires |flat| == PAGES && RunReported(flat, PAGES, r)
    ensures Seen(r) == r <==> First(r) < L2_SIZE && (Past(r, PAGES) < L2_SIZE || Past(r, PAGES) == PAGES)
  {
    SeenRight(First(r));
    if Past(r, PAGES) < PAGES { SeenRight(Past(r, PAGES)); }
  }

  /** The walk may stop after this run: it ends within the first leaf, or nothing changes after that. */
  ghost predicate StopsRight(flat: seq<nat>, last: Region)
    requires |flat| == PAGES
  {
    Past(last, PAGES) < L2_SIZE || NothingChanges(flat)
  }

  lemma RightSoFar(flat: seq<nat>, log: seq<Region>, runs: seq<Region>)
    requires |flat| == PAGES && ExactlyTheRuns(runs, flat) && 0 < |log| <= |runs| && log == AllSeen(runs)[..|log|]
    ensures log == runs[..|log|] <==> StopsRight(flat, runs[|log| - 1])
  {
    if log == runs[..|log|] {
      assert log[|log| - 1] == runs[|log| - 1];
      GoesToEnd(flat, runs, |log| - 1);
    } else if StopsRight(flat, runs[|log| - 1]) {
      SeenUpTo(flat, runs, |log|, |log| - 1);
    }
  }

  lemma GoesToEnd(flat: seq<nat>, runs: seq<Region>, m: nat)
    requires |flat| == PAGES && ExactlyTheRuns(runs, flat) && m < |runs| && Seen(runs[m]) == runs[m]
    ensures StopsRight(flat, runs[m])
  {
    assert RunReported(flat, PAGES, runs[m]);
    RunSeenRight(flat, runs[m]);
  }

  lemma {:induction false} SeenUpTo(flat: seq<nat>, runs: seq<Region>, n: nat, m: nat)
    requires |flat| == PAGES && ExactlyTheRuns(runs, flat) && n <= m + 1 <= |runs| && StopsRight(flat, runs[m])
    ensures AllSeen(runs)[..n] == runs[..n]
    decreases n
  {
    if n > 0 {
      SeenUpTo(flat, runs, n - 1, m);
      SeenEarly(flat, runs, n - 1, m);
      SameFurther(AllSeen(runs), runs, n - 1);
    }
  }

  lemma SameFurther<T>(a: seq<T>, b: seq<T>, n: nat)
    requires n < |a| == |b| && a[..n] == b[..n] && a[n] == b[n]
    ensures a[..n + 1] == b[..n + 1]
  {
    assert a[..n + 1] == a[..n] + [a[n]] && b[..n + 1] == b[..n] + [b[n]];
  }

  lemma SeenEarly(flat: seq<nat>, runs: seq<Region>, k: nat, m: nat)
    requires |flat| == PAGES && ExactlyTheRuns(runs, flat) && k <= m < |runs|
    requires StopsRight(flat, runs[m])
    ensures Seen(runs[k]) == runs[k]
  {
    var r := runs[k];
    assert RunReported(flat, PAGES, r) && RunReported(flat, PAGES, runs[m]);
    assert k < m ==> Past(r, PAGES) <= First(runs[m]);
    EndsEarly(flat, r);
    RunSeenRight(flat, r);
  }

  /** If nothing changes after the first leaf, a run begins in it, and goes on to the end if it leaves it. */
  lemma EndsEarly(flat: seq<nat>, r: Region)
    requires |flat| == PAGES && RunReported(flat, PAGES, r) && (NothingChanges(flat) || Past(r, PAGES) < L2_SIZE)
    ensures First(r) < L2_SIZE && (Past(r, PAGES) < L2_SIZE || Past(r, PAGES) == PAGES)
  {
    var s, e := First(r), Past(r, PAGES);
    if e >= L2_SIZE {
      assert flat[e - 1] == flat[L2_SIZE - 1] == r.prot;
    }
  }

  lemma RightWhole(flat: seq<nat>, log: seq<Region>, runs: seq<Region>)
    requires |flat| == PAGES && ExactlyTheRuns(runs, flat) && (ExactlyTheRuns(log, flat) <==> NothingChanges(flat))
    ensures log == runs <==> NothingChanges(flat)
  {
    if NothingChanges(flat) { RunsUnique(log, runs, flat); }
  }

  /** All addresses kept or reported lie below 4 MB. */
  ghost predicate Small(w: Walk) {
    && (w.start.Some? ==> w.start.value < 0x40_0000)
    && (forall i :: 0 <= i < |w.log| ==> w.log[i].start < 0x40_0000 && w.log[i].end < 0x40_0000)
  }

  lemma {:induction false} FoldSmall(flat: seq<nat>, hi: nat)
    requires hi <= |flat| == PAGES
    ensures Small(Fold(BEGIN, flat, Shown(V_L1_SHIFT), 0, hi, Continue()))
    decreases hi
  {
    if hi > 0 {
      var at := Shown(V_L1_SHIFT);
      FoldSmall(flat, hi - 1);
      assert at[hi - 1] < 0x40_0000;
      EndSmall(Fold(BEGIN, flat, at, 0, hi - 1, Continue()), at[hi - 1], flat[hi - 1]);
    }
  }

  lemma EndSmall(w: Walk, end: nat, newProt: nat)
    requires Small(w) && end < 0x40_0000
    ensures Small(End(w, end, newProt, Continue()))
  {
  }

  /** A change of flags after the first leaf lies at an address that is never shown. */
  lemma ChangeMissed(log: seq<Region>, flat: seq<nat>, p: nat)
    requires |flat| == PAGES && L2_SIZE <= p < PAGES && flat[p] != flat[p - 1]
    requires forall i :: 0 <= i < |log| ==> log[i].start < 0x40_0000 && log[i].end < 0x40_0000
    ensures !ExactlyTheRuns(log, flat)
  {
    if ExactlyTheRuns(log, flat) {
      var q := if flat[p] != 0 then p else p - 1;
      assert InSome(log, |flat|, q);
      var i :| 0 <= i < |log| && First(log[i]) <= q < Past(log[i], |flat|);
      Boundary(flat, p, log[i]);
    }
  }

  lemma Boundary(flat: seq<nat>, p: nat, r: Region)
    requires 0 < p < |flat| == PAGES && flat[p] != flat[p - 1] && RunReported(flat, |flat|, r)
    requires First(r) <= (if flat[p] != 0 then p else p - 1) < Past(r, |flat|)
    ensures First(r) == p || Past(r, |flat|) == p
  {
  }

  lemma {:induction false} FirstChange(flat: seq<nat>, p: nat)
    requires |flat| == PAGES && L2_SIZE <= p < PAGES && flat[p] != flat[L2_SIZE - 1]
    ensures exists q :: L2_SIZE <= q < PAGES && flat[q] != flat[q - 1]
    decreases p
  {
    if flat[p - 1] != flat[L2_SIZE - 1] { FirstChange(flat, p - 1); }
  }

  /** The first leaf is walked with true addresses. */
  lemma {:induction false} SameStart(flat: seq<nat>, hi: nat)
    requires hi <= |flat| == PAGES && (hi <= L2_SIZE || NothingChanges(flat))
    ensures Fold(BEGIN, flat, Shown(V_L1_SHIFT), 0, hi, Continue())
            == Fold(BEGIN, flat, Shown(TRUE_SHIFT), 0, hi, Continue())
    decreases hi
  {
    if hi > 0 {
      SameStart(flat, hi - 1);
      if hi <= L2_SIZE {
        assert Shown(V_L1_SHIFT)[hi - 1] == Shown(TRUE_SHIFT)[hi - 1] by { ShownFirst(hi - 1); }
      } else {
        CurrentFlags(flat, Shown(V_L1_SHIFT), hi - 1);
        assert flat[hi - 1] == flat[hi - 2];
      }
    }
  }

  lemma ShownFirst(p: nat)
    requires p < L2_SIZE
    ensures ShownAddress(p, V_L1_SHIFT) == ShownAddress(p, TRUE_SHIFT)
  {
    ShlOrder(0, V_L1_SHIFT);
    ShlOrder(0, TRUE_SHIFT);
  }

  lemma {:induction false} CurrentFlags(flat: seq<nat>, at: seq<nat>, hi: nat)
    requires 0 < hi <= |flat| == |at|
    ensures Fold(BEGIN, flat, at, 0, hi, Continue()).rc == 0
    ensures Fold(BEGIN, flat, at, 0, hi, Continue()).prot == flat[hi - 1]
    decreases hi
  {
    if hi > 1 { CurrentFlags(flat, at, hi - 1); }
    assert hi == 1 ==> Fold(BEGIN, flat, at, 0, 0, Continue()) == BEGIN;
  }

  lemma RightIff(flat: seq<nat>)
    requires |flat| == PAGES
    ensures ExactlyTheRuns(Whole(flat, Shown(V_L1_SHIFT), Continue()).log, flat) <==> NothingChanges(flat)
  {
    if NothingChanges(flat) {
      ShownTruly();
      SameStart(flat, PAGES);
      WholeReportsTheRuns(flat, Shown(TRUE_SHIFT));
    } else {
      var p :| L2_SIZE <= p < PAGES && flat[p] != flat[L2_SIZE - 1];
      FirstChange(flat, p);
      var q :| L2_SIZE <= q < PAGES && flat[q] != flat[q - 1];
      FoldSmall(flat, PAGES);
      EndSmall(Fold(BEGIN, flat, Shown(V_L1_SHIFT), 0, PAGES, Continue()), 0, 0);
      CurrentFlags(flat, Shown(V_L1_SHIFT), PAGES);
      ChangeMissed(Whole(flat, Shown(V_L1_SHIFT), Continue()).log, flat, q);
    }
  }

  /** For example, if only the first page of the second leaf is mapped, at 0x40_0000, it is reported at 0x400. */
  lemma WrongAddresses(flat: seq<nat>)
    requires |flat| == PAGES && flat[L2_SIZE] != 0
    requires forall p :: 0 <= p < PAGES && p != L2_SIZE ==> flat[p] == 0
    ensures Whole(flat, Shown(V_L1_SHIFT), Continue()).log == [Region(0x400, 0x1400, flat[L2_SIZE])]
    ensures !NothingChanges(flat)
  {
    ShownAtSecondLeaf();
    FoldOnePage(flat, Shown(V_L1_SHIFT), L2_SIZE, Continue());
    assert flat[L2_SIZE] != flat[L2_SIZE - 1];
  }

  /** A walk over a map with one mapped page. */
  lemma FoldOnePage(flat: seq<nat>, at: seq<nat>, m: nat, fn: Callback)
    requires |flat| == |at| && 0 < m && m + 2 < |flat| && flat[m] != 0 && fn([Region(at[m], at[m + 1], flat[m])]) == 0
    requires forall p :: 0 <= p < |flat| && p != m ==> flat[p] == 0
    ensures Whole(flat, at, fn).log == [Region(at[m], at[m + 1], flat[m])]
  {
    var runs := [Region(at[m], at[m + 1], flat[m])];
    FoldZeros(BEGIN, flat, at, 0, m, fn);
    var open, closed := Walk(Some(at[m]), flat[m], [], 0), Walk(None, 0, runs, 0);
    assert Fold(BEGIN, flat, at, 0, m + 1, fn) == open;
    assert [] + runs == runs;
    assert Fold(BEGIN, flat, at, 0, m + 2, fn) == Step(open, at[m + 1], 0, fn) == closed;
    FoldSplit(BEGIN, flat, at, 0, m + 2, |flat|, fn);
    FoldZeros(closed, flat, at, m + 2, |flat|, fn);
  }

  lemma ShownAtSecondLeaf()
    ensures Shown(V_L1_SHIFT)[L2_SIZE] == 0x400 && Shown(V_L1_SHIFT)[L2_SIZE + 1] == 0x1400
  {
    ShownAt(1, 0, V_L1_SHIFT);
    ShownAt(1, 1, V_L1_SHIFT);
    assert Shl(1, 10) == 0x400 && Shl(0, 12) == 0 && Shl(1, 12) == 0x1000;
    OrDisjoint(1, 0x400, 12);
    OrSymmetric(0x1000, 0x400);
  }

  lemma {:induction false} OrSymmetric(x: nat, y: nat)
    ensures Or(x, y) == Or(y, x)
  {
    if x != 0 && y != 0 { OrSymmetric(x / 2, y / 2); }
  }
}
