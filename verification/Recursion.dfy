/**
 * How deep serialising recurses. The guard marks only arrays held directly, so the recursion is
 * bounded exactly when no cycle of the array graph runs through references alone.
 */
module Recursion {
  import opened Bytes
  import opened Php
  import opened Packing

  /** A call that is writing the elements of array `arr`. */
  datatype Frame = Frame(marks: set<nat>, arr: nat, at: Place)

  predicate CallsAt(h: Heap, f: Frame, g: Frame, j: nat) {
    f.arr in h && j < |h[f.arr].entries| && Visited(h[f.arr], j) &&
    var data := h[f.arr].entries[j].val;
    && !Guarded(f.marks, data, f.arr, j, f.at)
    && Target(data) == Some(g.arr)
    && g == Frame(Enter(f.marks, data), g.arr, PlaceOf(data, Some((f.arr, j))))
  }

  /** Frame `f` makes the nested call `g`. */
  ghost predicate Calls(h: Heap, f: Frame, g: Frame) {
    exists j :: CallsAt(h, f, g, j)
  }

  /** A stack of nested calls, outermost first. */
  ghost predicate CallStack(h: Heap, fs: seq<Frame>) {
    |fs| >= 1 && fs[0].arr in h && forall i :: 0 <= i < |fs| - 1 ==> Calls(h, fs[i], fs[i + 1])
  }

  /** The frame of the outermost call: nothing is marked, the value is no bucket. */
  function Root(a: nat): Frame {
    Frame({}, a, None)
  }

  /** `u` times `n + 1`, by addition. */
  function Times(u: nat, n: nat): nat {
    if u == 0 then 0 else Times(u - 1, n) + n + 1
  }

  lemma {:induction false} TimesMonotone(u: nat, u': nat, n: nat)
    requires u' <= u
    ensures Times(u', n) <= Times(u, n)
    ensures u' < u ==> Times(u', n) + n + 1 <= Times(u, n)
  {
    if u' < u {
      TimesMonotone(u - 1, u', n);
    }
  }

  lemma {:induction false} TimesIsProduct(u: nat, n: nat)
    ensures Times(u, n) == u * (n + 1)
  {
    if u > 0 {
      TimesIsProduct(u - 1, n);
      assert u * (n + 1) == (u - 1) * (n + 1) + (n + 1);
    }
  }

  ghost function Measure(h: Heap, f: Frame): nat {
    Times(Unmarked(h, f.marks), |h|) + Rank(h, f.arr)
  }

  lemma CallLowersMeasure(h: Heap, f: Frame, g: Frame)
    requires ValidHeap(h) && NoRefCycle(h) && Calls(h, f, g)
    ensures g.arr in h && Measure(h, g) < Measure(h, f)
  {
    hide ValidHeap, NoRefCycle, Rank, Unmarked, Visited;
    var j :| CallsAt(h, f, g, j);
    EnterDecreases(h, f.marks, f.arr, j, f.at);
    RankBound(h, g.arr);
    TimesMonotone(Unmarked(h, f.marks), Unmarked(h, g.marks), |h|);
  }

  lemma {:induction false} StackBelowMeasure(h: Heap, fs: seq<Frame>)
    requires ValidHeap(h) && NoRefCycle(h) && CallStack(h, fs)
    ensures |fs| <= Measure(h, fs[0]) + 1
    decreases |fs|
  {
    if |fs| > 1 {
      assert Calls(h, fs[0], fs[1]);
      CallLowersMeasure(h, fs[0], fs[1]);
      assert CallStack(h, fs[1..]) by {
        forall i | 0 <= i < |fs[1..]| - 1
          ensures Calls(h, fs[1..][i], fs[1..][i + 1])
        {
          assert Calls(h, fs[i + 1], fs[i + 2]);
        }
      }
      StackBelowMeasure(h, fs[1..]);
    }
  }

  /** With n arrays, no stack of nested calls is higher than (n + 1)^2, whatever is marked at the start. */
  lemma BoundedDepth(h: Heap, fs: seq<Frame>)
    requires ValidHeap(h) && NoRefCycle(h) && CallStack(h, fs)
    ensures |fs| <= (|h| + 1) * (|h| + 1)
  {
    hide ValidHeap, NoRefCycle, Rank, Times;
    StackBelowMeasure(h, fs);
    RankBound(h, fs[0].arr);
    SubsetSize(h.Keys - fs[0].marks, h.Keys);
    TimesMonotone(|h|, Unmarked(h, fs[0].marks), |h|);
    TimesMonotone(|h| + 1, |h|, |h|);
    TimesIsProduct(|h| + 1, |h|);
  }

  // ---------------------------------------------------------------- and without the condition

  lemma CycleStep(h: Heap, a: nat) returns (b: nat)
    requires OnCycle(h, a, true)
    ensures Edge(h, a, b, true) && OnCycle(h, b, true)
  {
    var p :| |p| >= 2 && PathBetween(h, p, a, a, true);
    b := p[1];
    assert Edge(h, p[0], p[1], true);
    if |p| == 2 {
      assert b == a;
    } else {
      assert PathBetween(h, p[1..], b, a, true) by {
        forall i | 0 <= i < |p[1..]| - 1
          ensures Edge(h, p[1..][i], p[1..][i + 1], true)
        {
          assert Edge(h, p[i + 1], p[i + 2], true);
        }
      }
      EdgeReaches(h, a, b, true);
      ReachesTransitive(h, b, a, b, true);
    }
  }

  ghost predicate FrameOk(h: Heap, f: Frame) {
    PlaceOk(h, ZArray(f.arr), f.at)
  }

  /** On a reference-only cycle the guard never stops the next call. */
  lemma CycleCalls(h: Heap, f: Frame) returns (g: Frame)
    requires OnCycle(h, f.arr, true) && FrameOk(h, f)
    ensures Calls(h, f, g) && OnCycle(h, g.arr, true) && FrameOk(h, g) && g.marks == f.marks
  {
    var b := CycleStep(h, f.arr);
    var j :| 0 <= j < |h[f.arr].entries| && Visited(h[f.arr], j) && Leads(h[f.arr].entries[j].val, b, true);
    g := Frame(f.marks, b, None);
    assert CallsAt(h, f, g, j);
  }

  lemma {:induction false} DeepStack(h: Heap, f: Frame, n: nat) returns (fs: seq<Frame>)
    requires f.arr in h && OnCycle(h, f.arr, true) && FrameOk(h, f)
    ensures CallStack(h, fs) && fs[0] == f && |fs| == n + 1
    decreases n
  {
    if n == 0 {
      fs := [f];
    } else {
      var g := CycleCalls(h, f);
      assert Edge(h, f.arr, g.arr, true) || g.arr in h by { CycleInHeap(h, g.arr); }
      CycleInHeap(h, g.arr);
      var gs := DeepStack(h, g, n - 1);
      fs := [f] + gs;
      forall i | 0 <= i < |fs| - 1
        ensures Calls(h, fs[i], fs[i + 1])
      {
        if i > 0 {
          assert Calls(h, gs[i - 1], gs[i]);
        }
      }
    }
  }

  lemma CycleInHeap(h: Heap, a: nat)
    requires OnCycle(h, a, true)
    ensures a in h
  {
    var p :| |p| >= 2 && PathBetween(h, p, a, a, true);
    assert Edge(h, p[0], p[1], true);
  }

  /**
   * Serialising is depth-bounded from every array of a heap if and only if every cycle passes
   * through an array held directly; the bound is then (n + 1)^2 nested calls.
   */
  lemma DepthBoundedExactly(h: Heap)
    requires ValidHeap(h)
    ensures NoRefCycle(h) <==>
            forall a, fs :: a in h && CallStack(h, fs) && fs[0] == Root(a) ==> |fs| <= (|h| + 1) * (|h| + 1)
  {
    var bound := (|h| + 1) * (|h| + 1);
    if NoRefCycle(h) {
      forall a, fs | a in h && CallStack(h, fs) && fs[0] == Root(a)
        ensures |fs| <= bound
      {
        BoundedDepth(h, fs);
      }
    } else {
      var a :| a in h && OnCycle(h, a, true);
      var fs := DeepStack(h, Root(a), bound);
    }
  }

  // ---------------------------------------------------------------- when the guard fires

  lemma PathTail(h: Heap, p: seq<nat>, a: nat, b: nat)
    requires |p| >= 2 && PathBetween(h, p, a, b, false)
    ensures Edge(h, a, p[1], false) && PathBetween(h, p[1..], p[1], b, false)
  {
    assert Edge(h, p[0], p[1], false);
    forall i | 0 <= i < |p[1..]| - 1
      ensures Edge(h, p[1..][i], p[1..][i + 1], false)
    {
      assert Edge(h, p[i + 1], p[i + 2], false);
    }
  }

  /** The call writes nil in place of element `j`. */
  ghost predicate Fires(h: Heap, f: Frame, j: nat) {
    f.arr in h && j < |h[f.arr].entries| && Visited(h[f.arr], j)
      && Guarded(f.marks, h[f.arr].entries[j].val, f.arr, j, f.at)
  }

  ghost predicate From(h: Heap, a: nat, b: nat) {
    b == a || Reaches(h, a, b, false)
  }

  ghost predicate FiresIn(h: Heap, f: Frame) {
    exists j: nat :: Fires(h, f, j)
  }

  /** What holds of every frame below the outermost call for `a`: marks are on arrays above it. */
  ghost predicate Sits(h: Heap, a: nat, f: Frame) {
    && FrameOk(h, f) && From(h, a, f.arr)
    && forall m :: m in f.marks ==> From(h, a, m) && From(h, m, f.arr)
  }

  lemma SitsStep(h: Heap, a: nat, f: Frame, g: Frame)
    requires Sits(h, a, f) && Calls(h, f, g)
    ensures Sits(h, a, g)
  {
    hide Reaches;
    var j: nat :| CallsAt(h, f, g, j);
    assert Leads(h[f.arr].entries[j].val, g.arr, false);
    FromEdge(h, a, f.arr, g.arr);
    forall m | m in f.marks
      ensures From(h, m, g.arr)
    {
      FromEdge(h, m, f.arr, g.arr);
    }
  }

  lemma FromEdge(h: Heap, a: nat, b: nat, c: nat)
    requires From(h, a, b) && Edge(h, b, c, false)
    ensures Reaches(h, a, c, false)
  {
    EdgeReaches(h, b, c, false);
    if a != b {
      ReachesTransitive(h, a, b, c, false);
    }
  }

  lemma {:induction false} StackSits(h: Heap, a: nat, fs: seq<Frame>, i: nat)
    requires CallStack(h, fs) && fs[0] == Root(a) && i < |fs|
    ensures Sits(h, a, fs[i])
    decreases i
  {
    hide Calls;
    if i > 0 {
      StackSits(h, a, fs, i - 1);
      SitsStep(h, a, fs[i - 1], fs[i]);
    }
  }

  lemma FiringIsCyclic(h: Heap, a: nat, f: Frame, j: nat) returns (b: nat)
    requires Sits(h, a, f) && Fires(h, f, j)
    ensures From(h, a, b) && OnCycle(h, b, false)
  {
    hide Reaches;
    var data := h[f.arr].entries[j].val;
    b := if f.at == Some((f.arr, j)) then f.arr else data.id;
    assert Leads(data, b, false);
    FromEdge(h, b, f.arr, b);
    FromEdge(h, a, f.arr, b);
  }

  /** No call from `f` on fires. */
  ghost predicate Quiet(h: Heap, f: Frame) {
    forall fs :: CallStack(h, fs) && fs[0] == f ==> !FiresIn(h, fs[|fs| - 1])
  }

  lemma QuietStep(h: Heap, f: Frame, b: nat) returns (g: Frame)
    requires f.arr in h && b in h && Quiet(h, f) && Edge(h, f.arr, b, false)
    ensures Calls(h, f, g) && g.arr == b && Quiet(h, g)
  {
    var j: nat :| j < |h[f.arr].entries| && Visited(h[f.arr], j) && Leads(h[f.arr].entries[j].val, b, false);
    var data := h[f.arr].entries[j].val;
    assert CallStack(h, [f]) && !FiresIn(h, [f][0]);
    assert !Fires(h, f, j);
    g := Frame(Enter(f.marks, data), b, PlaceOf(data, Some((f.arr, j))));
    assert CallsAt(h, f, g, j);
    forall fs | CallStack(h, fs) && fs[0] == g
      ensures !FiresIn(h, fs[|fs| - 1])
    {
      Longer(h, f, fs);
      assert ([f] + fs)[|fs|] == fs[|fs| - 1];
    }
  }

  lemma Longer(h: Heap, f: Frame, fs: seq<Frame>)
    requires CallStack(h, fs) && Calls(h, f, fs[0]) && f.arr in h
    ensures CallStack(h, [f] + fs)
  {
    hide Calls;
    var gs := [f] + fs;
    forall i | 0 <= i < |gs| - 1
      ensures Calls(h, gs[i], gs[i + 1])
    {
      if i > 0 {
        assert Calls(h, fs[i - 1], fs[i]);
      }
    }
  }

  lemma EdgeInHeap(h: Heap, a: nat, b: nat)
    requires ValidHeap(h) && Edge(h, a, b, false)
    ensures b in h
  {
    assert ValidArray(h, h[a]);
  }

  lemma {:induction false} QuietAlong(h: Heap, f: Frame, p: seq<nat>, b: nat) returns (g: Frame)
    requires ValidHeap(h) && NoRefCycle(h) && f.arr in h && Quiet(h, f) && PathBetween(h, p, f.arr, b, false)
    ensures g.arr == b && b in h && Quiet(h, g)
    ensures if |p| == 1 then g == f else Measure(h, g) < Measure(h, f)
    decreases |p|
  {
    hide Quiet, NoRefCycle, ValidHeap, Measure, Calls;
    if |p| == 1 {
      g := f;
    } else {
      PathTail(h, p, f.arr, b);
      EdgeInHeap(h, f.arr, p[1]);
      var next := QuietStep(h, f, p[1]);
      CallLowersMeasure(h, f, next);
      g := QuietAlong(h, next, p[1..], b);
    }
  }

  lemma {:induction false} QuietNoCycle(h: Heap, f: Frame)
    requires ValidHeap(h) && NoRefCycle(h) && f.arr in h && Quiet(h, f)
    ensures !OnCycle(h, f.arr, false)
    decreases Measure(h, f)
  {
    hide Quiet, NoRefCycle, ValidHeap, Measure;
    if OnCycle(h, f.arr, false) {
      var p :| |p| >= 2 && PathBetween(h, p, f.arr, f.arr, false);
      var g := QuietAlong(h, f, p, f.arr);
      QuietNoCycle(h, g);
    }
  }

  /**
   * The guard writes a nil somewhere while an array is serialised if and only if a cycle can be
   * reached from it; in particular never on an acyclic graph, however much is shared.
   */
  lemma GuardFiresExactlyOnCycles(h: Heap, a: nat)
    requires ValidHeap(h) && NoRefCycle(h) && a in h
    ensures Quiet(h, Root(a)) <==> forall b :: From(h, a, b) ==> !OnCycle(h, b, false)
  {
    hide NoRefCycle, ValidHeap, OnCycle, Measure;
    if Quiet(h, Root(a)) {
      forall b | From(h, a, b)
        ensures !OnCycle(h, b, false)
      {
        var p := PathOf(h, a, b);
        var g := QuietAlong(h, Root(a), p, b);
        QuietNoCycle(h, g);
      }
    }
    if !Quiet(h, Root(a)) {
      var fs :| CallStack(h, fs) && fs[0] == Root(a) && FiresIn(h, fs[|fs| - 1]);
      var j: nat :| Fires(h, fs[|fs| - 1], j);
      StackSits(h, a, fs, |fs| - 1);
      var b := FiringIsCyclic(h, a, fs[|fs| - 1], j);
    }
  }

  lemma PathOf(h: Heap, a: nat, b: nat) returns (p: seq<nat>)
    requires From(h, a, b)
    ensures PathBetween(h, p, a, b, false)
  {
    if a == b {
      p := [a];
    } else {
      p :| |p| >= 2 && PathBetween(h, p, a, b, false);
    }
  }
}
