/** The depth-bounded recursive subdivision of one segment into triangles:
    each call erects a peak over its base and, below the depth bound,
    recurses into the two halves base-start to peak and peak to base-end. */
module Subdivision {
  import opened Geometry

  /** The peak erected over the base `a`-`b`: the end of the perpendicular
      line through the base's midpoint. */
  function Peak(a: Point, b: Point, length: int): Point {
    PerpendicularLine(a, b, length).b
  }

  /** How a subdivision places the peak over a base. */
  type PeakRule = (Point, Point) -> Point

  /** The rule of the sketch: the same `length` at every level. */
  function PeakOf(length: int): PeakRule {
    (p: Point, q: Point) => Peak(p, q, length)
  }

  /** The recursion of one subdivision for a given peak rule, in pre-order:
      the triangle over `a`-`b`, then everything split off `a`-peak, then
      everything split off peak-`b`. It stops once `depth` reaches
      `maxDepth`, so a negative `maxDepth` behaves as zero. */
  function Subdivide(peakOf: PeakRule, a: Point, b: Point, depth: int, maxDepth: int): (ts: seq<Triangle>)
    ensures |ts| >= 1
    ensures ts[0] == Triangle(a, b, peakOf(a, b))
    ensures ts[|ts| - 1].baseC == b
    decreases maxDepth - depth
  {
    var peak := peakOf(a, b);
    if depth >= maxDepth then
      [Triangle(a, b, peak)]
    else
      [Triangle(a, b, peak)]
        + Subdivide(peakOf, a, peak, depth + 1, maxDepth)
        + Subdivide(peakOf, peak, b, depth + 1, maxDepth)
  }

  /** The sketch's subdivision: the peak rule is the perpendicular line
      over each base with one unchanged `length`. The first triangle stands
      on `a`-`b` and the last one ends at `b`. */
  function Split(a: Point, b: Point, length: int, depth: int, maxDepth: int): (ts: seq<Triangle>)
    ensures |ts| >= 1
    ensures ts[0] == Triangle(a, b, PerpendicularLine(a, b, length).b)
    ensures ts[|ts| - 1].baseC == b
  {
    Subdivide(PeakOf(length), a, b, depth, maxDepth)
  }

  // ---------------------------------------------------------------------
  // The call tree as an independent reference

  /** The call tree of one subdivision: a leaf for a call at or beyond the
      depth bound, a node with its two sub-calls otherwise. */
  datatype SplitTree =
    | Leaf(t: Triangle)
    | Node(t: Triangle, left: SplitTree, right: SplitTree)

  function Build(peakOf: PeakRule, a: Point, b: Point, depth: int, maxDepth: int): SplitTree
    decreases maxDepth - depth
  {
    var peak := peakOf(a, b);
    if depth >= maxDepth then
      Leaf(Triangle(a, b, peak))
    else
      Node(Triangle(a, b, peak),
           Build(peakOf, a, peak, depth + 1, maxDepth),
           Build(peakOf, peak, b, depth + 1, maxDepth))
  }

  /** Node first, then its left subtree, then its right subtree. */
  function PreOrder(tr: SplitTree): seq<Triangle> {
    match tr
    case Leaf(t) => [t]
    case Node(t, l, r) => [t] + PreOrder(l) + PreOrder(r)
  }

  /** The leaf triangles, left to right. */
  function Leaves(tr: SplitTree): seq<Triangle> {
    match tr
    case Leaf(t) => [t]
    case Node(_, l, r) => Leaves(l) + Leaves(r)
  }

  /** Number of edges from the root to the deepest leaf. */
  function Height(tr: SplitTree): nat {
    match tr
    case Leaf(_) => 0
    case Node(_, l, r) =>
      var hl, hr := Height(l), Height(r);
      1 + if hl < hr then hr else hl
  }

  function Pow2(n: nat): (p: nat)
    ensures p >= 1
  {
    if n == 0 then 1 else 2 * Pow2(n - 1)
  }

  /** The bases of `ts` join up, in order, into a path from `a` to `b`. */
  predicate Chain(ts: seq<Triangle>, a: Point, b: Point) {
    && |ts| > 0
    && ts[0].baseB == a
    && ts[|ts| - 1].baseC == b
    && forall i :: 0 <= i < |ts| - 1 ==> ts[i].baseC == ts[i + 1].baseB
  }

  lemma ChainConcat(s: seq<Triangle>, t: seq<Triangle>, a: Point, p: Point, b: Point)
    requires Chain(s, a, p) && Chain(t, p, b)
    ensures Chain(s + t, a, b)
  {
    var st := s + t;
    forall i | 0 <= i < |st| - 1
      ensures st[i].baseC == st[i + 1].baseB
    {
      if i < |s| - 1 {
        assert st[i] == s[i] && st[i + 1] == s[i + 1];
      } else if i == |s| - 1 {
        assert st[i] == s[|s| - 1] && st[i + 1] == t[0];
      } else {
        assert st[i] == t[i - |s|] && st[i + 1] == t[i - |s| + 1];
      }
    }
  }

  // ---------------------------------------------------------------------
  // Properties of the subdivision, for every peak rule

  /** The flat result is the pre-order walk of the call tree. */
  lemma {:induction false} SubdivideIsPreOrder(peakOf: PeakRule, a: Point, b: Point, depth: int, maxDepth: int)
    ensures Subdivide(peakOf, a, b, depth, maxDepth) == PreOrder(Build(peakOf, a, b, depth, maxDepth))
    decreases maxDepth - depth
  {
    if depth < maxDepth {
      var peak := peakOf(a, b);
      SubdivideIsPreOrder(peakOf, a, peak, depth + 1, maxDepth);
      SubdivideIsPreOrder(peakOf, peak, b, depth + 1, maxDepth);
    }
  }

  /** The call tree below a call with budget `maxDepth - depth` is complete:
      exactly that high, with 2^(maxDepth - depth) leaves. */
  lemma {:induction false} BuildShape(peakOf: PeakRule, a: Point, b: Point, depth: int, maxDepth: int)
    requires depth <= maxDepth
    ensures Height(Build(peakOf, a, b, depth, maxDepth)) == maxDepth - depth
    ensures |Leaves(Build(peakOf, a, b, depth, maxDepth))| == Pow2(maxDepth - depth)
    decreases maxDepth - depth
  {
    if depth < maxDepth {
      var peak := peakOf(a, b);
      BuildShape(peakOf, a, peak, depth + 1, maxDepth);
      BuildShape(peakOf, peak, b, depth + 1, maxDepth);
    }
  }

  /** A call with budget `maxDepth - depth >= 0` yields
      2^(maxDepth - depth + 1) - 1 triangles; beyond the bound it yields one. */
  lemma {:induction false} SubdivideLength(peakOf: PeakRule, a: Point, b: Point, depth: int, maxDepth: int)
    ensures |Subdivide(peakOf, a, b, depth, maxDepth)|
         == if depth <= maxDepth then Pow2(maxDepth - depth + 1) - 1 else 1
    decreases maxDepth - depth
  {
    if depth < maxDepth {
      var peak := peakOf(a, b);
      SubdivideLength(peakOf, a, peak, depth + 1, maxDepth);
      SubdivideLength(peakOf, peak, b, depth + 1, maxDepth);
    }
  }

  /** The leaf triangles' bases, in order, form an unbroken path from `a`
      to `b`. */
  lemma {:induction false} LeavesChain(peakOf: PeakRule, a: Point, b: Point, depth: int, maxDepth: int)
    ensures Chain(Leaves(Build(peakOf, a, b, depth, maxDepth)), a, b)
    decreases maxDepth - depth
  {
    if depth < maxDepth {
      var peak := peakOf(a, b);
      LeavesChain(peakOf, a, peak, depth + 1, maxDepth);
      LeavesChain(peakOf, peak, b, depth + 1, maxDepth);
      ChainConcat(Leaves(Build(peakOf, a, peak, depth + 1, maxDepth)),
                  Leaves(Build(peakOf, peak, b, depth + 1, maxDepth)), a, peak, b);
    }
  }

  /** `s` can be obtained from `t` by deleting elements, keeping the
      order of the rest. */
  predicate Subseq(s: seq<Triangle>, t: seq<Triangle>)
    decreases |t|
  {
    || |s| == 0
    || (&& |t| > 0
        && ((s[0] == t[0] && Subseq(s[1..], t[1..])) || Subseq(s, t[1..])))
  }

  lemma SubseqSkip(x: Triangle, s: seq<Triangle>, t: seq<Triangle>)
    requires Subseq(s, t)
    ensures Subseq(s, [x] + t)
  {
    assert ([x] + t)[1..] == t;
  }

  /** Subsequences of two parts give a subsequence of the whole. */
  lemma {:induction false} SubseqConcat(s1: seq<Triangle>, t1: seq<Triangle>, s2: seq<Triangle>, t2: seq<Triangle>)
    requires Subseq(s1, t1) && Subseq(s2, t2)
    ensures Subseq(s1 + s2, t1 + t2)
    decreases |t1|
  {
    if |t1| == 0 {
      assert s1 == [] && s1 + s2 == s2 && t1 + t2 == t2;
    } else {
      assert t1 + t2 == [t1[0]] + (t1[1..] + t2);
      if |s1| > 0 && s1[0] == t1[0] && Subseq(s1[1..], t1[1..]) {
        SubseqConcat(s1[1..], t1[1..], s2, t2);
        assert (s1 + s2)[1..] == s1[1..] + s2;
        assert (t1 + t2)[1..] == t1[1..] + t2;
      } else {
        SubseqConcat(s1, t1[1..], s2, t2);
        SubseqSkip(t1[0], s1 + s2, t1[1..] + t2);
      }
    }
  }

  /** The leaves appear in the pre-order walk in their left-to-right
      order. */
  lemma {:induction false} LeavesSubseq(tr: SplitTree)
    ensures Subseq(Leaves(tr), PreOrder(tr))
  {
    match tr
    case Leaf(t) =>
      assert [t][1..] == [];
    case Node(t, l, r) =>
      LeavesSubseq(l);
      LeavesSubseq(r);
      SubseqConcat(Leaves(l), PreOrder(l), Leaves(r), PreOrder(r));
      SubseqSkip(t, Leaves(tr), PreOrder(l) + PreOrder(r));
      assert PreOrder(tr) == [t] + (PreOrder(l) + PreOrder(r));
  }

  /** One unfolding of `Subdivide` below the depth bound. */
  lemma SubdivideStep(peakOf: PeakRule, a: Point, b: Point, depth: int, maxDepth: int)
    requires depth < maxDepth
    ensures Subdivide(peakOf, a, b, depth, maxDepth)
         == [Triangle(a, b, peakOf(a, b))]
            + Subdivide(peakOf, a, peakOf(a, b), depth + 1, maxDepth)
            + Subdivide(peakOf, peakOf(a, b), b, depth + 1, maxDepth)
  {
  }

  /** Every triangle of the result carries the peak the rule assigns to
      its own base. */
  lemma {:induction false} SubdividePeaks(peakOf: PeakRule, a: Point, b: Point, depth: int, maxDepth: int)
    ensures var ts := Subdivide(peakOf, a, b, depth, maxDepth);
            forall i :: 0 <= i < |ts| ==> ts[i].peakA == peakOf(ts[i].baseB, ts[i].baseC)
    decreases maxDepth - depth
  {
    if depth < maxDepth {
      var peak := peakOf(a, b);
      var l := Subdivide(peakOf, a, peak, depth + 1, maxDepth);
      var r := Subdivide(peakOf, peak, b, depth + 1, maxDepth);
      SubdividePeaks(peakOf, a, peak, depth + 1, maxDepth);
      SubdividePeaks(peakOf, peak, b, depth + 1, maxDepth);
      SubdivideStep(peakOf, a, b, depth, maxDepth);
      var ts := [Triangle(a, b, peak)] + l + r;
      forall i | 0 <= i < |ts|
        ensures ts[i].peakA == peakOf(ts[i].baseB, ts[i].baseC)
      {
        if i == 0 {
        } else if i <= |l| {
          assert ts[i] == l[i - 1];
        } else {
          assert ts[i] == r[i - 1 - |l|];
        }
      }
    }
  }

  /** The call tree depends on the two bounds only through their difference. */
  lemma {:induction false} BuildShift(peakOf: PeakRule, a: Point, b: Point, depth: int, maxDepth: int, k: int)
    ensures Build(peakOf, a, b, depth, maxDepth) == Build(peakOf, a, b, depth + k, maxDepth + k)
    decreases maxDepth - depth
  {
    if depth < maxDepth {
      var peak := peakOf(a, b);
      BuildShift(peakOf, a, peak, depth + 1, maxDepth, k);
      BuildShift(peakOf, peak, b, depth + 1, maxDepth, k);
      assert depth + 1 + k == depth + k + 1;
    }
  }

  /** Only the remaining budget `maxDepth - depth` matters: shifting both
      bounds by the same amount gives the same triangles. */
  lemma SubdivideShift(peakOf: PeakRule, a: Point, b: Point, depth: int, maxDepth: int, k: int)
    ensures Subdivide(peakOf, a, b, depth, maxDepth) == Subdivide(peakOf, a, b, depth + k, maxDepth + k)
  {
    SubdivideIsPreOrder(peakOf, a, b, depth, maxDepth);
    SubdivideIsPreOrder(peakOf, a, b, depth + k, maxDepth + k);
    BuildShift(peakOf, a, b, depth, maxDepth, k);
  }

  // ---------------------------------------------------------------------
  // The same properties for the sketch's subdivision

  /** At or beyond the depth bound the result is the single triangle over
      the segment with its perpendicular-line peak; in particular any
      negative bound with depth 0 acts as zero. */
  lemma SplitTerminal(a: Point, b: Point, length: int, depth: int, maxDepth: int)
    requires depth >= maxDepth
    ensures Split(a, b, length, depth, maxDepth)
         == [Triangle(a, b, PerpendicularLine(a, b, length).b)]
  {
  }

  /** Below the bound the result is the triangle over `a`-`b`, then the
      whole result for `a`-peak, then the whole result for peak-`b`, one
      level deeper and with the same length. */
  lemma SplitPreOrder(a: Point, b: Point, length: int, depth: int, maxDepth: int)
    requires depth < maxDepth
    ensures var peak := PerpendicularLine(a, b, length).b;
            Split(a, b, length, depth, maxDepth)
              == [Triangle(a, b, peak)]
                 + Split(a, peak, length, depth + 1, maxDepth)
                 + Split(peak, b, length, depth + 1, maxDepth)
  {
  }

  /** Every triangle returned, at every level, carries the peak of the
      perpendicular line over its own base, with the same `length`. */
  lemma SplitPeaks(a: Point, b: Point, length: int, depth: int, maxDepth: int)
    ensures var ts := Split(a, b, length, depth, maxDepth);
            forall i :: 0 <= i < |ts| ==>
              ts[i].peakA == PerpendicularLine(ts[i].baseB, ts[i].baseC, length).b
  {
    SplitIsSubdivide(a, b, length, depth, maxDepth);
    SubdividePeaks(PeakOf(length), a, b, depth, maxDepth);
  }

  lemma SplitIsSubdivide(a: Point, b: Point, length: int, depth: int, maxDepth: int)
    ensures Split(a, b, length, depth, maxDepth) == Subdivide(PeakOf(length), a, b, depth, maxDepth)
  {
  }

  /** The triangle count: 2^(maxDepth - depth + 1) - 1 for a call within
      the bound. */
  lemma SplitLength(a: Point, b: Point, length: int, depth: int, maxDepth: int)
    requires depth <= maxDepth
    ensures |Split(a, b, length, depth, maxDepth)| == Pow2(maxDepth - depth + 1) - 1
  {
    SubdivideLength(PeakOf(length), a, b, depth, maxDepth);
  }

  /** The sketch's result is the pre-order walk of its call tree. */
  lemma SplitIsPreOrder(a: Point, b: Point, length: int, depth: int, maxDepth: int)
    ensures Split(a, b, length, depth, maxDepth) == PreOrder(Build(PeakOf(length), a, b, depth, maxDepth))
  {
    SplitIsSubdivide(a, b, length, depth, maxDepth);
    SubdivideIsPreOrder(PeakOf(length), a, b, depth, maxDepth);
  }

  /** The leaves of the sketch's call tree chain from `a` to `b`, and they
      appear among the triangles returned in that same order. */
  lemma SplitLeavesChain(a: Point, b: Point, length: int, depth: int, maxDepth: int)
    ensures var tr := Build(PeakOf(length), a, b, depth, maxDepth);
            && Chain(Leaves(tr), a, b)
            && Subseq(Leaves(tr), Split(a, b, length, depth, maxDepth))
  {
    var tr := Build(PeakOf(length), a, b, depth, maxDepth);
    LeavesChain(PeakOf(length), a, b, depth, maxDepth);
    SplitIsPreOrder(a, b, length, depth, maxDepth);
    LeavesSubseq(tr);
  }

  // ---------------------------------------------------------------------
  // Worked examples over the base (0,0)-(10,0) with length 5

  lemma PeakExampleRoot()
    ensures Peak(Point(0, 0), Point(10, 0), 5) == Point(5, -5)
  {
    assert Ortho(Point(0, 0), Point(10, 0)) == Point(0, -10);
    assert Normal(Point(0, 0), Point(10, 0)) == Point(0, -1);
    assert Midpoint(Point(0, 0), Point(10, 0)) == Point(5, 0);
    assert Scale(5, Point(0, -1)) == Point(0, -5);
  }

  lemma PeakExampleLeft()
    ensures Peak(Point(0, 0), Point(5, -5), 5) == Point(-3, -8)
  {
    assert Ortho(Point(0, 0), Point(5, -5)) == Point(-5, -5);
    assert Normal(Point(0, 0), Point(5, -5)) == Point(-1, -1);
    assert Midpoint(Point(0, 0), Point(5, -5)) == Point(2, -3);
    assert Scale(5, Point(-1, -1)) == Point(-5, -5);
  }

  lemma PeakExampleRight()
    ensures Peak(Point(5, -5), Point(10, 0), 5) == Point(7, -8)
  {
    assert Ortho(Point(5, -5), Point(10, 0)) == Point(5, -5);
    assert NormalComponent(5, -5) == 0;
    assert Normal(Point(5, -5), Point(10, 0)) == Point(0, -1);
    assert Midpoint(Point(5, -5), Point(10, 0)) == Point(7, -3);
    assert Scale(5, Point(0, -1)) == Point(0, -5);
  }

  /** With depth bound 0, or any negative bound, the base (0,0)-(10,0)
      yields the single triangle with peak (5,-5). */
  lemma SplitExampleTerminal()
    ensures Split(Point(0, 0), Point(10, 0), 5, 0, 0)
         == [Triangle(Point(0, 0), Point(10, 0), Point(5, -5))]
    ensures Split(Point(0, 0), Point(10, 0), 5, 0, -1)
         == [Triangle(Point(0, 0), Point(10, 0), Point(5, -5))]
  {
    PeakExampleRoot();
    SplitTerminal(Point(0, 0), Point(10, 0), 5, 0, 0);
    SplitTerminal(Point(0, 0), Point(10, 0), 5, 0, -1);
  }

  /** With depth bound 1 the same base yields three triangles: the root,
      then the triangle over (0,0)-(5,-5), then the one over (5,-5)-(10,0). */
  lemma SplitExampleOneLevel()
    ensures Split(Point(0, 0), Point(10, 0), 5, 0, 1)
         == [Triangle(Point(0, 0), Point(10, 0), Point(5, -5)),
             Triangle(Point(0, 0), Point(5, -5), Point(-3, -8)),
             Triangle(Point(5, -5), Point(10, 0), Point(7, -8))]
  {
    PeakExampleRoot();
    PeakExampleLeft();
    PeakExampleRight();
    SplitIsSubdivide(Point(0, 0), Point(10, 0), 5, 0, 1);
    SubdivideOneLevel(PeakOf(5), Point(0, 0), Point(10, 0));
  }

  /** One level of subdivision, for any peak rule. */
  lemma SubdivideOneLevel(peakOf: PeakRule, a: Point, b: Point)
    ensures var p := peakOf(a, b);
            Subdivide(peakOf, a, b, 0, 1)
              == [Triangle(a, b, p), Triangle(a, p, peakOf(a, p)), Triangle(p, b, peakOf(p, b))]
  {
    var p := peakOf(a, b);
    SubdivideStep(peakOf, a, b, 0, 1);
    ThreeSingletons(Triangle(a, b, p), Triangle(a, p, peakOf(a, p)), Triangle(p, b, peakOf(p, b)));
  }

  lemma ThreeSingletons<T>(x: T, y: T, z: T)
    ensures [x] + [y] + [z] == [x, y, z]
  {
  }
}
