# Recursive triangle splitting — a Dafny model

The sketch draws a seed triangle whose edges are each subdivided recursively:
over a base segment `a`-`b` it erects a peak (the midpoint moved by `length`
times a normal vector), records the triangle `(a, b, peak)`, and, while the
depth bound allows, recurses into `a`-peak and peak-`b`. This project models
that geometry and recursion, `main.py` lines 36-136, in integer arithmetic and
proves its structural and geometric properties.

- `geometry.dfy`, module `Geometry`: `Point`, `Line`, `Triangle` as datatypes;
  `Midpoint`, `Ortho` (the orthogonal vector `(b.y - a.y, a.x - b.x)` that
  `normal` builds on main.py:85), `NormalComponent` (one component of the
  floor division on main.py:86), `Normal`, `PerpendicularLine`.
- `subdivision.dfy`, module `Subdivision`: `Subdivide`, the recursion written
  once for any peak rule; `Split`, the sketch's `split_recursion`, which uses
  the perpendicular-line peak (`Peak`, the `.b` of `perpendicular_line` on
  main.py:116-117) with one unchanged `length` at every level; and
  a call-tree datatype (`SplitTree`, `Build`, `PreOrder`, `Leaves`). The tree
  is an independent reference for the pre-order, count and leaf-chain facts.

## How the normal is modelled

`normal` floor-divides the orthogonal vector `(b.y-a.y, a.x-b.x)` by its
Euclidean norm. Each component `c` satisfies `c*c <= dx*dx + dy*dy`, so the
quotient lies in `[-1, 1]` and its floor is `-1` for `c < 0`, `1` when `c` is
the whole norm, and `0` otherwise. A positive component is the whole norm
exactly when the other component is zero. `NormalComponent` computes this in
integers from the component and the other component; `NormalComponentBySquares`
restates it with squares. `NormalComponentIsFloor` and `NormalIsFloorDivision`
prove it equal to `floor(c / norm)` for the real `norm > 0` with
`norm * norm` equal to the squared length.

Despite its name, `normal` is not a unit vector in general, and
`normal(a, b) == -normal(b, a)` does not always hold: the code floor-divides
each component by the norm, and the model does the same:

- For `(0,0)->(3,4)` the normal is `(0,-1)`, and reversed it is `(-1,0)`.
  Both are unit vectors, but neither is perpendicular to the base, and they
  are not opposite. For `(0,0)->(5,-5)` the normal is `(-1,-1)`, whose squared
  length is 2 (`NormalDiagonalExample`).
- For bases whose x decreases while y increases, the normal is the zero
  vector, and the peak is the midpoint itself (`NormalZeroIff`).
- For every axis-aligned base the normal is a unit vector perpendicular to
  the base, and reversing the base negates it (`NormalAxisAligned`). Over such a base the peak lies on the
  perpendicular through the floored midpoint at distance `|length|`
  (`PeakPerpendicularAxisAligned`). When the coordinate sum is odd, that
  perpendicular is half a unit off the true bisector.
- What holds for every base: for `length >= 0` the peak never falls on the
  far side of the orthogonal direction (`NormalSameSide`,
  `PerpendicularLine`, `PeakSide`). With a non-zero normal, a positive length
  puts it strictly on the orthogonal side and a negative length strictly on
  the far side (`PeakSide`). With a zero normal the peak is the midpoint.
- For every base and length, the peak never moves more than `|length|`
  along either axis (`PerpendicularLine`).

Python's `// 2` on the coordinate sums is floor division, which is Dafny's
`/ 2` because the divisor is positive.

## Model

| member | source | states |
|---|---|---|
| Geometry.Midpoint | main.py:81-82 | each coordinate is the floor of the average: `2*m <= a + b <= 2*m + 1` |
| Geometry.MidpointSymmetric | main.py:81-82 | the midpoint does not depend on the order of the two points |
| Geometry.MidpointBetween | main.py:81-82 | each midpoint coordinate lies between the two input coordinates; the midpoint of a point with itself is that point |
| Geometry.OrthoRotates | main.py:85 | the orthogonal vector is perpendicular to `b - a`, has the same squared length, and is zero only when `a == b` |
| Geometry.NormalComponent | main.py:86 | one component of `ortho // norm`: it is -1, 0 or 1, negative exactly when the orthogonal component is negative, and positive only when that component is positive |
| Geometry.Normal | main.py:84-86 | every component of the normal is -1, 0 or 1 |
| Geometry.NormalComponentBySquares | main.py:84-86 | a component's quotient reaches 1 exactly when the component is positive and its square is the whole squared norm |
| Geometry.NormalComponentIsFloor | main.py:84-86 | for a non-zero vector `(c, other)`, the integer rule equals `floor(c / norm)` for the real square root `norm` of `c*c + other*other` |
| Geometry.NormalIsFloorDivision | main.py:84-86 | for `a != b`, both normal components are the orthogonal components floor-divided by the Euclidean norm |
| Geometry.NormalZeroIff | main.py:84-86 | for `a != b` the normal is zero exactly when `b.y > a.y && a.x > b.x`; the further `a == b` disjunct is the model's zero-vector stand-in for the source's NaN |
| Geometry.NormalSameSide | main.py:84-86 | the normal's dot product with the orthogonal vector is never negative, and is positive exactly when the normal is non-zero |
| Geometry.NormalAxisAligned | main.py:84-86 | for an axis-aligned proper base, the normal is a unit vector perpendicular to the base, and reversing the base negates it |
| Geometry.NormalDiagonalExample | main.py:84-86 | `(0,0)->(10,0)` gives `(0,-1)`; `(0,0)->(3,4)` gives `(0,-1)` but reversed gives `(-1,0)`; `(0,0)->(5,-5)` gives `(-1,-1)`, of squared length 2; `(3,0)->(0,4)` gives zero |
| Geometry.PerpendicularLine | main.py:88-93 | the line starts at `midpoint(a, b)`; its end is displaced from the start by at most `|length|` along each axis; for `length >= 0` the displacement never points against the orthogonal vector |
| Geometry.PeakSide | main.py:88-93 | with a non-zero normal, the displacement lies strictly on the orthogonal side for `length > 0` and strictly on the far side for `length < 0` |
| Geometry.PeakPerpendicularAxisAligned | main.py:88-93 | over an axis-aligned proper base, the displacement is perpendicular to the base and has squared length `length * length` |
| Geometry.PeakDiagonalExample | main.py:88-93 | over `(0,0)-(3,4)` with length 5 the line is `(1,2)-(1,-3)`, and the displacement is not perpendicular to the base |
| Subdivision.Subdivide | main.py:116-136 | for any peak rule, the result is non-empty, starts with `Triangle(a, b, peak(a, b))` and its last triangle ends at `b` |
| Subdivision.Split | main.py:95-136 | the result is non-empty, its first triangle is `(a, b, perpendicular_line(a, b, length).b)`, and its last triangle's `base_c` is `b` |
| Subdivision.SplitTerminal | main.py:116-124 | if `depth >= max_depth`, including a negative bound with depth 0, the result is exactly the one triangle over `a`-`b` |
| Subdivision.SplitPreOrder | main.py:126-136 | below the bound, the result is the current triangle, then the whole result for `a`-peak, then the whole result for peak-`b`, at `depth + 1` with the same length |
| Subdivision.SubdivideIsPreOrder | main.py:126-136 | the flat result equals the pre-order walk of the call tree |
| Subdivision.SplitIsPreOrder | main.py:126-136 | the sketch's result equals the pre-order walk of its call tree |
| Subdivision.SubdivideOneLevel | main.py:126-136 | with budget one, the result is the root, the left child and the right child, in that order |
| Subdivision.SubdividePeaks | main.py:116-134 | every triangle of the result carries the peak the rule assigns to its own base |
| Subdivision.SplitPeaks | main.py:116-134 | every triangle returned has `peak_a == perpendicular_line(base_b, base_c, length).b`, with the same length at every level |
| Subdivision.SubdivideLength | main.py:119-136 | the result has `2^(max_depth - depth + 1) - 1` triangles within the bound, and 1 beyond it |
| Subdivision.SplitLength | main.py:119-136 | for `depth <= max_depth` the sketch returns `2^(max_depth - depth + 1) - 1` triangles |
| Subdivision.BuildShape | main.py:119-134 | the call tree is exactly `max_depth - depth` levels high and has `2^(max_depth - depth)` leaves |
| Subdivision.LeavesChain | main.py:129-134 | the leaf triangles' bases, in order, form a connected path from `a` to `b` |
| Subdivision.LeavesSubseq | main.py:126-136 | the leaf triangles occur in the pre-order walk in their left-to-right order |
| Subdivision.SplitLeavesChain | main.py:119-134 | the sketch's leaf triangles chain from `a` to `b` and occur in the returned list in that same order |
| Subdivision.BuildShift | main.py:119-134 | the call tree depends on `depth` and `max_depth` only through their difference |
| Subdivision.SubdivideShift | main.py:119-134 | only the remaining budget `max_depth - depth` matters: shifting both by `k` gives the same result |
| Subdivision.PeakExampleRoot | main.py:116-117 | the peak over `(0,0)-(10,0)` with length 5 is `(5,-5)` |
| Subdivision.PeakExampleLeft | main.py:116-117 | the peak over `(0,0)-(5,-5)` with length 5 is `(-3,-8)` |
| Subdivision.PeakExampleRight | main.py:116-117 | the peak over `(5,-5)-(10,0)` with length 5 is `(7,-8)` |
| Subdivision.SplitExampleTerminal | main.py:116-124 | `split((0,0), (10,0), 5, 0, 0)`, and the same with bound -1, is the single triangle `(0,0),(10,0),(5,-5)` |
| Subdivision.SplitExampleOneLevel | main.py:126-136 | `split((0,0), (10,0), 5, 0, 1)` is the three triangles with peaks `(5,-5)`, `(-3,-8)` and `(7,-8)` |

## Left out

- `setup` and `draw` (main.py:8-34, 138-158) are left out. They cover the py5 window, colour mode, frame rate, the mouse-driven length, the three-edge scene assembly, hue cycling and rasterisation, all of which are host-library I/O.
- `length` is an integer, matching the annotation of `split_recursion`. The setup value `peak_length = 100` (main.py:32) is never read: `draw` shadows it with the float `py5.mouse_y / 6` (main.py:139), and that float is passed on every call. `perpendicular_line` also annotates its length as a float (main.py:88). Float lengths are not modelled.
- Coordinates are exact integers. The source keeps them as numpy float64 values after the first level. With an integer length they stay integral, so only the float rounding of very large magnitudes is left out. That rounding includes the one in `np.linalg.norm`, which can round a non-square norm to an integer.
- Geometry.Normal: for `a == b` numpy yields NaN, and the NaN propagates into every coordinate computed from it. The model instead gives the zero vector there, so the recursion stays total. `NormalZeroIff`, `NormalSameSide`, `PeakSide` and the ensures of `PerpendicularLine` also hold at `a == b`, but there they describe only the model's zero vector; the source yields NaN.
- `split_recursion`'s defaults `depth = 0` and `max_depth = 3` are not modelled: `Split` takes both bounds explicitly, as `draw` does at each of its three calls (main.py:144-146).
- `variability_range` is passed down the recursion but never used, so it is not a parameter of the model.
- The `get` tuple accessors of `Point`, `Line` and `Triangle` are left out. The datatypes' own fields play their part.
