# Incremental Delaunay triangulation: the combinatorial core

This project models `SimpleDelaunay2D.computeTriangles` in Dafny and proves
properties of the model. That method is a Bowyer–Watson style triangulator
over an interleaved `float[]` buffer of `(x, y)` pairs. The model keeps
everything that is index and permutation bookkeeping:

- **Sort by x.** The explicit-stack quicksort over pairs
  (`quicksortPairs`, `quicksortPartition`) is modelled on a `seq<real>`.
- **Bounding box.** The min/max scan over the x and y values.
- **Super triangle.** Its three vertices are referenced as `end`, `end + 2`
  and `end + 4`.
- **Insertion step.** Each point goes through three phases:
  - the backward scan removes every triangle whose circumcircle contains
    the point and collects the removed triangles' directed edges;
  - the dedup pass cancels reversed edge pairs by marking the later copy
    with `-1`;
  - every surviving edge becomes a new triangle with the inserted point.
- **Final sweep.** Every triangle that touches a super-triangle vertex is
  dropped.

The geometry is left out. The circumcircle test is an uninterpreted
classifier `cls(pi, Tri(a, b, c))` returning `Inside | Complete | Incomplete`.
Vertex references are offsets into the coordinate buffer, exactly as in the
source. The live lists are modelled as in the source:

- `triangles` is a flat `seq<int>`, three references per triangle;
- `complete` is a `seq<bool>`, one flag per triangle;
- the edge buffer is a `seq<Edge>`, one element per pair of integers.

Modules:

- `Seqs`: order-preserving `Filter` and what it selects; `List.remove(int)`.
- `Mesh`: triangles, edges, flat/structured views, reference invariants.
- `Scan`: the backward scan of one insertion.
- `Dedup`: edge cancellation and the new fan of triangles. `Survivors` is
  the reference definition of the cancellation rule. `Boundary` is the
  geometric intent: the edges whose reverse is absent.
- `Triangulator`: one insertion, the insertion loop, the final sweep.
- `PairSort`, `Quicksort`: the pair partition and the stack-driven sort.
- `Extents`: the bounding-box scan.
- `Delaunay`: the public entry point.

## Model

| member | source | states |
|---|---|---|
| PairSort.Climb | src/delaunay2D/SimpleDelaunay2D.java:297-299 | The up-scan stops at the first x slot from `down` whose key exceeds the pivot, or at `up`; every slot it passes holds a key `<=` the pivot. |
| PairSort.Descend | src/delaunay2D/SimpleDelaunay2D.java:300-302 | The down-scan has no bound check, yet it stays within `[lower, up]`: the pivot slot itself stops it. It ends on a key `<=` the pivot, and every slot it passes holds a key `>` the pivot. |
| PairSort.Partition | src/delaunay2D/SimpleDelaunay2D.java:291-320 | The returned `up` lies in `[lower, upper]` with the parity of `lower`. The old pair at `lower` now sits at `up`. Keys before `up` are `<=` the pivot and keys after it are `>` the pivot. The multiset of `(x, y)` pairs of the range is unchanged, and nothing outside the range moves. |
| PairSort.SwapKeepsPairs | src/delaunay2D/SimpleDelaunay2D.java:303-311 | Exchanging x with x and y with y at two x slots permutes the pairs of the range. |
| Quicksort.QuicksortPairs | src/delaunay2D/SimpleDelaunay2D.java:259-289 | Afterwards the x values at the range's x slots are non-decreasing and the multiset of pairs is preserved. Every slot outside the range is untouched. The loop ends, so the stack drains, by a measure on the pending ranges. |
| Quicksort.SplitRange | src/delaunay2D/SimpleDelaunay2D.java:277-287 | The pivot slot `i` is an x slot of the popped range. The halves `(lower, i - 2)` and `(i + 2, upper)` are pushed in the order the source uses: the lower half first when `i - lower > upper - i`, otherwise the upper half first, so the smaller half (either one on a tie) ends on top. Partitioning and pushing keeps the stack invariant: ranges disjoint and within bounds, everything sorted except pairs of slots inside one pending range, and pairs preserved. It also lowers the termination measure. |
| Quicksort.PartitionKeeps | src/delaunay2D/SimpleDelaunay2D.java:277-287 | Given the partition's guarantees for the popped range, the stack with its two halves pushed satisfies the driver invariant again and holds fewer pending slots. |
| Quicksort.SortedAfter | src/delaunay2D/SimpleDelaunay2D.java:277-287 | After the partition, two slots are in order unless one of the halves or another pending range holds them both. Slots on opposite sides of the pivot, or one inside and one outside the popped range, are in order. |
| Quicksort.PushHalves | src/delaunay2D/SimpleDelaunay2D.java:281-287 | The pushed halves `(lower, i - 2)` and `(i + 2, upper)` are aligned ranges inside the sort, disjoint from each other and from the rest of the stack, and they hold fewer slots than the popped range. |
| Quicksort.HalvesPending | src/delaunay2D/SimpleDelaunay2D.java:281-287 | In either push order, the two halves hold exactly one slot fewer than the popped range: the pivot slot. |
| Quicksort.PopTrivial | src/delaunay2D/SimpleDelaunay2D.java:272-275 | Popping a range with at most one x slot keeps the invariant. |
| Extents.ComputeExtents | src/delaunay2D/SimpleDelaunay2D.java:63-82 | Seeded from the first point of the range: every x lies in `[xmin, xmax]` and every y in `[ymin, ymax]`. Each of the four bounds is the coordinate of some point of the range, and the result equals the fold `Fold`. |
| Extents.Fold | src/delaunay2D/SimpleDelaunay2D.java:66-81 | The loop read as a fold. The result contains the start box and every included point. Each bound is the start box's or a coordinate of an included point. |
| Extents.ScanPoints | src/delaunay2D/SimpleDelaunay2D.java:66-81 | The loop, stepping `i` by two and reading x at `i` and y at `i + 1`, computes the fold of the points after the first, from the given start box. |
| Extents.AsWrittenAtZero | src/delaunay2D/SimpleDelaunay2D.java:64-82 | With offset 0, the seed from `points[0]`, `points[1]` is the first point, so the scan as written contains every point and attains every bound. |
| Extents.AsWrittenOffsetMisses | src/delaunay2D/SimpleDelaunay2D.java:64-65 | With offset 2 the scan as written returns the box `[1,5] x [1,5]` for `(5,5),(0,0),(1,1)`: it neither contains the point `(0,0)` nor attains its bounds within the range. |
| Scan.ScanStep | src/delaunay2D/SimpleDelaunay2D.java:112-165 | The backward scan that removes by index leaves exactly the snapshot entries the classifier does not call INSIDE, in their original order. The edges pushed are those of the removed triangles, three per triangle as `(p1,p2),(p2,p3),(p3,p1)`, later triangles first. A COMPLETE verdict changes only the snapshot copy. |
| Scan.ScanVisit | src/delaunay2D/SimpleDelaunay2D.java:115-162 | One visit of the backward scan at `triangleIndex = 3m - 1`: a flagged triangle is skipped, an INSIDE one is removed from the live lists with its three edges pushed, a COMPLETE one only has its snapshot flag set. The unvisited prefix stays untouched and the visited suffix grows by one snapshot triangle. |
| Scan.RemovedEdgesCount | src/delaunay2D/SimpleDelaunay2D.java:150-156 | The buffer holds exactly three edges per removed triangle. |
| Scan.RemovedEdgesExact | src/delaunay2D/SimpleDelaunay2D.java:150-156 | An edge is in the buffer iff it is an edge of a triangle the scan removes. |
| Seqs.FilterSelects | src/delaunay2D/SimpleDelaunay2D.java:112-165 | The kept entries are exactly the entries at the accepted positions, in ascending position order: a triangle is removed iff it is INSIDE, and the others keep their relative order. |
| Dedup.CancelReversed | src/delaunay2D/SimpleDelaunay2D.java:178-184 | The inner loop marks with `-1` the first reference of exactly the later edges that reverse edge `i`. Second references and earlier edges stay unchanged, and `skip` is set iff such an edge exists. |
| Dedup.DedupEdge | src/delaunay2D/SimpleDelaunay2D.java:168-192 | One turn of the outer loop. A marked edge is passed over. An unmarked edge with a later unmarked reverse produces nothing, and all such reverses become marked. Any other unmarked edge appends one triangle `(a, b, pointIndex)` and one `false` flag. The emitted edges plus the survivors of the unmarked rest always equal `Survivors` of the whole buffer. |
| Dedup.DedupStep | src/delaunay2D/SimpleDelaunay2D.java:167-194 | After the pass, the old triangles and flags are unchanged in front. Behind them, the new triangles are the fan of `Survivors(edges)` over the new point, in buffer order, each with a `false` flag. |
| Dedup.VisitLive | src/delaunay2D/SimpleDelaunay2D.java:176-187 | Marking the reverses of edge `i` removes exactly the copies of its reverse from the unmarked rest. `skip` holds iff the unmarked rest contains its reverse. |
| Dedup.VisitMarks | src/delaunay2D/SimpleDelaunay2D.java:178-184 | Setting the first reference to `-1` on exactly the later hits drops exactly the copies of the reverse from the unmarked edges behind `i`. |
| Dedup.SurvivorsClean | src/delaunay2D/SimpleDelaunay2D.java:169-170 | When the buffer has no duplicate directed edge and no loop (as in a consistently oriented mesh), the cancellation rule keeps exactly the edges whose reverse is absent: the boundary of the removed region. |
| Triangulator.InsertPoint | src/delaunay2D/SimpleDelaunay2D.java:107-194 | One insertion keeps `|triangles| == 3 * |complete|` and every flag `false`. Every reference stays an earlier even offset or a super vertex, distinct within its triangle, now admitting `pointIndex`. The kept triangles stay in front, in order, followed by the fan of the surviving edges (the boundary edges for a clean buffer). The edge buffer ends empty. |
| Triangulator.InsertAll | src/delaunay2D/SimpleDelaunay2D.java:101-194 | Seeded with the super triangle and one `false` flag, inserting every point at offsets 0, 2, ..., end - 2 keeps three references per flag and every flag false. Every triangle joins three distinct references, each an input point or a super vertex. |
| Triangulator.RemovedEdgesOk | src/delaunay2D/SimpleDelaunay2D.java:150-156 | Every pushed edge joins two distinct valid references. |
| Triangulator.DedupLive | src/delaunay2D/SimpleDelaunay2D.java:189-192 | After the dedup the reference invariant holds for `pointIndex + 2`: each new triangle joins an edge of distinct earlier references to the fresh point. |
| Triangulator.FinalSweep | src/delaunay2D/SimpleDelaunay2D.java:198-207 | The backward sweep that removes by index keeps exactly the triangles with no reference `>= end`, in their original order. |
| Triangulator.SweepVisit | src/delaunay2D/SimpleDelaunay2D.java:200-205 | One visit of the sweep removes the triangle iff one of its references is `>= end`. The visited suffix grows by one snapshot triangle, filtered. |
| Triangulator.Triangulate | src/delaunay2D/SimpleDelaunay2D.java:101-207 | Starting from the super triangle `(end, end+2, end+4)` with one `false` flag, after every point and the sweep each output triangle has three distinct even offsets below `end`. With one or two points the result is empty. |
| Delaunay.SortUnlessSorted | src/delaunay2D/SimpleDelaunay2D.java:59-61 | When `sorted` is false the buffer comes back sorted by x with its pairs permuted. Otherwise it is unchanged. |
| Delaunay.ComputeTriangles | src/delaunay2D/SimpleDelaunay2D.java:55-209 | The entry point with offset 0 and `count` the whole buffer. The returned buffer is a pair permutation of the input, sorted unless `sorted`. The box contains and attains the points. The output triangles are triples of distinct real offsets, and there are none for one or two points. |

## Left out

- `circumCircle` is single-precision arithmetic with a fixed epsilon. It is a classifier parameter. The source reads the coordinates of the point and of the three triangle vertices (including the super-triangle buffer) and passes them to `circumCircle`; the model passes the vertex references to `cls` instead, so that lookup is folded into `cls`.
- The super-triangle coordinates are float arithmetic with a factor of 20. Only the vertex references `end`, `end + 2` and `end + 4` are modelled. The computed box is returned but feeds nothing else.
- `getTriangulation` is float casts and console output. It indexes `Point[]` with offsets that refer to the sorted buffer.
- `getDelaunay` and `DelaunayArea.fromConnected` are stubs.
- The data holders (`Point`, `Graph`, `GraphEdge`, `DelaunayGraph2D`, `DelaunayInput`) are left out.
- The tests only print.
- The triangulation is modelled for offset 0 only, which is what both public overloads pass. The extents scan alone is modelled for any offset, as written and corrected; see Findings.
- Empty or odd-length input is excluded. The source faults on `points[0]` for an empty buffer and reads past `end` for an odd count.
- Reuse across calls is left out: the model starts each run from empty lists, while the source clears `complete` but never `triangles`.
- NaN keys are left out. Coordinates are reals, where every comparison is total.
- The Java `Stack<Integer>` holding bounds in pairs is a sequence of `Range(lo, hi)`.
- The Java `List<Integer>` edge buffer, two integers per edge, is a sequence of `Edge(a, b)`.
- Java `int` is 32-bit, while the model's offsets, `end + 4` and the list sizes are unbounded integers. `end + 4` wraps once `end` exceeds 2^31 - 5, that is for a buffer within a few entries of Java's largest array; the model does not model that wrap-around.
- Quicksort.QuicksortPairs: the draining stack is the loop's exit condition and is not returned.

## Findings

| source | as written | input that shows it | evidently intended | confidence | as-written member | corrected member |
|---|---|---|---|---|---|---|
| src/delaunay2D/SimpleDelaunay2D.java:64-65 | The bounding box is seeded from `points[0]`, `points[1]` whatever `offset` is, and the loop starts at `offset + 2`. | Buffer `(5,5),(0,0),(1,1)` with offset 2 and count 4 gives the box `[1,5] x [1,5]`. That box does not contain the point `(0,0)`, and no point of the range has x = 5. | Seed from `points[offset]`, `points[offset + 1]`. | not executed | Extents.AsWrittenOffsetMisses | Extents.ComputeExtents |
