# geom3 to STEP B-rep topology, in Dafny

This project models `geom3ToBrep`, the core of a converter from JSCAD `geom3` polygon meshes to STEP
boundary-representation entities. It also models the vector helpers in `lib/vec-math.ts` that the
converter uses.

The conversion runs in these steps:

1. It reads each polygon's vertex descriptors as positions (`extractPosition`) and applies the
   mesh's optional 4x4 transform.
2. It splits polygon edges at T-junctions: a mesh vertex that lies strictly inside an edge is
   inserted into that edge. Every vertex of the mesh is tested, the polygon's own included,
   although the comment above `splitTJunctions` speaks of vertices "from another polygon"; the
   model follows the code.
3. It deduplicates cyclically consecutive positions by their vertex key.
4. It turns every polygon that keeps three positions into an `ADVANCED_FACE`.
   - The face lies on a `PLANE` through the polygon's first three vertices.
   - It is bounded by a closed `EDGE_LOOP` of `ORIENTED_EDGE`s.
   - Each oriented edge runs over an `EDGE_CURVE` on a `LINE`.
   - The vertices and edge curves are shared between faces through two caches. The vertex cache is
     keyed by `vertexKey`, the comma-joined `toFixed(7)` texts of the three coordinates. Two
     positions share a key when every coordinate rounds to the same magnitude with the same sign;
     a coordinate that rounds to zero keeps its minus sign, so -1e-8 and 1e-8 get different keys
     (see "Findings"). The edge cache is keyed by the canonical key of the unordered vertex-key
     pair.

Modules and what they hold:

| module | file | contents |
|---|---|---|
| `VecMath` | `vec_math.dfy` | `subtract`, `cross`, `normalize` and `applyTransform`, over exact reals |
| `Keys` | `vertex_key.dfy` | `vertexKey` as written and corrected, with the `toFixed(7)` rendering written out, and `canonicalEdgeKey` |
| `StringOrder` | `string_order.dfy` | JavaScript's string `<`, proved a strict total order |
| `Extract` | `extract.dfy` | the input descriptors, `extractPosition` and the gathering of `rawPolygons` |
| `TJunctions` | `t_junctions.dfy` | `pointOnSegment` and `splitTJunctions` |
| `Dedup` | `dedup.dfy` | the removal of cyclically consecutive duplicates |
| `Step` | `step.dfy` | the STEP entities and the append-only repository |
| `Topology` | `topology.dfy` | the converter state and its invariant `Valid` |
| `Builder` | `builder.dfy` | the per-polygon steps |
| `Convert` | `convert.dfy` | the whole conversion |
| `Common` | `common.dfy` | `Option` and subsequences |
| `Indices` | `indices.dfy` | increasing index sequences, which say which elements an operation picks |

The `Topology.Valid` invariant says three things:

- The caches are sound.
- Every created vertex and edge curve is the cached one for its key.
- Every created loop is closed, and every created face is well formed.

From `Valid` the model proves what the converter is for:

- No two created vertices share a key.
- No two created edge curves join the same pair of keys.
- Every face's loop chains its oriented edges head to tail, all the way round.
- Every loop edge of a face, and its edge curve, is created by the conversion itself, whatever the
  caller's repository already held. Two loop edges joining the same two vertices therefore share one
  edge curve, and their flags agree exactly when they run the same way.

Some choices in the model:

- `Math.hypot` is a parameter `hypot: Vec3 -> real`. It has no exact counterpart over the reals.
- Vertex and edge keys are strings. `Keys.VertexKeyAsWritten` is the source's `vertexKey`, with
  `toFixed(7)` written out over exact reals below 1e21 (see "Left out"). `Keys.VertexKey` is the
  corrected key, which prints no sign on a coordinate that rounds to zero.
- The generic operations take the key function as a parameter. `Convert.Geom3ToBrep` instantiates
  it with the source's key. `Convert.Geom3ToBrepWelded` is the same conversion with the corrected
  key.

## Model

| member | source | states |
|---|---|---|
| VecMath.Subtract | lib/vec-math.ts:3-7 | adding the difference back to `b` gives `a`; the difference of equal vectors is zero |
| VecMath.Cross | lib/vec-math.ts:9-13 | the cross product is orthogonal to both arguments, and zero for equal arguments |
| VecMath.LengthSq | lib/geom3-to-brep.ts:74 | the squared length is non-negative, is the dot product with itself, and is zero at the origin |
| VecMath.Normalize | lib/vec-math.ts:15-19 | a zero length gives the +Z axis; otherwise the result scaled by the length is the input |
| VecMath.NormalizeIsUnit | lib/vec-math.ts:15-19 | a non-zero vector divided by its true length has unit length |
| VecMath.NormalizeKeepsOrthogonality | lib/vec-math.ts:15-19 | normalising keeps every orthogonality of the vector |
| VecMath.ApplyTransform | lib/vec-math.ts:21-33 | without a 16-entry matrix the vector is unchanged; otherwise it is the homogeneous product, divided by `w` only when `w` is neither 0 nor 1 |
| VecMath.TranslationAddsOffset | lib/vec-math.ts:21-33 | a column-major translation matrix moves every point by its offset |
| Keys.Magnitude | lib/vec-math.ts:35-36 | `toFixed(7)` rounds the magnitude to the nearest multiple of 10^-7, within half a unit |
| Keys.Quantize | lib/vec-math.ts:35-36 | the signed rounded value is within half a unit of the coordinate |
| Keys.FixedAsWritten | lib/vec-math.ts:35-36 | `toFixed(7)` of a coordinate starts with '-' exactly when the coordinate is negative, reads back as the coordinate rounded to seven decimals, and holds no '\|' or ',' |
| Keys.VertexKeyAsWritten | lib/vec-math.ts:35-36 | the source's key reads back as the rounded position and never contains the edge-key separator '\|' |
| Keys.FixedAsWrittenEqualIff | lib/vec-math.ts:35-36 | two coordinates get the same `toFixed(7)` text exactly when they have the same sign and round to the same magnitude |
| Keys.VertexKeyAsWrittenEqualIff | lib/vec-math.ts:35-36 | two positions get the same source key exactly when every coordinate pair has the same sign and rounded magnitude; equal keys mean the same rounded position |
| Keys.VertexKey | lib/vec-math.ts:35-36 | the corrected key reads back as the position rounded to seven decimals and never contains '\|'; that equal keys mean exactly equal rounding is `Keys.KeyEqualIffSameRounding` |
| Keys.DecodeRender | lib/vec-math.ts:35-36 | a rendered sign and unit count reads back as the signed count |
| Keys.DecodeKeyOf | lib/vec-math.ts:35-36 | the three comma-joined coordinates read back as the rounded position |
| Keys.KeyEqualIffSameRounding | lib/vec-math.ts:35-36 | two positions have equal keys exactly when they round to the same seven-decimal triple |
| Keys.FixedAsWrittenAgrees | lib/vec-math.ts:35-36 | the runtime `toFixed` text differs from the sign-correct text exactly for negatives that round to zero |
| Keys.VertexKeyAsWrittenSplitsSignedZero | lib/vec-math.ts:35-36 | the runtime keys of (-1e-8,0,0) and (1e-8,0,0) differ, though both round to the origin |
| Keys.EdgeKey | lib/geom3-to-brep.ts:163-165 | the edge key is one vertex key, then '\|', then the other, and the first never sorts after the second under `<` |
| Keys.EdgeKeySymmetric | lib/geom3-to-brep.ts:163-165 | the canonical edge key does not depend on the order of its two vertex keys |
| Keys.EdgeKeyInjective | lib/geom3-to-brep.ts:163-165 | for keys without '\|', equal edge keys mean the same unordered pair of vertex keys |
| StringOrder.LexLess | lib/geom3-to-brep.ts:164 | `a < b` holds exactly when `a` is a proper prefix of `b`, or `a` has the smaller code unit at the first index where the two differ (also used at lines 180 and 195) |
| StringOrder.LexLessIrreflexive | lib/geom3-to-brep.ts:164 | no key sorts before itself under `<` |
| StringOrder.LexLessAsymmetric | lib/geom3-to-brep.ts:164 | of two keys at most one sorts first |
| StringOrder.LexLessTransitive | lib/geom3-to-brep.ts:164 | the string order is transitive |
| StringOrder.LexLessTotal | lib/geom3-to-brep.ts:164 | two different keys are always ordered, so every edge gets a direction |
| StringOrder.LexLessTrichotomy | lib/geom3-to-brep.ts:164 | exactly one of before, equal and after holds |
| Extract.ExtractPosition | lib/geom3-to-brep.ts:38-65 | an array of three or more entries is read first, then `pos`, then `position`; anything else is the origin |
| Extract.ExtractRoundTrip | lib/geom3-to-brep.ts:38-65 | a position written as an array, as `pos`, or as `position` (when `pos` is unusable) reads back unchanged, whatever trails it |
| Extract.PosBeforePosition | lib/geom3-to-brep.ts:46-63 | when both properties are usable, `pos` wins |
| Extract.ShortArrayIsOrigin | lib/geom3-to-brep.ts:39 | an array shorter than three is ignored entirely |
| Extract.Positions | lib/geom3-to-brep.ts:203-206 | each vertex becomes its extracted position under the transform, in order |
| Extract.RawPolygons | lib/geom3-to-brep.ts:199-208 | there are at most as many gathered polygons as entries, each with at least three positions |
| Extract.RawFromAppend | lib/geom3-to-brep.ts:201-208 | each entry is kept or skipped on its own, so gathering distributes over concatenation |
| Extract.RawFromDropped | lib/geom3-to-brep.ts:202 | missing polygons and polygons with fewer than three vertices contribute nothing |
| Extract.RawFromAllKept | lib/geom3-to-brep.ts:201-208 | when every entry is kept, gathered polygon `k` is the positions of entry `k` |
| TJunctions.PointOnSegment | lib/geom3-to-brep.ts:71-85 | an accepted point is on a segment no shorter than `eps`, within `eps` of its line, with parameter strictly inside (eps, 1-eps) |
| TJunctions.EndpointsNeverOnSegment | lib/geom3-to-brep.ts:71-85 | neither end of a segment lies strictly between its ends |
| TJunctions.InteriorPointAccepted | lib/geom3-to-brep.ts:71-85 | a point exactly on a long enough segment, strictly inside the band, is accepted |
| TJunctions.Register | lib/geom3-to-brep.ts:97 | `Map.set` overwrites the entry with the same key in place or appends; keys stay distinct |
| TJunctions.UniqueVertices | lib/geom3-to-brep.ts:93-100 | the vertex list has one position per key in the mesh, and only mesh positions |
| TJunctions.Candidates | lib/geom3-to-brep.ts:117-126 | a hit, with its parameter along the edge, is recorded for exactly the listed vertices whose key differs from both ends' and that lie on the segment; the recorded points are a subsequence of the list, so each entry is recorded at most once and in list order |
| TJunctions.InsertHit | lib/geom3-to-brep.ts:130 | inserting into a sorted list keeps it sorted and adds exactly the one hit |
| TJunctions.SortHits | lib/geom3-to-brep.ts:130 | the hits come out sorted by parameter, as a permutation of the input |
| TJunctions.EdgeInserts | lib/geom3-to-brep.ts:110-134 | an edge shorter than the threshold gets nothing; otherwise exactly the listed vertices that are split points, ordered along the edge |
| TJunctions.InsertsOnce | lib/geom3-to-brep.ts:117-133 | no vertex is inserted on an edge more often than the list holds it: each list entry is pushed at most once per edge |
| TJunctions.SplitTJunctions | lib/geom3-to-brep.ts:92-139 | one output per polygon; each keeps its polygon's vertices in order, and adds only mesh vertices that are split points of its edges; its length is its polygon's plus the points inserted on each of its edges, summed edge by edge, so every block is emitted once |
| TJunctions.SplitTJunctionsComplete | lib/geom3-to-brep.ts:103-137 | every mesh vertex that is a split point of an edge is inserted into that polygon |
| TJunctions.SplitTJunctionsBlocks | lib/geom3-to-brep.ts:105-134 | each original vertex is followed at once by the points inserted on its outgoing edge, ordered along it |
| Dedup.DedupConsecutive | lib/geom3-to-brep.ts:216-224 | the survivors are a subsequence of the positions |
| Dedup.DedupPicksStarts | lib/geom3-to-brep.ts:216-224 | the survivors are exactly the positions whose key differs from their cyclic predecessor's, each once, in input order |
| Dedup.DedupNoCyclicRepeat | lib/geom3-to-brep.ts:216-224 | no two cyclically adjacent survivors share a key, the last and first included |
| Dedup.DedupEmptyIff | lib/geom3-to-brep.ts:216-224 | nothing survives exactly when all positions share one key |
| Dedup.DedupKeepsKeys | lib/geom3-to-brep.ts:216-224 | when anything survives, every key of the input survives |
| Dedup.DedupIdempotent | lib/geom3-to-brep.ts:216-224 | deduplicating the result again changes nothing |
| Step.Add | lib/geom3-to-brep.ts:156 | `repo.add` appends the entity, returns its index, and keeps the rest |
| Step.GrowsTransitive | lib/geom3-to-brep.ts:145-281 | a repository that only grows keeps every earlier reference |
| Step.VertexRefStable | lib/geom3-to-brep.ts:188 | a vertex reference keeps its point as the repository grows |
| Topology.InitialValid | lib/geom3-to-brep.ts:149-150 | empty caches over any repository satisfy the invariant |
| Topology.AddPlainKeepsValid | lib/geom3-to-brep.ts:244 | appending an entity that needs no cache entry keeps the invariant |
| Topology.CreatedVerticesDistinct | lib/geom3-to-brep.ts:152-161 | no two created vertices share a vertex key |
| Topology.CreatedEdgesDistinct | lib/geom3-to-brep.ts:163-197 | no two created edge curves join the same unordered pair of vertex keys |
| Topology.CreatedEdgeProper | lib/geom3-to-brep.ts:167-191 | a created edge curve joins two different cached vertices with different keys |
| Builder.GetOrCreateVertex | lib/geom3-to-brep.ts:152-161 | a cache hit changes nothing; a miss adds a vertex at the position and caches it; the invariant is kept |
| Builder.VertexIdempotent | lib/geom3-to-brep.ts:152-161 | a second lookup with the same key returns the same vertex and state |
| Builder.EdgeDirection | lib/geom3-to-brep.ts:185 | the direction scaled by the edge's length leads from start to end; a zero-length edge gets the +Z axis |
| Builder.GetOrCreateEdge | lib/geom3-to-brep.ts:167-197 | the flag says whether the first key sorts first; a hit changes nothing; a miss adds a line edge from the smaller-key end |
| Builder.EdgeKeepsValid | lib/geom3-to-brep.ts:167-197 | an edge between two distinct cached vertices keeps the invariant |
| Builder.EdgeSymmetric | lib/geom3-to-brep.ts:175-196 | walking the edge the other way finds the same curve, flags it reversed, and adds nothing |
| Builder.EdgeDirectionUnit | lib/geom3-to-brep.ts:185 | with the true length of a non-zero edge, the edge's direction is a unit vector |
| Builder.OrientedEdgesFrom | lib/geom3-to-brep.ts:234-245 | degenerate steps are skipped; otherwise one new oriented edge per step |
| Builder.OrientedEdgesChain | lib/geom3-to-brep.ts:234-245 | without cyclic repeats, every step adds an oriented edge from its first vertex to its second, keeping the invariant |
| Builder.LoopCloses | lib/geom3-to-brep.ts:234-245 | oriented edges over the cyclic steps form a closed loop |
| Builder.InternFrom | lib/geom3-to-brep.ts:229 | each position gets the vertex cached for its key, in order, and the invariant is kept |
| Builder.FaceFrame | lib/geom3-to-brep.ts:249-267 | the plane passes through the first vertex; the normal scaled by its length is the cross product, and the reference direction scaled by its length is the first edge, each falling back to +Z at length zero; the normal is orthogonal to both edges and to the reference direction |
| Builder.FaceFrameUnit | lib/geom3-to-brep.ts:249-267 | with true lengths, normal and reference direction are unit vectors |
| Builder.AssembleFace | lib/geom3-to-brep.ts:249-277 | the face lies on that plane and is bounded by the loop; it is well formed and keeps the invariant when the loop is closed |
| Convert.ConvertPolygon | lib/geom3-to-brep.ts:214-278 | a face exists exactly when three positions survive; its loop has one oriented edge per survivor, over an edge curve created by this conversion, edge `j` leading from a vertex with the key of survivor `j` to one with the key of survivor `j + 1` (cyclically), and its plane sits on the first three; a dropped polygon leaves the state unchanged |
| Convert.FaceCountBound | lib/geom3-to-brep.ts:215-278 | there is at most one face per polygon |
| Convert.FaceCountDistinct | lib/geom3-to-brep.ts:215-278 | polygons of three or more pairwise distinct keys each give exactly one face |
| Convert.FaceIndices | lib/geom3-to-brep.ts:215-226 | the indices of the polygons that get a face: increasing, and containing `k` exactly when polygon `k` keeps three positions after deduplication |
| Convert.ConvertAll | lib/geom3-to-brep.ts:213-280 | face `j` is the face of polygon `FaceIndices[j]`: on the plane through its first three survivors, its loop walking their keys in order over oriented edges and edge curves created by this conversion; the faces are new, well formed and in creation order |
| Convert.VertexKeySeparatorFree | lib/vec-math.ts:35-36 | corrected vertex keys never contain '\|' |
| Convert.VertexKeyAsWrittenSeparatorFree | lib/vec-math.ts:35-36 | the source's vertex keys never contain '\|' |
| Convert.Polygons | lib/geom3-to-brep.ts:199-211 | the split polygons keep the gathered ones' vertices in order, one for one |
| Convert.OrientedEdgesShareCurve | lib/geom3-to-brep.ts:163-197 | under the invariant, two oriented edges over created edge curves that join the same two vertices use the same curve, with flags equal exactly when they leave from the same vertex |
| Convert.RunSharesEdges | lib/geom3-to-brep.ts:145-281 | under a '\|'-free key, two loop edges of the output faces that join the same two vertices run over one curve created by this call, with opposite flags when walked opposite ways |
| Convert.Run | lib/geom3-to-brep.ts:145-281 | under a '\|'-free key, the final state satisfies the invariant over the caller's repository, and face `j` is the face of the `j`-th split polygon that keeps three positions, its loop's oriented edges and edge curves all created by this call |
| Convert.Geom3ToBrep | lib/geom3-to-brep.ts:145-281 | with the source's key, the repository only grows; face `j` is new, well formed, and the face of the `j`-th split polygon that keeps three positions, so there is at most one per input polygon; its loop's oriented edges and their edge curves are all created by this call |
| Convert.FacesCounted | lib/geom3-to-brep.ts:215-247 | under the source's key, the faces correspond one for one, in order, to the polygons that keep three positions, and no other polygon gets a face |
| Convert.VerticesShared | lib/geom3-to-brep.ts:152-161 | the conversion never creates two vertices with the same source key |
| Convert.EdgesShared | lib/geom3-to-brep.ts:167-197 | the conversion never creates two edge curves between the same two source keys |
| Convert.FacesShareEdges | lib/geom3-to-brep.ts:163-197 | two loop edges of the output faces that join the same two vertices, either way round, run over one edge curve created by this call, and their flags agree exactly when they leave from the same vertex, whatever the caller's repository already held |
| Convert.SignedZeroSplitsPolygon | lib/geom3-to-brep.ts:216-224 | the polygon (-1e-8,0,0), (1e-8,0,0), (1,0,0), (0,1,0) keeps four positions under the source's key and three under the corrected key |
| Convert.Geom3ToBrepWelded | lib/geom3-to-brep.ts:145-281 | the same conversion with the corrected key: the repository only grows; face `j` is new, well formed, and the face of the `j`-th split polygon that keeps three positions under that key; its loop's oriented edges and their edge curves are all created by this call |
| Convert.VerticesWelded | lib/geom3-to-brep.ts:152-161 | with the corrected key, no two created vertices sit at the same rounded position |
| Convert.EdgesWelded | lib/geom3-to-brep.ts:167-197 | with the corrected key, no two created edge curves join the same pair of corrected keys |
| Convert.FacesShareEdgesWelded | lib/geom3-to-brep.ts:163-197 | with the corrected key, two loop edges joining the same two vertices likewise run over one created edge curve, with flags equal exactly when they leave from the same vertex |

## Left out

- Floating point is not modelled. Coordinates are exact reals, so there is no NaN, no infinity and no rounding error. `toFixed` is modelled only for magnitudes below 1e21. Above that bound the runtime switches to exponent notation, which the model does not cover.
- `Math.hypot` is the parameter `hypot`. Results that need true lengths require `IsHypot`. The proof that `hypot` of a zero vector is 0 is not derived from `IsHypot`.
- `Number(x) || 0` is abstracted to the `Component` datatype: an entry reads as a finite number or as NaN. String parsing is not modelled.
- `dot` and `lengthSq` are imported by the converter, but their definitions are not in the modelled files. They are modelled as the standard dot product and squared length.
- `!ref` and `!edgeRef` are modelled as cache misses. A reference object is always truthy, so the two agree.
- Entity names (always `""`) are not modelled. The `stepts` library's own classes, and serialisation to STEP text, are outside this model. The repository is an append-only sequence.
- The `color` field of a `geom3` is not read by the conversion and is not modelled.
- `lib/index.ts`, `lib/color.ts` and the tests are not part of this model.
- Convert.ConvertPolygon: the `orientedEdges.length < 3` branch is modelled and proved unreachable. After deduplication, every kept polygon has three or more steps whose ends differ.
- TJunctions.SortHits: a stable insertion sort by parameter. Its stability is not stated as a separate property.
- VecMath.ApplyTransform: `w` is tested against 0 and 1 over exact reals. A NaN `w` is not modelled.

## Findings

| source | as written | input that shows it | evidently intended | confidence | as-written member | corrected member |
|---|---|---|---|---|---|---|
| lib/vec-math.ts:35-36 | `toFixed(7)` keeps the minus sign of a negative value that rounds to zero, giving "-0.0000000" | (-1e-8, 0, 0) and (1e-8, 0, 0) both round to the origin, but get the keys "-0.0000000,0.0000000,0.0000000" and "0.0000000,0.0000000,0.0000000", so they become two vertices | positions that round to the same seven-decimal triple share one key | not executed | Keys.VertexKeyAsWrittenSplitsSignedZero | Keys.KeyEqualIffSameRounding |
| lib/geom3-to-brep.ts:152-161 | the vertex cache, keyed by the signed texts, gives the two positions of that example two vertices, and deduplication keeps both | the polygon (-1e-8,0,0), (1e-8,0,0), (1,0,0), (0,1,0) keeps four positions, two of them at the rounded origin | the two positions weld into one vertex and the face has three | not executed | Convert.SignedZeroSplitsPolygon | Convert.VerticesWelded |
