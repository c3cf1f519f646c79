# Alpha-shape domains of a tetrahedralization, and two option helpers

This Dafny project models the alpha-shape partitioner of gmsh (`Mesh/alphaShapes.cpp`)
and proves properties of the model. The partitioner takes a tetrahedralization: a flat
array of vertex indices, four per tetrahedron. It works in four stages:

1. **Canonical faces.** Each face of each tetrahedron gets a canonical key. The key is
   the three vertices named by the fixed table `_faces`, sorted by a compare network
   (`getOrderedFace`).
2. **Record order.** `compareFourInt` orders face records by key, descending.
3. **Neighbour table.** `computeTetNeighbors_` emits one record per face, sorts the
   records, and links adjacent records that carry equal keys. The result is a table
   `neigh[4*t+j]`: the tetrahedron across face `j` of `t`, or the sentinel `4*M` when
   there is none (`M` is the number of tetrahedra).
4. **Domains.** `alphaShapes_` grows domains with an explicit stack. A domain is a
   maximal set of tetrahedra that pass the alpha test and are connected across faces.
   For each domain it also collects a boundary list of `(t, j)` pairs: faces with no
   neighbour, or whose neighbour fails the test. Around this, vertex indices are
   shifted from 1-based to 0-based at line 128 and back at line 173.

Two small helpers of `Common/gmsh.cpp` are modelled as well:

- `splitOptionName` decodes `Category.Name` and `Category[index].Name`.
- `getExtrudeParams` sets the default layer heights of an extrusion.

Modules and files:

- `wrappers.dfy` (`Wrappers`): `Option`.
- `words.dfy` (`Words`): `size_t` arithmetic modulo 2^64.
- `faces.dfy` (`Faces`): the face table, the compare network and the comparator.
- `neighbors.dfy` (`Neighbors`): record emission, the sorted-record precondition, the pairing scan, and `BuildNeighbors`.
- `flood.dfy` (`Flood`): one domain's depth-first search (`GrowDomain`), the loop over seeds (`FloodFill`), the component characterisation, and the line-144 finding.
- `alpha_shapes.dfy` (`AlphaShapes`): the index shift and the driver.
- `option_names.dfy` (`OptionNames`): `find_first_of`, `find_last_of`, `substr`, `atoi` and `splitOptionName`.
- `extrude.dfy` (`Extrude`): `getExtrudeParams`.

The alpha test and the sort are inputs to the model:

- `valid[t]` stands for `alphaShape(t) < threshold`.
- `sorted` is any order of the emitted records that `compareFourInt` accepts. The model does not fix the one `qsort` happens to produce, so every property holds for all of them.

Where the code and its usual description differ, the model follows the code:

- **Non-manifold faces.** A face key that occurs three or more times is not reported as an error. The scan pairs consecutive records with equal keys and, after a match, moves past both (line 106). So a run of equal keys is linked two by two, and when the run is odd its last record keeps the sentinel: four copies give two linked pairs, five give two pairs and one sentinel. The link properties are therefore stated under the condition that every key occurs at most twice (`AtMostTwice`).
- **Domain numbering.** Domain and boundary entries are 0-based tetrahedron indices. They are not shifted back at line 173; only the vertex array is.
- **Seed marker.** The visited marker for the seed is written at the wrong index. The model uses the intended index and records the defect under Findings.

## Model

| member | source | states |
|---|---|---|
| `Faces.LocalFace` | Mesh/alphaShapes.cpp:30 | Local face `i` lists three distinct local vertices in increasing order, all but vertex `3 - i`: it is the face opposite that vertex. |
| `Faces.Sort3Sorts` | Mesh/alphaShapes.cpp:32-58 | The compare network `Sort3` returns its three inputs in non-decreasing order, as a multiset equal to the inputs. |
| `Faces.OrderedUnique` | Mesh/alphaShapes.cpp:55-57 | An ordered triple is determined by its multiset of vertices, so the canonical key of a face does not depend on how the face is listed. |
| `Faces.SameFaceIffSameVertices` | Mesh/alphaShapes.cpp:32-58 | Two listings get the same canonical triple exactly when they list the same vertices, in both directions. |
| `Faces.FaceOfUsesTable` | Mesh/alphaShapes.cpp:30-35 | The key of local face `i` of tetrahedron `t` is built from the vertices at positions `4t + _faces[i][0..2]`. |
| `Faces.FaceOfCanonical` | Mesh/alphaShapes.cpp:30-58 | The key `getOrderedFace` gives local face `i` of tetrahedron `t` is ordered, and its vertices are exactly the three at positions `4t + _faces[i][0..2]`. |
| `Faces.Compare` | Mesh/alphaShapes.cpp:60-70 | The comparator answers -1, 0 or 1, and 0 exactly when the keys are equal. It is negative exactly when the second key is lexicographically smaller, so the order is descending. |
| `Faces.CompareFlipsSign` | Mesh/alphaShapes.cpp:60-70 | Swapping the arguments flips the sign. The tetrahedron and face fields never affect the answer. |
| `Faces.CompareTransitive` | Mesh/alphaShapes.cpp:60-70 | "May precede" (`Compare <= 0`) is transitive, so the comparator is a total preorder that `qsort` can sort by. |
| `Faces.EqualKeysContiguous` | Mesh/alphaShapes.cpp:92 | In any sequence sorted by the comparator, records with equal keys are contiguous. |
| `Neighbors.Emit` | Mesh/alphaShapes.cpp:79-90 | The emitted records number four per tetrahedron. The record at position `p` is face `p % 4` of tetrahedron `p / 4` with that face's canonical key. |
| `Neighbors.Records` | Mesh/alphaShapes.cpp:77-90 | There is one record per entry of the vertex array. |
| `Neighbors.PermutationFacts` | Mesh/alphaShapes.cpp:92 | Any reordering of the records holds every (tetrahedron, face) exactly once, each with its true canonical key. |
| `Neighbors.Link` | Mesh/alphaShapes.cpp:104-105 | After the two writes, the second record's entry names the first record's tetrahedron and, for two distinct slots, the first record's entry names the second's. Every other entry is unchanged. |
| `Neighbors.LinkPreservesSymmetric` | Mesh/alphaShapes.cpp:102-106 | Linking two unlinked faces with equal keys keeps every entry in range. It also keeps every link answered by a link back across the same face. |
| `Neighbors.Scan` | Mesh/alphaShapes.cpp:95-108 | The pairing scan leaves a table with entries in range and every link answered across a face with the same key. When no key occurs three times, a record ends linked exactly when an adjacent record has the same key. Which tetrahedron a link names is derived later, in `ManifoldLinks`. |
| `Neighbors.AtMostTwiceNoTriple` | Mesh/alphaShapes.cpp:96-108 | If every face occurs at most twice in the mesh, no key occurs three times in the sorted records. |
| `Neighbors.UnlinkedIsUnique` | Mesh/alphaShapes.cpp:96-108 | Given that exactly the records with an equal-key neighbour in the sorted order are linked (`TwinsLinked`, which `Scan` ensures when no key occurs three times), a face left at the sentinel has no other face with the same vertices. |
| `Neighbors.LinkedIsShared` | Mesh/alphaShapes.cpp:102-106 | A linked face has another face with the same vertices. |
| `Neighbors.TwinsAreSharedFaces` | Mesh/alphaShapes.cpp:92-108 | Once all equal-key pairs are linked, a face keeps the sentinel exactly when its vertex set is unique. |
| `Neighbors.ManifoldLinks` | Mesh/alphaShapes.cpp:92-108 | When every face occurs at most twice: a face is unlinked iff it is unique, and two distinct faces with the same vertices are linked to each other's tetrahedra. |
| `Neighbors.SymmetricLinks` | Mesh/alphaShapes.cpp:104-105 | Every non-sentinel entry `neigh[4a+j] = b` is answered: some face `k` of `b` has `neigh[4b+k] = a`. |
| `Neighbors.BuildNeighbors` | Mesh/alphaShapes.cpp:72-117 | The table has `4M` entries, each the sentinel `4M` or a tetrahedron `< M`. Every link is answered across a face with the same vertices. With each face at most twice: the sentinel means a unique face, and shared faces are linked to each other. |
| `Flood.MarkCounts` | Mesh/alphaShapes.cpp:159 | Touching an untouched tetrahedron lowers the number of untouched ones by one; this is the measure the search terminates by. |
| `Flood.Visit` | Mesh/alphaShapes.cpp:149-166 | Examining one face never adds untouched tetrahedra. The number of untouched tetrahedra plus the stack height stays constant: a push always touches a new tetrahedron. No touched tetrahedron is unmarked. |
| `Flood.GrowDomain` | Mesh/alphaShapes.cpp:140-168 | The domain starts at the seed and holds no repeats. Each entry is valid and was untouched before, and each later entry is a face-neighbour of an earlier one. A tetrahedron ends touched iff it was touched before or joined the domain. The valid neighbours of the domain are all touched. The boundary lists each exterior face of the domain once, as a `(t, j)` pair, and nothing else. |
| `Flood.FloodFill` | Mesh/alphaShapes.cpp:132-172 | Domains are non-empty, repeat-free, valid and pairwise disjoint, and every valid tetrahedron lies in one. Each domain starts at its smallest member, in increasing order of seeds, and is grown across faces. There is one boundary per domain with exactly its exterior faces. With answered links, a valid neighbour of a domain tetrahedron is in the same domain. |
| `Flood.ClosedWithin` | Mesh/alphaShapes.cpp:156-160 | With answered links, a valid tetrahedron across a face of a domain member cannot belong to an earlier domain, so it is in the same one. |
| `Flood.GrownWalk` | Mesh/alphaShapes.cpp:156-160 | Every member of a grown domain is reached from the seed by a walk through valid tetrahedra across shared faces. |
| `Flood.WalkStays` | Mesh/alphaShapes.cpp:156-160 | In closed, disjoint domains a walk through valid tetrahedra never leaves the domain it starts in. |
| `Flood.DomainIsComponent` | Mesh/alphaShapes.cpp:136-170 | A tetrahedron is in domain `d` iff a walk through valid tetrahedra joins it to the domain's seed: each domain is a connected component of the valid tetrahedra. |
| `Flood.MarkSeedAsWritten` | Mesh/alphaShapes.cpp:144 | The marker write as written lands at `4*seed`: it is out of range unless `4*seed` is below the number of tetrahedra, and it changes no other flag. |
| `Flood.SeedMarkMisses` | Mesh/alphaShapes.cpp:143-145 | For every seed other than tetrahedron 0, the write as written is out of range or leaves the seed unmarked. |
| `Flood.ExamineAll` | Mesh/alphaShapes.cpp:149-167 | Examining the four faces of a popped tetrahedron never adds untouched tetrahedra. Untouched count plus stack height is unchanged, no touched tetrahedron is unmarked, and the stack keeps only tetrahedra in range. |
| `Flood.Drain` | Mesh/alphaShapes.cpp:146-168 | The loop as written, from any state with an in-range stack, empties the stack within as many pops as there are untouched tetrahedra plus stacked entries. It never unmarks a tetrahedron. |
| `Flood.SeedRevisited` | Mesh/alphaShapes.cpp:143-160 | Concrete case: seeding tetrahedron 1 of five, with 1 and 2 sharing a face, the search as written yields the domain `[1, 2, 1]`. |
| `Words.Sub` | Mesh/alphaShapes.cpp:128 | `size_t` subtraction: the result plus `b` is `a` or `a + 2^64`, and it is `a` exactly when `b <= a`. |
| `Words.Add` | Mesh/alphaShapes.cpp:173 | `size_t` addition: the result is `a + b` or `a + b - 2^64`, and it is `a + b` exactly when that fits. |
| `Words.SubAddInverse` | Mesh/alphaShapes.cpp:173 | Adding `b` back after subtracting it gives the original word, and so does the other order, wrap-around included. |
| `AlphaShapes.ShiftDown` | Mesh/alphaShapes.cpp:128 | Each vertex index is decremented as a `size_t`; an index 0 wraps to `2^64 - 1`. |
| `AlphaShapes.ShiftUp` | Mesh/alphaShapes.cpp:173 | Each vertex index is incremented as a `size_t`; `2^64 - 1` wraps to 0. |
| `AlphaShapes.ShiftRoundTrip` | Mesh/alphaShapes.cpp:173 | The increment of line 173 undoes the decrement of line 128 exactly, and the other way round. |
| `AlphaShapes.AppendDomains` | Mesh/alphaShapes.cpp:169-170 | The caller's earlier domains and boundaries are kept as a prefix. The appended part satisfies the partition, boundary and closure properties of `FloodFill`. |
| `AlphaShapes.AlphaShapes` | Mesh/alphaShapes.cpp:119-175 | The vertex array comes back unchanged. The neighbour table is in range and symmetric on the 0-based vertices. When every face occurs at most twice, a face has no neighbour exactly when it is unique, so a boundary pair with no neighbour is a hull face, and two faces with the same vertices name each other's tetrahedra. The appended domains partition the valid tetrahedra into closed components, each with exactly its exterior faces as boundary. |
| `OptionNames.FindFirst` | Common/gmsh.cpp:62 | `npos` exactly when the character is absent; otherwise a position holding it with none before. |
| `OptionNames.FindLast` | Common/gmsh.cpp:69 | `npos` exactly when the character is absent; otherwise a position holding it with none after. |
| `OptionNames.Substr` | Common/gmsh.cpp:71-78 | The result is the text from `pos` on, cut to `len` characters or to the end of the string, whichever comes first. |
| `OptionNames.Atoi` | Common/gmsh.cpp:72 | `atoi` of a text with no digit at all is 0. |
| `OptionNames.AtoiShow` | Common/gmsh.cpp:72 | `atoi` reads back any integer written in decimal, sign included. |
| `OptionNames.SplitOptionName` | Common/gmsh.cpp:59-82 | Without a `.` the name is the whole input, and the category and index keep their earlier values. With a `.` but not both brackets, the index is 0 and category, `.` and name rebuild the input with no `.` in the category. |
| `OptionNames.BracketedDecode` | Common/gmsh.cpp:68-75 | With both brackets, the category is the text before the first `[`. The index is `atoi` of the text up to the last `]`, or of the whole rest when that `]` comes first. The name is everything after the first `.` when the `[` precedes it; otherwise it runs from after the `.` through the `[`. |
| `OptionNames.IndexText` | Common/gmsh.cpp:71 | `b2 - b1 - 1` selects the text strictly between the brackets. When the `]` comes first, it wraps and is clamped to the rest of the string. |
| `OptionNames.NameText` | Common/gmsh.cpp:74 | `b1 - d` selects the text from after the `.` through the `[`. When the `[` comes first, it wraps and is clamped to the rest of the string. |
| `OptionNames.PlainRoundTrip` | Common/gmsh.cpp:62-79 | `Category.Name` decodes to its two parts and index 0 when the category has no `.` and the brackets are not both present. |
| `OptionNames.IndexedRoundTrip` | Common/gmsh.cpp:62-75 | `Category[k].Name` decodes to `(Category, Name, k)` for every integer `k` when the category has no `.` or `[` and the name no `]`. |
| `Extrude.GetExtrudeParams` | Common/gmsh.cpp:537-551 | No parameters (null) exactly when no layer counts are given. Otherwise the mesh is extruded with the given layer counts and recombination flag. The heights are the given ones, or the single height 1 when none are given, so they are never empty. |
| `Extrude.HeightsSettle` | Common/gmsh.cpp:544-547 | Feeding the resulting heights back in gives the same parameters. |
| `Extrude.DefaultIsOneLayer` | Common/gmsh.cpp:546-547 | Giving no heights is the same as giving the single height 1. |

## Left out

- `alphaShape` (Mesh/alphaShapes.cpp:8-25) computes a circumradius in floating point through `tetcircumcenter`, which is not part of this model. Its comparison with `threshold` is the input `valid`, indexed by tetrahedron.
- `gmsh::model::mesh::tetrahedralize` (Mesh/alphaShapes.cpp:126) is an external mesher. Its output is the input `tetrahedra0`: any sequence of 64-bit words whose length is a multiple of 4. The point coordinates `pts` are used only by the two calls above and are left out with them.
- `qsort` and the raw record buffer (Mesh/alphaShapes.cpp:77, 92, 115) are not modelled as code. The sorted buffer is the input `sorted`, required to be a permutation of the emitted records in comparator order. The five `size_t` fields of a record are the datatype `FaceRecord`.
- The debug output (`std::cout` in Mesh/alphaShapes.cpp, `Msg::Debug` at Common/gmsh.cpp:80) is logging only.
- The return value 0 of `computeTetNeighbors_` and `alphaShapes_` is constant and carries no information.
- `vector<bool>` writes past the end (line 144 as written) are undefined behaviour in C++. `MarkSeedAsWritten` answers `None` for them.
- `Flood.Drain`, which replays the search as written, takes a `fuel` bound on the number of pops. Its contract shows that the number of untouched tetrahedra plus the stack height is always enough. It only serves the concrete example of the finding; the corrected search (`GrowDomain`) has no bound.
- `atoi` on a number outside the range of `int` is undefined in C. `OptionNames.Atoi` returns the exact value with unbounded integers.
- `substr` throws `out_of_range` when its start is past the end. No call in `splitOptionName` can do that, since every start is at most the string length, so `Substr` requires it.
- `ExtrudeParams` has many other fields, which keep their constructor defaults and are not modelled. Layer heights are `double` in C++ and `real` here; no rounding is involved, because the heights are only copied.
- The rest of Common/gmsh.cpp (API wrappers over `GModel` and the geometry kernels), Mesh/meshGRegionMMG3D.cpp (glue to an external remesher), Parser/Gmsh.tab.hpp (generated token constants) and FunctionSpace/Basis.h (field getters) are not part of this model.

## Findings

| source | as written | input that shows it | evidently intended | confidence | as-written member | corrected member |
|---|---|---|---|---|---|---|
| Mesh/alphaShapes.cpp:144 | `_touched[i] = true`, where `i` is the seed's offset `4*seed` in the vertex array | Five tetrahedra, where only 1 and 2 pass the test and they share face 0. Seeding at 1 marks tetrahedron 4 instead of 1. Then 2 finds 1 untouched and pushes it again, so the domain is `[1, 2, 1]`. With fewer than `4*seed + 1` tetrahedra, the write goes past the end of the vector. | `_touched[i/4] = true`, marking the seed itself, as line 139 reads it | not executed | `Flood.SeedRevisited` | `Flood.GrowDomain` |
