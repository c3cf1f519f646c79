/** The driver `alphaShapes_` (Mesh/alphaShapes.cpp, lines 119-175): shift the
    tetrahedralizer's 1-based vertex indices to 0-based, build the neighbour
    table, grow the domains, and shift the indices back.

    The tetrahedralizer, the sort inside `computeTetNeighbors_` and the alpha
    test are inputs: `tetrahedra0` is what `tetrahedralize` writes, `sorted` is
    any order `qsort` may leave the face records in, and `valid[t]` is the
    outcome of `alphaShape(t) < threshold`. */
module AlphaShapes {
  import opened Words
  import opened Faces
  import opened Neighbors
  import opened Flood

  /** Line 128: every vertex index decremented as a `size_t`. */
  function ShiftDown(tets: seq<Word>): (r: seq<Word>)
    ensures |r| == |tets|
    ensures forall i :: 0 <= i < |tets| && tets[i] > 0 ==> r[i] == tets[i] - 1
    ensures forall i :: 0 <= i < |tets| && tets[i] == 0 ==> r[i] == WordLimit - 1
  {
    seq(|tets|, i requires 0 <= i < |tets| => Sub(tets[i], 1))
  }

  /** Line 173: every vertex index incremented as a `size_t`. */
  function ShiftUp(tets: seq<Word>): (r: seq<Word>)
    ensures |r| == |tets|
    ensures forall i :: 0 <= i < |tets| && tets[i] < WordLimit - 1 ==> r[i] == tets[i] + 1
    ensures forall i :: 0 <= i < |tets| && tets[i] == WordLimit - 1 ==> r[i] == 0
  {
    seq(|tets|, i requires 0 <= i < |tets| => Add(tets[i], 1))
  }

  /** The shift of line 173 undoes the shift of line 128 exactly, wrap-around
      included, and the other way round. */
  lemma ShiftRoundTrip(tets: seq<Word>)
    ensures ShiftUp(ShiftDown(tets)) == tets
    ensures ShiftDown(ShiftUp(tets)) == tets
  {
    forall i | 0 <= i < |tets|
      ensures ShiftUp(ShiftDown(tets))[i] == tets[i] && ShiftDown(ShiftUp(tets))[i] == tets[i]
    {
      SubAddInverse(tets[i], 1);
      assert Add(Sub(tets[i], 1), 1) == tets[i];
    }
  }

  /** The results appended after earlier contents are found again as the suffix. */
  lemma AppendedResults(neigh: seq<nat>, valid: seq<bool>, domains0: seq<seq<nat>>, found: seq<seq<nat>>,
                        boundaries0: seq<seq<nat>>, foundBoundaries: seq<seq<nat>>)
    requires IsTable(neigh, |valid|) && Partitioned(neigh, valid, found, foundBoundaries)
    requires ClosedDomains(neigh, valid, found)
    ensures (domains0 + found)[|domains0|..] == found
    ensures (boundaries0 + foundBoundaries)[|boundaries0|..] == foundBoundaries
    ensures Partitioned(neigh, valid, (domains0 + found)[|domains0|..], (boundaries0 + foundBoundaries)[|boundaries0|..])
    ensures ClosedDomains(neigh, valid, (domains0 + found)[|domains0|..])
  {
    assert (domains0 + found)[|domains0|..] == found;
    assert (boundaries0 + foundBoundaries)[|boundaries0|..] == foundBoundaries;
  }

  /** Lines 132-172 on the caller's vectors: the domains and boundaries found
      are appended to what `domains` and `boundaries` already held. */
  method AppendDomains(neigh: seq<nat>, valid: seq<bool>, domains0: seq<seq<nat>>, boundaries0: seq<seq<nat>>)
    returns (domains: seq<seq<nat>>, boundaries: seq<seq<nat>>)
    requires IsTable(neigh, |valid|) && LinksSymmetric(neigh, |valid|)
    ensures |domains| >= |domains0| && domains[..|domains0|] == domains0
    ensures |boundaries| >= |boundaries0| && boundaries[..|boundaries0|] == boundaries0
    ensures Partitioned(neigh, valid, domains[|domains0|..], boundaries[|boundaries0|..])
    ensures ClosedDomains(neigh, valid, domains[|domains0|..])
  {
    var found, foundBoundaries := FloodFill(neigh, valid);
    AppendedResults(neigh, valid, domains0, found, boundaries0, foundBoundaries);
    domains := domains0 + found;
    boundaries := boundaries0 + foundBoundaries;
  }

  /** `alphaShapes_` from the tetrahedralizer's output on. `domains` and
      `boundaries` are appended to, as `push_back` does on the caller's
      vectors; `neigh` is overwritten. */
  method AlphaShapes(tetrahedra0: seq<Word>, valid: seq<bool>, sorted: seq<FaceRecord>,
                     domains0: seq<seq<nat>>, boundaries0: seq<seq<nat>>)
    returns (tetrahedra: seq<Word>, neigh: seq<nat>, domains: seq<seq<nat>>, boundaries: seq<seq<nat>>)
    requires |tetrahedra0| % 4 == 0 && 4 * |valid| == |tetrahedra0|
    requires SortedPermutation(sorted, Records(ShiftDown(tetrahedra0)))
    ensures tetrahedra == tetrahedra0
    ensures IsTable(neigh, |valid|) && Symmetric(ShiftDown(tetrahedra0), neigh)
    ensures AtMostTwice(ShiftDown(tetrahedra0)) ==>
              forall t, j :: 0 <= t < |valid| && 0 <= j < 4 ==>
                (Neighbor(neigh, t, j) == |tetrahedra0| <==> UniqueFace(ShiftDown(tetrahedra0), t, j))
    ensures AtMostTwice(ShiftDown(tetrahedra0)) ==>
              forall a, i, b, j :: 0 <= a < |valid| && 0 <= i < 4 && 0 <= b < |valid| && 0 <= j < 4
                                   && (a, i) != (b, j)
                                   && FaceOf(ShiftDown(tetrahedra0), a, i) == FaceOf(ShiftDown(tetrahedra0), b, j)
                                   ==> Neighbor(neigh, a, i) == b
    ensures |domains| >= |domains0| && domains[..|domains0|] == domains0
    ensures |boundaries| >= |boundaries0| && boundaries[..|boundaries0|] == boundaries0
    ensures Partitioned(neigh, valid, domains[|domains0|..], boundaries[|boundaries0|..])
    ensures ClosedDomains(neigh, valid, domains[|domains0|..])
  {
    var shifted := ShiftDown(tetrahedra0);
    neigh := BuildNeighbors(shifted, sorted);
    assert TetCount(shifted) == |valid|;
    SymmetricLinks(shifted, neigh);
    domains, boundaries := AppendDomains(neigh, valid, domains0, boundaries0);
    tetrahedra := ShiftUp(shifted);
    ShiftRoundTrip(tetrahedra0);
  }
}
