/** The adjacency builder `computeTetNeighbors_` (Mesh/alphaShapes.cpp).

    For `M` tetrahedra the table `neigh` has `4*M` entries; entry `4*t + j`
    (the "slot" of face `j` of tetrahedron `t`) holds the tetrahedron across
    that face, or the sentinel `4*M` (the size of the tetrahedron array, not
    `M`) when no other face matched. */
module Neighbors {
  import opened Faces

  /** A flat tetrahedron array: four vertex indices per tetrahedron. */
  predicate IsTetArray(tets: seq<nat>) {
    |tets| % 4 == 0
  }

  /** The number `M` of tetrahedra. */
  function TetCount(tets: seq<nat>): (m: nat)
    requires IsTetArray(tets)
    ensures 4 * m == |tets|
  {
    |tets| / 4
  }

  /** The slot of the neighbour table a record belongs to. */
  function Slot(r: FaceRecord): nat {
    4 * r.tet + r.face
  }

  /** Slots of distinct faces are distinct. */
  lemma SlotInjective(a: nat, i: nat, b: nat, j: nat)
    requires i < 4 && j < 4
    requires 4 * a + i == 4 * b + j
    ensures a == b && i == j
  {
  }

  /** Record `r` describes face `r.face` of tetrahedron `r.tet` of `tets`. */
  predicate Describes(tets: seq<nat>, r: FaceRecord)
    requires IsTetArray(tets)
  {
    r.tet < TetCount(tets) && r.face < 4 && r.key == FaceOf(tets, r.tet, r.face)
  }

  /** The records the first loop of `computeTetNeighbors_` emits for
      tetrahedra `0 .. m-1`: four per tetrahedron, faces in increasing order,
      so that the record of slot `s` is emitted at position `s`. */
  function Emit(tets: seq<nat>, m: nat): (rs: seq<FaceRecord>)
    requires IsTetArray(tets) && 4 * m <= |tets|
    ensures |rs| == 4 * m
    ensures forall p :: 0 <= p < |rs| ==> Describes(tets, rs[p]) && rs[p].tet < m && Slot(rs[p]) == p
  {
    if m == 0 then []
    else
      var t := m - 1;
      Emit(tets, t) + [FaceRecord(FaceOf(tets, t, 0), t, 0), FaceRecord(FaceOf(tets, t, 1), t, 1),
                       FaceRecord(FaceOf(tets, t, 2), t, 2), FaceRecord(FaceOf(tets, t, 3), t, 3)]
  }

  function Records(tets: seq<nat>): (rs: seq<FaceRecord>)
    requires IsTetArray(tets)
    ensures |rs| == |tets|
  {
    Emit(tets, TetCount(tets))
  }

  /** What the model assumes of `qsort`: `sorted` is a permutation of the
      emitted records, in the order `Compare` asks for. */
  predicate SortedPermutation(sorted: seq<FaceRecord>, records: seq<FaceRecord>) {
    multiset(sorted) == multiset(records) && SortedByCompare(sorted)
  }

  /** `sorted` holds at most one record per slot, each describing its own face. */
  predicate RecordsOf(tets: seq<nat>, sorted: seq<FaceRecord>)
    requires IsTetArray(tets)
  {
    && |sorted| == |tets|
    && (forall p :: 0 <= p < |sorted| ==> Describes(tets, sorted[p]))
    && (forall p, q :: 0 <= p < q < |sorted| ==> Slot(sorted[p]) != Slot(sorted[q]))
  }

  /** Some record of `sorted` belongs to face `j` of tetrahedron `t`. */
  ghost predicate HasRecord(sorted: seq<FaceRecord>, t: nat, j: nat) {
    exists p :: 0 <= p < |sorted| && sorted[p].tet == t && sorted[p].face == j
  }

  /** Every face has a record in `sorted`. */
  ghost predicate Covers(tets: seq<nat>, sorted: seq<FaceRecord>)
    requires IsTetArray(tets)
  {
    forall t, j :: 0 <= t < TetCount(tets) && 0 <= j < 4 ==> HasRecord(sorted, t, j)
  }

  lemma {:induction false} DistinctAtMostOnce(rs: seq<FaceRecord>, x: FaceRecord)
    requires forall i, j :: 0 <= i < j < |rs| ==> rs[i] != rs[j]
    ensures multiset(rs)[x] <= 1
  {
    if |rs| > 0 {
      var init := rs[..|rs| - 1];
      assert rs == init + [rs[|rs| - 1]];
      DistinctAtMostOnce(init, x);
      if rs[|rs| - 1] == x {
        assert x !in init;
      }
    }
  }

  /** Entry `p` occurs once more in `rs` for each later copy at `q`. */
  lemma CountPair(rs: seq<FaceRecord>, p: nat, q: nat)
    requires p < q < |rs|
    ensures multiset(rs)[rs[p]] >= if rs[p] == rs[q] then 2 else 1
  {
    assert rs == rs[..p] + [rs[p]] + rs[p + 1..q] + [rs[q]] + rs[q + 1..];
  }

  /** A permutation of the emitted records carries exactly one record per face. */
  lemma PermutationFacts(tets: seq<nat>, sorted: seq<FaceRecord>)
    requires IsTetArray(tets)
    requires multiset(sorted) == multiset(Records(tets))
    ensures RecordsOf(tets, sorted)
    ensures Covers(tets, sorted)
  {
    RecordsAtSlots(tets, sorted);
    SlotsDistinct(tets, sorted);
    RecordsCover(tets, sorted);
  }

  /** Every record of a permutation is the emitted record of its own slot. */
  lemma RecordsAtSlots(tets: seq<nat>, sorted: seq<FaceRecord>)
    requires IsTetArray(tets)
    requires multiset(sorted) == multiset(Records(tets))
    ensures |sorted| == |tets|
    ensures forall p :: 0 <= p < |sorted| ==>
              Slot(sorted[p]) < |tets| && sorted[p] == Records(tets)[Slot(sorted[p])] && Describes(tets, sorted[p])
  {
    var rs := Records(tets);
    assert |sorted| == |multiset(sorted)| == |multiset(rs)| == |rs|;
    forall p | 0 <= p < |sorted|
      ensures Slot(sorted[p]) < |rs| && sorted[p] == rs[Slot(sorted[p])] && Describes(tets, sorted[p])
    {
      assert sorted[p] in multiset(sorted);
      var s :| 0 <= s < |rs| && rs[s] == sorted[p];
    }
  }

  /** No two records of a permutation share a slot. */
  lemma SlotsDistinct(tets: seq<nat>, sorted: seq<FaceRecord>)
    requires IsTetArray(tets)
    requires multiset(sorted) == multiset(Records(tets))
    ensures forall p, q :: 0 <= p < q < |sorted| ==> Slot(sorted[p]) != Slot(sorted[q])
  {
    var rs := Records(tets);
    RecordsAtSlots(tets, sorted);
    assert forall i, j :: 0 <= i < j < |rs| ==> rs[i] != rs[j];
    forall p, q | 0 <= p < q < |sorted| ensures Slot(sorted[p]) != Slot(sorted[q]) {
      CountPair(sorted, p, q);
      DistinctAtMostOnce(rs, sorted[p]);
      assert sorted[p] != sorted[q];
    }
  }

  /** Every face has its record somewhere in a permutation. */
  lemma RecordsCover(tets: seq<nat>, sorted: seq<FaceRecord>)
    requires IsTetArray(tets)
    requires multiset(sorted) == multiset(Records(tets))
    ensures Covers(tets, sorted)
  {
    var rs := Records(tets);
    forall t, j | 0 <= t < TetCount(tets) && 0 <= j < 4 ensures HasRecord(sorted, t, j) {
      var s := 4 * t + j;
      assert Slot(rs[s]) == s;
      SlotInjective(rs[s].tet, rs[s].face, t, j);
      assert rs[s] in multiset(rs);
      assert rs[s] in multiset(sorted);
      var p :| 0 <= p < |sorted| && sorted[p] == rs[s];
    }
  }

  /** The shape of a neighbour table for `m` tetrahedra: one entry per slot,
      each the sentinel `4*m` or a tetrahedron index. */
  predicate IsTable(neigh: seq<nat>, m: nat) {
    && |neigh| == 4 * m
    && forall s :: 0 <= s < |neigh| ==> neigh[s] == 4 * m || neigh[s] < m
  }

  /** The tetrahedron across face `j` of tetrahedron `t` (`neigh[4*t+j]`). */
  function Neighbor(neigh: seq<nat>, t: nat, j: nat): nat
    requires j < 4 && 4 * t + j < |neigh|
  {
    neigh[4 * t + j]
  }

  /** Face `j` of tetrahedron `t` has a neighbour. */
  predicate Linked(neigh: seq<nat>, m: nat, t: nat, j: nat)
    requires |neigh| == 4 * m && t < m && j < 4
  {
    Neighbor(neigh, t, j) != 4 * m
  }

  /** The link across face `j` of `a` is answered by a link back from a
      different face slot of the neighbour with the same canonical triple. */
  ghost predicate Answered(tets: seq<nat>, neigh: seq<nat>, a: nat, j: nat)
    requires IsTetArray(tets) && IsTable(neigh, TetCount(tets))
    requires a < TetCount(tets) && j < 4 && Linked(neigh, TetCount(tets), a, j)
  {
    exists k :: 0 <= k < 4 && Neighbor(neigh, Neighbor(neigh, a, j), k) == a
                && (Neighbor(neigh, a, j) != a || k != j)
                && FaceOf(tets, Neighbor(neigh, a, j), k) == FaceOf(tets, a, j)
  }

  /** Every link is answered by a link back. */
  ghost predicate Symmetric(tets: seq<nat>, neigh: seq<nat>)
    requires IsTetArray(tets) && IsTable(neigh, TetCount(tets))
  {
    forall a, j {:trigger Linked(neigh, TetCount(tets), a, j)} ::
      0 <= a < TetCount(tets) && 0 <= j < 4 && Linked(neigh, TetCount(tets), a, j) ==>
      Answered(tets, neigh, a, j)
  }

  /** Symmetry of the links alone, which is what region growing relies on. */
  ghost predicate LinksSymmetric(neigh: seq<nat>, m: nat)
    requires IsTable(neigh, m)
  {
    forall a, j {:trigger Linked(neigh, m, a, j)} ::
      0 <= a < m && 0 <= j < 4 && Linked(neigh, m, a, j) ==>
      exists k :: 0 <= k < 4 && Neighbor(neigh, Neighbor(neigh, a, j), k) == a
  }

  lemma SymmetricLinks(tets: seq<nat>, neigh: seq<nat>)
    requires IsTetArray(tets) && IsTable(neigh, TetCount(tets)) && Symmetric(tets, neigh)
    ensures LinksSymmetric(neigh, TetCount(tets))
  {
    var m := TetCount(tets);
    forall a, j | 0 <= a < m && 0 <= j < 4 && Linked(neigh, m, a, j)
      ensures exists k :: 0 <= k < 4 && Neighbor(neigh, Neighbor(neigh, a, j), k) == a
    {
      assert Answered(tets, neigh, a, j);
    }
  }

  /** Records `p`, `q` and `m` carry the same key. */
  predicate SameKey3(sorted: seq<FaceRecord>, p: nat, q: nat, m: nat)
    requires p < |sorted| && q < |sorted| && m < |sorted|
  {
    sorted[p].key == sorted[q].key && sorted[q].key == sorted[m].key
  }

  /** No canonical face occurs three times among the records. */
  ghost predicate NoTriple(sorted: seq<FaceRecord>) {
    forall p, q, m {:trigger SameKey3(sorted, p, q, m)} :: 0 <= p < q < m < |sorted| ==>
      !SameKey3(sorted, p, q, m)
  }

  /** Face `i` of `a`, face `j` of `b` and face `k` of `c` have the same triple. */
  predicate SameFace3(tets: seq<nat>, a: nat, i: nat, b: nat, j: nat, c: nat, k: nat)
    requires 4 * a + 3 < |tets| && 4 * b + 3 < |tets| && 4 * c + 3 < |tets|
    requires i < 4 && j < 4 && k < 4
  {
    FaceOf(tets, a, i) == FaceOf(tets, b, j) && FaceOf(tets, b, j) == FaceOf(tets, c, k)
  }

  /** No canonical face is shared by three faces of the tetrahedralization. */
  ghost predicate AtMostTwice(tets: seq<nat>)
    requires IsTetArray(tets)
  {
    forall a, i, b, j, c, k {:trigger SameFace3(tets, a, i, b, j, c, k)} ::
      && 0 <= a < TetCount(tets) && 0 <= i < 4
      && 0 <= b < TetCount(tets) && 0 <= j < 4
      && 0 <= c < TetCount(tets) && 0 <= k < 4
      && (a, i) != (b, j) && (a, i) != (c, k) && (b, j) != (c, k)
      ==> !SameFace3(tets, a, i, b, j, c, k)
  }

  /** No other face of the tetrahedralization has the triple of face `j` of `t`. */
  ghost predicate UniqueFace(tets: seq<nat>, t: nat, j: nat)
    requires IsTetArray(tets) && t < TetCount(tets) && j < 4
  {
    forall b, k :: 0 <= b < TetCount(tets) && 0 <= k < 4 && (b, k) != (t, j) ==>
      FaceOf(tets, b, k) != FaceOf(tets, t, j)
  }

  /** Record `p` has an equal-keyed record right beside it. */
  predicate HasTwin(sorted: seq<FaceRecord>, p: nat)
    requires p < |sorted|
  {
    || (p > 0 && sorted[p - 1].key == sorted[p].key)
    || (p + 1 < |sorted| && sorted[p + 1].key == sorted[p].key)
  }

  /** The scan is at the start of a run of equal keys. */
  predicate GroupStart(sorted: seq<FaceRecord>, c: nat) {
    c == 0 || c >= |sorted| || sorted[c - 1].key != sorted[c].key
  }

  /** Among the first `c` records, exactly those with a twin are linked. */
  predicate TwinsLinked(tets: seq<nat>, sorted: seq<FaceRecord>, neigh: seq<nat>, c: nat)
    requires IsTetArray(tets) && RecordsOf(tets, sorted) && |neigh| == |tets| && c <= |sorted|
  {
    forall p {:trigger HasTwin(sorted, p)} :: 0 <= p < c ==>
      (neigh[Slot(sorted[p])] != |tets| <==> HasTwin(sorted, p))
  }

  /** The two writes of lines 104-105 for a matching pair of records. */
  function Link(neigh: seq<nat>, r0: FaceRecord, r1: FaceRecord): (r: seq<nat>)
    requires Slot(r0) < |neigh| && Slot(r1) < |neigh|
    ensures |r| == |neigh|
    ensures r[Slot(r1)] == r0.tet
    ensures Slot(r0) != Slot(r1) ==> r[Slot(r0)] == r1.tet
    ensures forall s {:trigger r[s]} :: 0 <= s < |neigh| && s != Slot(r0) && s != Slot(r1) ==> r[s] == neigh[s]
  {
    neigh[Slot(r0) := r1.tet][Slot(r1) := r0.tet]
  }

  /** After linking `r0` and `r1`, each of the two new links is answered by the other. */
  lemma NewLinksAnswered(tets: seq<nat>, neigh: seq<nat>, r0: FaceRecord, r1: FaceRecord)
    requires IsTetArray(tets) && IsTable(neigh, TetCount(tets))
    requires Describes(tets, r0) && Describes(tets, r1) && Slot(r0) != Slot(r1)
    requires r0.key == r1.key
    requires IsTable(Link(neigh, r0, r1), TetCount(tets))
    ensures Linked(Link(neigh, r0, r1), TetCount(tets), r0.tet, r0.face)
    ensures Answered(tets, Link(neigh, r0, r1), r0.tet, r0.face)
    ensures Linked(Link(neigh, r0, r1), TetCount(tets), r1.tet, r1.face)
    ensures Answered(tets, Link(neigh, r0, r1), r1.tet, r1.face)
  {
    var n' := Link(neigh, r0, r1);
    assert Neighbor(n', r0.tet, r0.face) == r1.tet;
    assert Neighbor(n', r1.tet, r1.face) == r0.tet;
    assert r0.tet != r1.tet || r0.face != r1.face;
  }

  /** After linking `r0` and `r1`, an older link is still answered. */
  lemma OldLinkAnswered(tets: seq<nat>, neigh: seq<nat>, r0: FaceRecord, r1: FaceRecord, a: nat, j: nat)
    requires IsTetArray(tets) && IsTable(neigh, TetCount(tets)) && Symmetric(tets, neigh)
    requires Slot(r0) < |tets| && Slot(r1) < |tets|
    requires neigh[Slot(r0)] == |tets| && neigh[Slot(r1)] == |tets|
    requires a < TetCount(tets) && j < 4 && 4 * a + j != Slot(r0) && 4 * a + j != Slot(r1)
    requires Linked(neigh, TetCount(tets), a, j)
    requires IsTable(Link(neigh, r0, r1), TetCount(tets))
    ensures Linked(Link(neigh, r0, r1), TetCount(tets), a, j)
    ensures Answered(tets, Link(neigh, r0, r1), a, j)
  {
    var n' := Link(neigh, r0, r1);
    var b := Neighbor(neigh, a, j);
    assert Neighbor(n', a, j) == b;
    assert Answered(tets, neigh, a, j);
    var k :| 0 <= k < 4 && Neighbor(neigh, b, k) == a && (b != a || k != j)
             && FaceOf(tets, b, k) == FaceOf(tets, a, j);
    assert Neighbor(n', b, k) == a;
  }

  /** Linking two unlinked records with equal keys keeps the table symmetric. */
  lemma LinkPreservesSymmetric(tets: seq<nat>, neigh: seq<nat>, r0: FaceRecord, r1: FaceRecord)
    requires IsTetArray(tets) && IsTable(neigh, TetCount(tets)) && Symmetric(tets, neigh)
    requires Describes(tets, r0) && Describes(tets, r1) && Slot(r0) != Slot(r1)
    requires neigh[Slot(r0)] == |tets| && neigh[Slot(r1)] == |tets|
    requires r0.key == r1.key
    ensures IsTable(Link(neigh, r0, r1), TetCount(tets))
    ensures Symmetric(tets, Link(neigh, r0, r1))
  {
    var m := TetCount(tets);
    var n' := Link(neigh, r0, r1);
    assert IsTable(n', m);
    NewLinksAnswered(tets, neigh, r0, r1);
    forall a, j | 0 <= a < m && 0 <= j < 4 && Linked(n', m, a, j)
      ensures Answered(tets, n', a, j)
    {
      if 4 * a + j == Slot(r0) {
        SlotInjective(a, j, r0.tet, r0.face);
      } else if 4 * a + j == Slot(r1) {
        SlotInjective(a, j, r1.tet, r1.face);
      } else {
        assert Neighbor(n', a, j) == Neighbor(neigh, a, j);
        OldLinkAnswered(tets, neigh, r0, r1, a, j);
      }
    }
  }

  /** One matching step of the scan keeps every scan invariant. */
  lemma LinkStep(tets: seq<nat>, sorted: seq<FaceRecord>, c: nat, neigh: seq<nat>)
    requires IsTetArray(tets) && RecordsOf(tets, sorted)
    requires c + 1 < |sorted|
    requires IsTable(neigh, TetCount(tets))
    requires forall p {:trigger neigh[Slot(sorted[p])]} :: c <= p < |sorted| ==> neigh[Slot(sorted[p])] == |tets|
    requires Symmetric(tets, neigh)
    requires NoTriple(sorted) ==> GroupStart(sorted, c) && TwinsLinked(tets, sorted, neigh, c)
    requires sorted[c].key == sorted[c + 1].key
    ensures IsTable(Link(neigh, sorted[c], sorted[c + 1]), TetCount(tets))
    ensures Symmetric(tets, Link(neigh, sorted[c], sorted[c + 1]))
    ensures forall p :: c + 2 <= p < |sorted| ==> Link(neigh, sorted[c], sorted[c + 1])[Slot(sorted[p])] == |tets|
    ensures NoTriple(sorted) ==>
              GroupStart(sorted, c + 2) && TwinsLinked(tets, sorted, Link(neigh, sorted[c], sorted[c + 1]), c + 2)
  {
    LinkPreservesSymmetric(tets, neigh, sorted[c], sorted[c + 1]);
    var n' := Link(neigh, sorted[c], sorted[c + 1]);
    LinkLeavesRest(tets, sorted, c, neigh);
    if NoTriple(sorted) {
      LinkKeepsTwins(tets, sorted, c, neigh);
    }
  }

  /** The two writes of a matching step touch no record after the pair. */
  lemma LinkLeavesRest(tets: seq<nat>, sorted: seq<FaceRecord>, c: nat, neigh: seq<nat>)
    requires IsTetArray(tets) && RecordsOf(tets, sorted)
    requires c + 1 < |sorted| && |neigh| == |tets|
    requires forall p {:trigger neigh[Slot(sorted[p])]} :: c <= p < |sorted| ==> neigh[Slot(sorted[p])] == |tets|
    ensures forall p :: c + 2 <= p < |sorted| ==> Link(neigh, sorted[c], sorted[c + 1])[Slot(sorted[p])] == |tets|
  {
    forall p | c + 2 <= p < |sorted|
      ensures Link(neigh, sorted[c], sorted[c + 1])[Slot(sorted[p])] == |tets|
    {
      assert Slot(sorted[c]) != Slot(sorted[p]) && Slot(sorted[c + 1]) != Slot(sorted[p]);
    }
  }

  /** A matching step links exactly the pair it matched, so the twin invariant
      moves past both records. */
  lemma LinkKeepsTwins(tets: seq<nat>, sorted: seq<FaceRecord>, c: nat, neigh: seq<nat>)
    requires IsTetArray(tets) && RecordsOf(tets, sorted)
    requires c + 1 < |sorted| && |neigh| == |tets|
    requires NoTriple(sorted) && GroupStart(sorted, c) && TwinsLinked(tets, sorted, neigh, c)
    requires sorted[c].key == sorted[c + 1].key
    ensures GroupStart(sorted, c + 2) && TwinsLinked(tets, sorted, Link(neigh, sorted[c], sorted[c + 1]), c + 2)
  {
    var n' := Link(neigh, sorted[c], sorted[c + 1]);
    assert c + 2 < |sorted| ==> !SameKey3(sorted, c, c + 1, c + 2);
    LinkKeepsEarlier(tets, sorted, c, neigh);
    assert Describes(tets, sorted[c]) && Describes(tets, sorted[c + 1]);
    assert Slot(sorted[c]) != Slot(sorted[c + 1]);
    assert n'[Slot(sorted[c])] == sorted[c + 1].tet && n'[Slot(sorted[c + 1])] == sorted[c].tet;
    assert HasTwin(sorted, c) && HasTwin(sorted, c + 1);
    forall p | 0 <= p < c + 2
      ensures n'[Slot(sorted[p])] != |tets| <==> HasTwin(sorted, p)
    {
      if p < c {
        assert n'[Slot(sorted[p])] == neigh[Slot(sorted[p])];
      }
    }
  }

  /** Linking the pair at `c` leaves the entries of the records before it alone. */
  lemma LinkKeepsEarlier(tets: seq<nat>, sorted: seq<FaceRecord>, c: nat, neigh: seq<nat>)
    requires IsTetArray(tets) && RecordsOf(tets, sorted)
    requires c + 1 < |sorted| && |neigh| == |tets|
    ensures forall p :: 0 <= p < c ==>
              Link(neigh, sorted[c], sorted[c + 1])[Slot(sorted[p])] == neigh[Slot(sorted[p])]
  {
    forall p | 0 <= p < c
      ensures Link(neigh, sorted[c], sorted[c + 1])[Slot(sorted[p])] == neigh[Slot(sorted[p])]
    {
      assert Slot(sorted[p]) != Slot(sorted[c]) && Slot(sorted[p]) != Slot(sorted[c + 1]);
    }
  }

  /** One non-matching step of the scan keeps every scan invariant. */
  lemma SkipStep(tets: seq<nat>, sorted: seq<FaceRecord>, c: nat, neigh: seq<nat>)
    requires IsTetArray(tets) && RecordsOf(tets, sorted)
    requires c < |sorted|
    requires |neigh| == |tets|
    requires neigh[Slot(sorted[c])] == |tets|
    requires NoTriple(sorted) ==> GroupStart(sorted, c) && TwinsLinked(tets, sorted, neigh, c)
    requires c + 1 < |sorted| ==> sorted[c].key != sorted[c + 1].key
    ensures NoTriple(sorted) ==> GroupStart(sorted, c + 1) && TwinsLinked(tets, sorted, neigh, c + 1)
  {
    if NoTriple(sorted) {
      assert !HasTwin(sorted, c);
      forall p | 0 <= p < c + 1
        ensures neigh[Slot(sorted[p])] != |tets| <==> HasTwin(sorted, p)
      {
      }
    }
  }

  /** The scan may continue at record `c` over `neigh`: the records from `c`
      on are still unlinked, every link is answered, and, when no key occurs
      three times, exactly the records before `c` with a twin are linked. */
  ghost predicate ScanReady(tets: seq<nat>, sorted: seq<FaceRecord>, c: nat, neigh: seq<nat>) {
    && IsTetArray(tets) && RecordsOf(tets, sorted)
    && c <= |sorted|
    && IsTable(neigh, TetCount(tets))
    && (forall p {:trigger neigh[Slot(sorted[p])]} :: c <= p < |sorted| ==> neigh[Slot(sorted[p])] == |tets|)
    && Symmetric(tets, neigh)
    && (NoTriple(sorted) ==> GroupStart(sorted, c) && TwinsLinked(tets, sorted, neigh, c))
  }

  /** The pairing scan of lines 95-108, one loop iteration per call: the record
      at `c` is linked with the one after it when their keys compare equal. */
  function Scan(tets: seq<nat>, sorted: seq<FaceRecord>, c: nat, neigh: seq<nat>): (r: seq<nat>)
    requires ScanReady(tets, sorted, c, neigh)
    ensures IsTable(r, TetCount(tets))
    ensures Symmetric(tets, r)
    ensures NoTriple(sorted) ==> TwinsLinked(tets, sorted, r, |sorted|)
    decreases |sorted| - c
  {
    if c == |sorted| then
      neigh
    else if c + 1 == |sorted| then
      SkipStep(tets, sorted, c, neigh);
      neigh
    else if Compare(sorted[c], sorted[c + 1]) == 0 then
      LinkReady(tets, sorted, c, neigh);
      var linked := Link(neigh, sorted[c], sorted[c + 1]);
      Scan(tets, sorted, c + 2, linked)
    else
      SkipReady(tets, sorted, c, neigh);
      Scan(tets, sorted, c + 1, neigh)
  }

  /** A record whose key differs from the next one's is passed over, and the
      scan may go on from the next record with the table unchanged. */
  lemma SkipReady(tets: seq<nat>, sorted: seq<FaceRecord>, c: nat, neigh: seq<nat>)
    requires ScanReady(tets, sorted, c, neigh)
    requires c + 1 < |sorted| && Compare(sorted[c], sorted[c + 1]) != 0
    ensures ScanReady(tets, sorted, c + 1, neigh)
  {
    assert sorted[c].key != sorted[c + 1].key;
    SkipStep(tets, sorted, c, neigh);
  }

  /** Two records with equal keys are linked, and the scan may go on from the
      record after them. */
  lemma LinkReady(tets: seq<nat>, sorted: seq<FaceRecord>, c: nat, neigh: seq<nat>)
    requires ScanReady(tets, sorted, c, neigh)
    requires c + 1 < |sorted| && Compare(sorted[c], sorted[c + 1]) == 0
    ensures Slot(sorted[c]) < |neigh| && Slot(sorted[c + 1]) < |neigh|
    ensures ScanReady(tets, sorted, c + 2, Link(neigh, sorted[c], sorted[c + 1]))
  {
    LinkStep(tets, sorted, c, neigh);
  }

  /** Without a face shared three times, no three records share a key. */
  lemma AtMostTwiceNoTriple(tets: seq<nat>, sorted: seq<FaceRecord>)
    requires IsTetArray(tets) && RecordsOf(tets, sorted)
    requires AtMostTwice(tets)
    ensures NoTriple(sorted)
  {
    forall p, q, m | 0 <= p < q < m < |sorted|
      ensures !SameKey3(sorted, p, q, m)
    {
      var x, y, z := sorted[p], sorted[q], sorted[m];
      assert Slot(x) != Slot(y) && Slot(x) != Slot(z) && Slot(y) != Slot(z);
      assert (x.tet, x.face) != (y.tet, y.face) && (x.tet, x.face) != (z.tet, z.face)
             && (y.tet, y.face) != (z.tet, z.face);
      assert !SameFace3(tets, x.tet, x.face, y.tet, y.face, z.tet, z.face);
    }
  }

  /** An unlinked face after the scan has no other face with its triple. */
  lemma UnlinkedIsUnique(tets: seq<nat>, sorted: seq<FaceRecord>, neigh: seq<nat>, p: nat)
    requires IsTetArray(tets) && RecordsOf(tets, sorted) && Covers(tets, sorted)
    requires SortedByCompare(sorted)
    requires |neigh| == |tets|
    requires TwinsLinked(tets, sorted, neigh, |sorted|)
    requires p < |sorted| && neigh[Slot(sorted[p])] == |tets|
    ensures UniqueFace(tets, sorted[p].tet, sorted[p].face)
  {
    var t, j := sorted[p].tet, sorted[p].face;
    assert !HasTwin(sorted, p);
    forall b, k | 0 <= b < TetCount(tets) && 0 <= k < 4 && (b, k) != (t, j)
      ensures FaceOf(tets, b, k) != FaceOf(tets, t, j)
    {
      assert HasRecord(sorted, b, k);
    }
  }

  /** A linked face after the scan shares its triple with another face. */
  lemma LinkedIsShared(tets: seq<nat>, sorted: seq<FaceRecord>, neigh: seq<nat>, p: nat)
    requires IsTetArray(tets) && RecordsOf(tets, sorted)
    requires |neigh| == |tets|
    requires TwinsLinked(tets, sorted, neigh, |sorted|)
    requires p < |sorted| && neigh[Slot(sorted[p])] != |tets|
    ensures !UniqueFace(tets, sorted[p].tet, sorted[p].face)
  {
    assert HasTwin(sorted, p);
    var p' := if p > 0 && sorted[p - 1].key == sorted[p].key then p - 1 else p + 1;
    var r := sorted[p'];
    assert Slot(r) != Slot(sorted[p]);
    assert (r.tet, r.face) != (sorted[p].tet, sorted[p].face);
    assert FaceOf(tets, r.tet, r.face) == FaceOf(tets, sorted[p].tet, sorted[p].face);
  }

  /** Linked records in sorted order are exactly the faces whose triple is shared. */
  lemma TwinsAreSharedFaces(tets: seq<nat>, sorted: seq<FaceRecord>, neigh: seq<nat>)
    requires IsTetArray(tets) && RecordsOf(tets, sorted) && Covers(tets, sorted)
    requires SortedByCompare(sorted)
    requires |neigh| == |tets|
    requires TwinsLinked(tets, sorted, neigh, |sorted|)
    ensures forall t, j :: 0 <= t < TetCount(tets) && 0 <= j < 4 ==>
              (Neighbor(neigh, t, j) == |tets| <==> UniqueFace(tets, t, j))
  {
    forall t, j | 0 <= t < TetCount(tets) && 0 <= j < 4
      ensures Neighbor(neigh, t, j) == |tets| <==> UniqueFace(tets, t, j)
    {
      TwinAt(tets, sorted, neigh, t, j);
    }
  }

  /** One face of `TwinsAreSharedFaces`, through the record that carries it. */
  lemma TwinAt(tets: seq<nat>, sorted: seq<FaceRecord>, neigh: seq<nat>, t: nat, j: nat)
    requires IsTetArray(tets) && RecordsOf(tets, sorted) && Covers(tets, sorted)
    requires SortedByCompare(sorted)
    requires |neigh| == |tets|
    requires TwinsLinked(tets, sorted, neigh, |sorted|)
    requires t < TetCount(tets) && j < 4
    ensures Neighbor(neigh, t, j) == |tets| <==> UniqueFace(tets, t, j)
  {
    assert HasRecord(sorted, t, j);
    var p :| 0 <= p < |sorted| && sorted[p].tet == t && sorted[p].face == j;
    assert Neighbor(neigh, t, j) == neigh[Slot(sorted[p])];
    if neigh[Slot(sorted[p])] == |tets| {
      UnlinkedIsUnique(tets, sorted, neigh, p);
    } else {
      LinkedIsShared(tets, sorted, neigh, p);
    }
  }

  /** On a manifold tetrahedralization the scan links exactly the shared faces,
      each to the one other face carrying the same triple. */
  lemma ManifoldLinks(tets: seq<nat>, sorted: seq<FaceRecord>, neigh: seq<nat>)
    requires IsTetArray(tets) && RecordsOf(tets, sorted) && Covers(tets, sorted)
    requires SortedByCompare(sorted)
    requires IsTable(neigh, TetCount(tets)) && Symmetric(tets, neigh)
    requires NoTriple(sorted) ==> TwinsLinked(tets, sorted, neigh, |sorted|)
    ensures AtMostTwice(tets) ==>
              forall t, j :: 0 <= t < TetCount(tets) && 0 <= j < 4 ==>
                (Neighbor(neigh, t, j) == |tets| <==> UniqueFace(tets, t, j))
    ensures AtMostTwice(tets) ==>
              forall a, i, b, j :: 0 <= a < TetCount(tets) && 0 <= i < 4 && 0 <= b < TetCount(tets)
                                   && 0 <= j < 4 && (a, i) != (b, j) && FaceOf(tets, a, i) == FaceOf(tets, b, j)
                                   ==> Neighbor(neigh, a, i) == b
  {
    if AtMostTwice(tets) {
      AtMostTwiceNoTriple(tets, sorted);
      TwinsAreSharedFaces(tets, sorted, neigh);
      forall a, i, b, j | 0 <= a < TetCount(tets) && 0 <= i < 4 && 0 <= b < TetCount(tets)
                          && 0 <= j < 4 && (a, i) != (b, j) && FaceOf(tets, a, i) == FaceOf(tets, b, j)
        ensures Neighbor(neigh, a, i) == b
      {
        assert !UniqueFace(tets, a, i);
        assert Linked(neigh, TetCount(tets), a, i);
        assert Answered(tets, neigh, a, i);
        var c := Neighbor(neigh, a, i);
        var k :| 0 <= k < 4 && Neighbor(neigh, c, k) == a && (c != a || k != i)
                 && FaceOf(tets, c, k) == FaceOf(tets, a, i);
        ThirdFaceIsTwin(tets, a, i, b, j, c, k);
      }
    }
  }

  /** When faces occur at most twice, two faces sharing the triple of a third
      are the same face. */
  lemma ThirdFaceIsTwin(tets: seq<nat>, a: nat, i: nat, b: nat, j: nat, c: nat, k: nat)
    requires IsTetArray(tets) && AtMostTwice(tets)
    requires a < TetCount(tets) && b < TetCount(tets) && c < TetCount(tets) && i < 4 && j < 4 && k < 4
    requires (a, i) != (b, j) && (a, i) != (c, k)
    requires FaceOf(tets, a, i) == FaceOf(tets, b, j) && FaceOf(tets, c, k) == FaceOf(tets, a, i)
    ensures (c, k) == (b, j)
  {
    assert SameFace3(tets, a, i, b, j, c, k);
  }

  /** The table built by `computeTetNeighbors_` from the emitted records in
      any order `qsort` may leave them in. */
  function BuildNeighbors(tets: seq<nat>, sorted: seq<FaceRecord>): (neigh: seq<nat>)
    requires IsTetArray(tets)
    requires SortedPermutation(sorted, Records(tets))
    ensures IsTable(neigh, TetCount(tets))
    ensures Symmetric(tets, neigh)
    ensures AtMostTwice(tets) ==>
              forall t, j :: 0 <= t < TetCount(tets) && 0 <= j < 4 ==>
                (Neighbor(neigh, t, j) == |tets| <==> UniqueFace(tets, t, j))
    ensures AtMostTwice(tets) ==>
              forall a, i, b, j :: 0 <= a < TetCount(tets) && 0 <= i < 4 && 0 <= b < TetCount(tets)
                                   && 0 <= j < 4 && (a, i) != (b, j) && FaceOf(tets, a, i) == FaceOf(tets, b, j)
                                   ==> Neighbor(neigh, a, i) == b
  {
    PermutationFacts(tets, sorted);
    var neigh := Scan(tets, sorted, 0, seq(|tets|, _ => |tets|));
    ManifoldLinks(tets, sorted, neigh);
    neigh
  }
}
