/** Faces of a tetrahedron and the order on face records used by the adjacency
    builder (Mesh/alphaShapes.cpp, `_faces`, `getOrderedFace`, `compareFourInt`).

    A tetrahedralization is a flat sequence of vertex indices, four per
    tetrahedron: tetrahedron `t` owns positions `4*t .. 4*t+3`. */
module Faces {

  /** The fixed face-to-vertex table `_faces`. */
  const FaceTable: seq<seq<nat>> := [[0, 1, 2], [0, 1, 3], [0, 2, 3], [1, 2, 3]]

  /** Local face `i` lists, in increasing order, the three local vertices other
      than vertex `3 - i`: it is the face opposite that vertex. */
  function LocalFace(i: nat): (r: seq<nat>)
    requires i < 4
    ensures |r| == 3
    ensures r[0] < r[1] < r[2] < 4
    ensures 3 - i !in r
  {
    FaceTable[i]
  }

  /** Three vertex indices of a face, `lo`, `mid`, `hi` being `f[0]`, `f[1]`, `f[2]`. */
  datatype Triple = Triple(lo: nat, mid: nat, hi: nat)

  predicate Ordered(f: Triple) {
    f.lo <= f.mid <= f.hi
  }

  function Vertices(f: Triple): multiset<nat> {
    multiset{f.lo, f.mid, f.hi}
  }

  /** The hand-written compare network of `getOrderedFace`: the result is the
      three inputs in non-decreasing order. */
  function Sort3(no1: nat, no2: nat, no3: nat): Triple {
    var sto := if no1 > no2 then no1 else no2;
    var lo := if no1 > no2 then no2 else no1;
    if sto > no3 then
      if lo > no3 then Triple(no3, lo, sto) else Triple(lo, no3, sto)
    else
      Triple(lo, sto, no3)
  }

  /** The compare network sorts: its result is ordered and holds exactly the
      three inputs. */
  lemma Sort3Sorts(no1: nat, no2: nat, no3: nat)
    ensures Ordered(Sort3(no1, no2, no3))
    ensures Vertices(Sort3(no1, no2, no3)) == multiset{no1, no2, no3}
  {
    if no1 > no2 {
      SwapFirst(no1, no2, no3);
      InsertThird(no2, no1, no3);
    } else {
      InsertThird(no1, no2, no3);
    }
  }

  /** The second stage of the network: `no3` inserted into the ordered pair
      `lo <= sto`. */
  lemma InsertThird(lo: nat, sto: nat, no3: nat)
    requires lo <= sto
    ensures Ordered(Sort3(lo, sto, no3)) && Sort3(lo, sto, no3) == Sort3(sto, lo, no3)
    ensures Vertices(Sort3(lo, sto, no3)) == multiset{lo, sto, no3}
  {
    if sto > no3 && lo > no3 {
      SwapFirst(no3, lo, sto);
      SwapLast(lo, no3, sto);
    } else if sto > no3 {
      SwapLast(lo, no3, sto);
    }
  }

  lemma SwapFirst(a: nat, b: nat, c: nat)
    ensures multiset{a, b, c} == multiset{b, a, c}
  {
  }

  lemma SwapLast(a: nat, b: nat, c: nat)
    ensures multiset{a, b, c} == multiset{a, c, b}
  {
  }

  /** An ordered triple is determined by its multiset of vertices. */
  lemma OrderedUnique(f: Triple, g: Triple)
    requires Ordered(f) && Ordered(g)
    requires Vertices(f) == Vertices(g)
    ensures f == g
  {
    assert f.lo in Vertices(g) && g.lo in Vertices(f);
    assert f.hi in Vertices(g) && g.hi in Vertices(f);
    assert f.lo == g.lo;
    assert f.hi == g.hi;
    assert Vertices(f) - multiset{f.lo, f.hi} == multiset{f.mid};
    assert Vertices(g) - multiset{g.lo, g.hi} == multiset{g.mid};
  }

  /** Two listings of three vertices give the same canonical face exactly when
      they list the same vertices. */
  lemma SameFaceIffSameVertices(a: nat, b: nat, c: nat, d: nat, e: nat, f: nat)
    ensures Sort3(a, b, c) == Sort3(d, e, f) <==> multiset{a, b, c} == multiset{d, e, f}
  {
    Sort3Sorts(a, b, c);
    Sort3Sorts(d, e, f);
    if multiset{a, b, c} == multiset{d, e, f} {
      OrderedUnique(Sort3(a, b, c), Sort3(d, e, f));
    }
  }

  /** The canonical triple of local face `i` of tetrahedron `t` (`getOrderedFace`). */
  function FaceOf(tets: seq<nat>, t: nat, i: nat): Triple
    requires 4 * t + 3 < |tets| && i < 4
  {
    var v := tets[4 * t..4 * t + 4];
    if i == 0 then Sort3(v[0], v[1], v[2])
    else if i == 1 then Sort3(v[0], v[1], v[3])
    else if i == 2 then Sort3(v[0], v[2], v[3])
    else Sort3(v[1], v[2], v[3])
  }

  /** `FaceOf` reads the vertices of local face `i` through the face table. */
  lemma FaceOfUsesTable(tets: seq<nat>, t: nat, i: nat)
    requires 4 * t + 3 < |tets| && i < 4
    ensures FaceOf(tets, t, i) == Sort3(tets[4 * t + LocalFace(i)[0]], tets[4 * t + LocalFace(i)[1]],
                                        tets[4 * t + LocalFace(i)[2]])
  {
    assert LocalFace(i) == FaceTable[i];
    if i == 0 {
      assert FaceTable[0] == [0, 1, 2];
    } else if i == 1 {
      assert FaceTable[1] == [0, 1, 3];
    } else if i == 2 {
      assert FaceTable[2] == [0, 2, 3];
    } else {
      assert FaceTable[3] == [1, 2, 3];
    }
  }

  /** The key of local face `i` of tetrahedron `t` is the three vertices the
      face table selects, in non-decreasing order. */
  lemma FaceOfCanonical(tets: seq<nat>, t: nat, i: nat)
    requires 4 * t + 3 < |tets| && i < 4
    ensures Ordered(FaceOf(tets, t, i))
    ensures Vertices(FaceOf(tets, t, i)) == multiset{tets[4 * t + LocalFace(i)[0]], tets[4 * t + LocalFace(i)[1]],
                                                     tets[4 * t + LocalFace(i)[2]]}
  {
    FaceOfUsesTable(tets, t, i);
    Sort3Sorts(tets[4 * t + LocalFace(i)[0]], tets[4 * t + LocalFace(i)[1]], tets[4 * t + LocalFace(i)[2]]);
  }

  /** One record of the adjacency builder: a canonical face, the owning
      tetrahedron and the local face number (five `size_t` in the source). */
  datatype FaceRecord = FaceRecord(key: Triple, tet: nat, face: nat)

  /** Ascending lexicographic order on triples, as an independent reference. */
  predicate LexLess(x: Triple, y: Triple) {
    || x.lo < y.lo
    || (x.lo == y.lo && x.mid < y.mid)
    || (x.lo == y.lo && x.mid == y.mid && x.hi < y.hi)
  }

  /** `compareFourInt`: a three-way comparator that looks only at the face key and
      orders records by DEScending key. */
  function Compare(a: FaceRecord, b: FaceRecord): (r: int)
    ensures -1 <= r <= 1
    ensures r == 0 <==> a.key == b.key
    ensures r < 0 <==> LexLess(b.key, a.key)
    ensures r > 0 <==> LexLess(a.key, b.key)
  {
    if a.key.lo < b.key.lo then 1
    else if a.key.lo > b.key.lo then -1
    else if a.key.mid < b.key.mid then 1
    else if a.key.mid > b.key.mid then -1
    else if a.key.hi < b.key.hi then 1
    else if a.key.hi > b.key.hi then -1
    else 0
  }

  /** The comparator is antisymmetric and ignores the tetrahedron and face fields. */
  lemma CompareFlipsSign(a: FaceRecord, b: FaceRecord, a': FaceRecord, b': FaceRecord)
    requires a'.key == a.key && b'.key == b.key
    ensures Compare(a, b) == -Compare(b, a)
    ensures Compare(a', b') == Compare(a, b)
  {
  }

  /** `Compare(a, b) <= 0` ("a may precede b") is transitive, so it is a total preorder. */
  lemma CompareTransitive(a: FaceRecord, b: FaceRecord, c: FaceRecord)
    requires Compare(a, b) <= 0 && Compare(b, c) <= 0
    ensures Compare(a, c) <= 0
  {
  }

  /** The order `qsort` leaves the records in. */
  predicate SortedByCompare(s: seq<FaceRecord>) {
    forall p, q :: 0 <= p < q < |s| ==> Compare(s[p], s[q]) <= 0
  }

  /** In a sorted sequence, records with equal keys are contiguous. */
  lemma EqualKeysContiguous(s: seq<FaceRecord>, p: nat, m: nat, q: nat)
    requires SortedByCompare(s)
    requires p < m < q < |s|
    requires s[p].key == s[q].key
    ensures s[m].key == s[p].key
  {
    assert Compare(s[p], s[m]) <= 0;
    assert Compare(s[m], s[q]) <= 0;
  }
}
