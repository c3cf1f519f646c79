/** Region growing of `alphaShapes_` (Mesh/alphaShapes.cpp, lines 132-172).

    Tetrahedra that pass the alpha test are grouped into domains: starting from
    every valid tetrahedron not yet in a domain, a depth-first search follows
    the neighbour table across faces into valid tetrahedra. Faces that lead
    nowhere, or into a tetrahedron failing the test, are recorded as boundary
    pairs `(t, j)` in a flat sequence `t0, j0, t1, j1, ...`.

    The alpha test itself (circumradius below a threshold) is a per-tetrahedron
    boolean `valid[t]`. */
module Flood {
  import opened Wrappers
  import opened Neighbors

  /** Face `j` of `t` ends a region: nothing lies across it, or the tetrahedron
      across it fails the alpha test. */
  predicate Exterior(neigh: seq<nat>, valid: seq<bool>, t: nat, j: nat)
    requires IsTable(neigh, |valid|) && t < |valid| && j < 4
  {
    var y := Neighbor(neigh, t, j);
    y == 4 * |valid| || !valid[y]
  }

  /** Face `j` of `t` leads into a tetrahedron that passes the alpha test. */
  predicate Interior(neigh: seq<nat>, valid: seq<bool>, t: nat, j: nat)
    requires IsTable(neigh, |valid|) && t < |valid| && j < 4
  {
    !Exterior(neigh, valid, t, j)
  }

  /** The `p`-th pair of a flat boundary sequence. */
  function PairAt(b: seq<nat>, p: nat): (nat, nat)
    requires 2 * p + 1 < |b|
  {
    (b[2 * p], b[2 * p + 1])
  }

  /** The pair `(t, j)` occurs in the flat boundary sequence `b`. */
  ghost predicate HasPair(b: seq<nat>, t: nat, j: nat) {
    exists p: nat :: 2 * p + 1 < |b| && PairAt(b, p) == (t, j)
  }

  /** No pair occurs twice. */
  ghost predicate DistinctPairs(b: seq<nat>) {
    forall p: nat, q: nat :: p < q < |b| && 2 * q + 1 < |b| ==> PairAt(b, p) != PairAt(b, q)
  }

  /** Appending one pair keeps the earlier pairs and adds exactly the new one. */
  lemma PushPair(b: seq<nat>, t: nat, j: nat)
    requires |b| % 2 == 0
    ensures forall p: nat :: 2 * p + 1 < |b| ==> PairAt(b + [t, j], p) == PairAt(b, p)
    ensures PairAt(b + [t, j], |b| / 2) == (t, j)
    ensures forall x: nat, k: nat :: HasPair(b + [t, j], x, k) <==> HasPair(b, x, k) || (x, k) == (t, j)
  {
    var b' := b + [t, j];
    forall x: nat, k: nat ensures HasPair(b', x, k) <==> HasPair(b, x, k) || (x, k) == (t, j) {
      if HasPair(b', x, k) {
        var p: nat :| 2 * p + 1 < |b'| && PairAt(b', p) == (x, k);
        if 2 * p + 1 < |b| {
          assert PairAt(b, p) == (x, k);
        }
      }
      if HasPair(b, x, k) {
        var p: nat :| 2 * p + 1 < |b| && PairAt(b, p) == (x, k);
        assert PairAt(b', p) == (x, k);
      }
      if (x, k) == (t, j) {
        assert PairAt(b', |b| / 2) == (x, k);
      }
    }
  }

  /** No tetrahedron occurs twice. */
  predicate Distinct(s: seq<nat>) {
    forall i, i' :: 0 <= i < i' < |s| ==> s[i] != s[i']
  }

  /** The number of tetrahedra not yet touched. */
  function CountFalse(s: seq<bool>): nat {
    if s == [] then 0 else CountFalse(s[..|s| - 1]) + (if s[|s| - 1] then 0 else 1)
  }

  /** Touching an untouched tetrahedron lowers the count by one. */
  lemma {:induction false} MarkCounts(s: seq<bool>, i: nat)
    requires i < |s| && !s[i]
    ensures CountFalse(s[i := true]) == CountFalse(s) - 1
  {
    var n := |s| - 1;
    if i < n {
      MarkCounts(s[..n], i);
      assert s[i := true][..n] == s[..n][i := true];
    } else {
      assert s[i := true][..n] == s[..n];
    }
  }

  /** The state of one depth-first search: the `_touched` flags, the stack
      `_s`, the tetrahedra of the domain `_domain` in discovery order and the
      flat `_boundary` sequence. */
  datatype Growth = Growth(touched: seq<bool>, stack: seq<nat>, domain: seq<nat>, boundary: seq<nat>)

  /** Face `k` of `x` has been examined while `t` is being expanded at face `j`. */
  predicate Examined(g: Growth, t: nat, j: nat, x: nat, k: nat) {
    x in g.domain && x !in g.stack && k < 4 && (x != t || k < j)
  }

  /** Every tetrahedron after the first was found across a face of an earlier one. */
  ghost predicate Grown(neigh: seq<nat>, domain: seq<nat>)
    requires forall i :: 0 <= i < |domain| ==> 4 * domain[i] + 3 < |neigh|
  {
    forall i :: 0 < i < |domain| ==>
      exists i', k :: 0 <= i' < i && 0 <= k < 4 && Neighbor(neigh, domain[i'], k) == domain[i]
  }

  /** Every tetrahedron of the search lies below `m`. */
  predicate Bounded(g: Growth, m: nat) {
    && |g.touched| == m
    && (forall i :: 0 <= i < |g.domain| ==> g.domain[i] < m)
  }

  /** Every entry of the stack `s` is a tetrahedron below `m`. */
  predicate StackBelow(s: seq<nat>, m: nat) {
    forall i :: 0 <= i < |s| ==> s[i] < m
  }

  /** The bookkeeping of the search: the touched flags are the initial ones
      plus the domain, the domain starts at the seed and holds fresh valid
      tetrahedra once each, and the stack holds domain tetrahedra once each. */
  ghost predicate Shape(valid: seq<bool>, touched0: seq<bool>, seed: nat, g: Growth)
    requires |touched0| == |valid|
  {
    var m := |valid|;
    && Bounded(g, m)
    && (forall x :: 0 <= x < m ==> (g.touched[x] <==> touched0[x] || x in g.domain))
    && (forall x :: 0 <= x < m && g.touched[x] ==> valid[x])
    && |g.domain| > 0 && g.domain[0] == seed
    && (forall i :: 0 <= i < |g.domain| ==> valid[g.domain[i]] && !touched0[g.domain[i]])
    && Distinct(g.domain)
    && (forall i :: 0 <= i < |g.stack| ==> g.stack[i] in g.domain)
    && Distinct(g.stack)
  }

  /** Every examined face into a valid tetrahedron has touched it, and every
      examined exterior face has been recorded. */
  ghost predicate Covered(neigh: seq<nat>, valid: seq<bool>, g: Growth, t: nat, j: nat)
    requires IsTable(neigh, |valid|) && Bounded(g, |valid|)
  {
    && (forall x: nat, k: nat {:trigger Examined(g, t, j, x, k)} ::
          Examined(g, t, j, x, k) && Interior(neigh, valid, x, k) ==> g.touched[Neighbor(neigh, x, k)])
    && (forall x: nat, k: nat {:trigger Examined(g, t, j, x, k)} ::
          Examined(g, t, j, x, k) && Exterior(neigh, valid, x, k) ==> HasPair(g.boundary, x, k))
  }

  /** The boundary holds distinct pairs, each an examined exterior face. */
  ghost predicate Recorded(neigh: seq<nat>, valid: seq<bool>, g: Growth, t: nat, j: nat)
    requires IsTable(neigh, |valid|) && Bounded(g, |valid|)
  {
    && |g.boundary| % 2 == 0
    && (forall p: nat {:trigger PairAt(g.boundary, p)} :: 2 * p + 1 < |g.boundary| ==>
          && Examined(g, t, j, PairAt(g.boundary, p).0, PairAt(g.boundary, p).1)
          && Exterior(neigh, valid, PairAt(g.boundary, p).0, PairAt(g.boundary, p).1))
    && DistinctPairs(g.boundary)
  }

  /** What the search maintains, while tetrahedron `t` is being expanded and
      its faces `0 .. j-1` have been examined (`j == 4` between expansions). */
  ghost predicate GrowInv(neigh: seq<nat>, valid: seq<bool>, touched0: seq<bool>, seed: nat,
                          g: Growth, t: nat, j: nat)
    requires IsTable(neigh, |valid|) && |touched0| == |valid|
  {
    && Shape(valid, touched0, seed, g)
    && Grown(neigh, g.domain)
    && Covered(neigh, valid, g, t, j)
    && Recorded(neigh, valid, g, t, j)
  }

  /** Lines 150-166: examine face `j` of the tetrahedron `t` just popped. */
  function Visit(neigh: seq<nat>, valid: seq<bool>, g: Growth, t: nat, j: nat): (r: Growth)
    requires IsTable(neigh, |valid|) && |g.touched| == |valid| && t < |valid| && j < 4
    ensures |r.touched| == |g.touched|
    ensures CountFalse(r.touched) <= CountFalse(g.touched)
    ensures CountFalse(r.touched) + |r.stack| == CountFalse(g.touched) + |g.stack|
    ensures StackBelow(g.stack, |valid|) ==> StackBelow(r.stack, |valid|)
    ensures forall x :: 0 <= x < |g.touched| && g.touched[x] ==> r.touched[x]
  {
    var tj := Neighbor(neigh, t, j);
    if tj == 4 * |valid| then
      g.(boundary := g.boundary + [t, j])
    else if !g.touched[tj] then
      if valid[tj] then
        MarkCounts(g.touched, tj);
        Growth(g.touched[tj := true], g.stack + [tj], g.domain + [tj], g.boundary)
      else
        g.(boundary := g.boundary + [t, j])
    else
      g
  }

  /** Popping the top of the stack starts its expansion with no face examined. */
  lemma PopKeeps(neigh: seq<nat>, valid: seq<bool>, touched0: seq<bool>, seed: nat, g: Growth)
    requires IsTable(neigh, |valid|) && |touched0| == |valid|
    requires GrowInv(neigh, valid, touched0, seed, g, seed, 4) && g.stack != []
    ensures var t := g.stack[|g.stack| - 1];
            var g' := g.(stack := g.stack[..|g.stack| - 1]);
            && GrowInv(neigh, valid, touched0, seed, g', t, 0)
            && t in g'.domain && t !in g'.stack
  {
    var t := g.stack[|g.stack| - 1];
    var g' := g.(stack := g.stack[..|g.stack| - 1]);
    PopShape(valid, touched0, seed, g);
    PopExamined(g, seed, t);
    PopCovers(neigh, valid, g, seed, g', t);
    PopRecords(neigh, valid, g, seed, g', t);
  }

  lemma PopExamined(g: Growth, seed: nat, t: nat)
    requires g.stack != [] && t == g.stack[|g.stack| - 1] && t !in g.stack[..|g.stack| - 1]
    ensures forall x: nat, k: nat ::
              Examined(g.(stack := g.stack[..|g.stack| - 1]), t, 0, x, k) <==> Examined(g, seed, 4, x, k)
  {
    assert g.stack == g.stack[..|g.stack| - 1] + [t];
  }

  lemma PopShape(valid: seq<bool>, touched0: seq<bool>, seed: nat, g: Growth)
    requires |touched0| == |valid| && Shape(valid, touched0, seed, g) && g.stack != []
    ensures var t := g.stack[|g.stack| - 1];
            var g' := g.(stack := g.stack[..|g.stack| - 1]);
            Shape(valid, touched0, seed, g') && t in g'.domain && t !in g'.stack
  {
  }

  lemma PopCovers(neigh: seq<nat>, valid: seq<bool>, g: Growth, seed: nat, g': Growth, t: nat)
    requires IsTable(neigh, |valid|) && Bounded(g, |valid|)
    requires g'.touched == g.touched && g'.domain == g.domain && g'.boundary == g.boundary
    requires forall x: nat, k: nat :: Examined(g', t, 0, x, k) ==> Examined(g, seed, 4, x, k)
    requires Covered(neigh, valid, g, seed, 4)
    ensures Covered(neigh, valid, g', t, 0)
  {
  }

  lemma PopRecords(neigh: seq<nat>, valid: seq<bool>, g: Growth, seed: nat, g': Growth, t: nat)
    requires IsTable(neigh, |valid|) && Bounded(g, |valid|)
    requires g'.touched == g.touched && g'.domain == g.domain && g'.boundary == g.boundary
    requires forall x: nat, k: nat :: Examined(g, seed, 4, x, k) ==> Examined(g', t, 0, x, k)
    requires Recorded(neigh, valid, g, seed, 4)
    ensures Recorded(neigh, valid, g', t, 0)
  {
  }

  /** Recording face `j` of `t` covers that face. */
  lemma RecordCovers(neigh: seq<nat>, valid: seq<bool>, g: Growth, t: nat, j: nat)
    requires IsTable(neigh, |valid|) && Bounded(g, |valid|) && |g.boundary| % 2 == 0
    requires Covered(neigh, valid, g, t, j)
    requires t < |valid| && j < 4 && Exterior(neigh, valid, t, j)
    ensures Covered(neigh, valid, g.(boundary := g.boundary + [t, j]), t, j + 1)
  {
    var r := g.(boundary := g.boundary + [t, j]);
    PushPair(g.boundary, t, j);
    forall x: nat, k: nat | Examined(r, t, j + 1, x, k)
      ensures Interior(neigh, valid, x, k) ==> r.touched[Neighbor(neigh, x, k)]
      ensures Exterior(neigh, valid, x, k) ==> HasPair(r.boundary, x, k)
    {
      if (x, k) != (t, j) {
        assert Examined(g, t, j, x, k);
      }
    }
  }

  /** Recording the not yet examined face `j` of `t` keeps the boundary a
      sequence of distinct examined exterior faces. */
  lemma RecordRecords(neigh: seq<nat>, valid: seq<bool>, g: Growth, t: nat, j: nat)
    requires IsTable(neigh, |valid|) && Bounded(g, |valid|)
    requires Recorded(neigh, valid, g, t, j)
    requires t in g.domain && t !in g.stack && j < 4 && Exterior(neigh, valid, t, j)
    ensures Recorded(neigh, valid, g.(boundary := g.boundary + [t, j]), t, j + 1)
  {
    var r := g.(boundary := g.boundary + [t, j]);
    PushPair(g.boundary, t, j);
    forall p: nat | 2 * p + 1 < |g.boundary| ensures PairAt(g.boundary, p) != (t, j) {
      assert Examined(g, t, j, PairAt(g.boundary, p).0, PairAt(g.boundary, p).1);
    }
    forall p: nat, q: nat | p < q < |r.boundary| && 2 * q + 1 < |r.boundary|
      ensures PairAt(r.boundary, p) != PairAt(r.boundary, q)
    {
      if 2 * q + 1 < |g.boundary| {
        assert PairAt(g.boundary, p) != PairAt(g.boundary, q);
      } else {
        assert q == |g.boundary| / 2;
      }
    }
    forall p: nat | 2 * p + 1 < |r.boundary|
      ensures Examined(r, t, j + 1, PairAt(r.boundary, p).0, PairAt(r.boundary, p).1)
    {
      if 2 * p + 1 < |g.boundary| {
        assert Examined(g, t, j, PairAt(g.boundary, p).0, PairAt(g.boundary, p).1);
      }
    }
  }

  /** Lines 153-154 and 163-164: recording face `j` of `t` as a boundary pair
      keeps the search invariant. */
  lemma RecordKeeps(neigh: seq<nat>, valid: seq<bool>, touched0: seq<bool>, seed: nat,
                    g: Growth, t: nat, j: nat)
    requires IsTable(neigh, |valid|) && |touched0| == |valid|
    requires GrowInv(neigh, valid, touched0, seed, g, t, j)
    requires t in g.domain && t !in g.stack && j < 4
    requires t < |valid| && Exterior(neigh, valid, t, j)
    ensures GrowInv(neigh, valid, touched0, seed, g.(boundary := g.boundary + [t, j]), t, j + 1)
  {
    RecordCovers(neigh, valid, g, t, j);
    RecordRecords(neigh, valid, g, t, j);
  }

  /** Adding the fresh tetrahedron across face `j` of `t` keeps the bookkeeping. */
  lemma DiscoverShape(neigh: seq<nat>, valid: seq<bool>, touched0: seq<bool>, seed: nat,
                      g: Growth, tj: nat)
    requires |touched0| == |valid| && Shape(valid, touched0, seed, g)
    requires tj < |valid| && !g.touched[tj] && valid[tj]
    ensures Shape(valid, touched0, seed, Growth(g.touched[tj := true], g.stack + [tj], g.domain + [tj], g.boundary))
    ensures tj !in g.domain
  {
  }

  /** The fresh tetrahedron was found across a face of `t`, already in the domain. */
  lemma DiscoverGrown(neigh: seq<nat>, m: nat, domain: seq<nat>, t: nat, j: nat)
    requires IsTable(neigh, m) && forall i :: 0 <= i < |domain| ==> domain[i] < m
    requires Grown(neigh, domain) && t in domain && j < 4 && Neighbor(neigh, t, j) < m
    ensures Grown(neigh, domain + [Neighbor(neigh, t, j)])
  {
    var d := domain + [Neighbor(neigh, t, j)];
    forall i | 0 < i < |d|
      ensures exists i', k :: 0 <= i' < i && 0 <= k < 4 && Neighbor(neigh, d[i'], k) == d[i]
    {
      if i == |domain| {
        var it :| 0 <= it < |domain| && domain[it] == t;
        assert Neighbor(neigh, d[it], j) == d[i];
      } else {
        var i', k :| 0 <= i' < i && 0 <= k < 4 && Neighbor(neigh, domain[i'], k) == domain[i];
        assert Neighbor(neigh, d[i'], k) == d[i];
      }
    }
    assert forall i :: 0 <= i < |d| ==> d[i] < m;
    assert Grown(neigh, d);
  }

  /** Touching the tetrahedron across face `j` of `t` covers that face. */
  lemma DiscoverCovers(neigh: seq<nat>, valid: seq<bool>, g: Growth, t: nat, j: nat)
    requires IsTable(neigh, |valid|) && Bounded(g, |valid|)
    requires Covered(neigh, valid, g, t, j)
    requires t < |valid| && j < 4 && Neighbor(neigh, t, j) < |valid| && valid[Neighbor(neigh, t, j)]
    requires Neighbor(neigh, t, j) !in g.domain
    ensures var tj := Neighbor(neigh, t, j);
            var r := Growth(g.touched[tj := true], g.stack + [tj], g.domain + [tj], g.boundary);
            Bounded(r, |valid|) && Covered(neigh, valid, r, t, j + 1)
  {
    var tj := Neighbor(neigh, t, j);
    var r := Growth(g.touched[tj := true], g.stack + [tj], g.domain + [tj], g.boundary);
    forall x: nat, k: nat | Examined(r, t, j + 1, x, k)
      ensures Interior(neigh, valid, x, k) ==> r.touched[Neighbor(neigh, x, k)]
      ensures Exterior(neigh, valid, x, k) ==> HasPair(r.boundary, x, k)
    {
      if (x, k) != (t, j) {
        assert Examined(g, t, j, x, k);
      }
    }
  }

  /** Discovering a fresh tetrahedron leaves the recorded pairs valid. */
  lemma DiscoverRecords(neigh: seq<nat>, valid: seq<bool>, g: Growth, t: nat, j: nat, tj: nat)
    requires IsTable(neigh, |valid|) && Bounded(g, |valid|)
    requires Recorded(neigh, valid, g, t, j)
    requires tj < |valid| && tj !in g.domain
    ensures var r := Growth(g.touched[tj := true], g.stack + [tj], g.domain + [tj], g.boundary);
            Bounded(r, |valid|) && Recorded(neigh, valid, r, t, j + 1)
  {
    var r := Growth(g.touched[tj := true], g.stack + [tj], g.domain + [tj], g.boundary);
    forall p: nat | 2 * p + 1 < |r.boundary|
      ensures Examined(r, t, j + 1, PairAt(r.boundary, p).0, PairAt(r.boundary, p).1)
    {
      assert Examined(g, t, j, PairAt(g.boundary, p).0, PairAt(g.boundary, p).1);
    }
  }

  /** Lines 158-160: pushing, touching and adding the valid untouched
      tetrahedron across face `j` of `t` keeps the search invariant. */
  lemma DiscoverKeeps(neigh: seq<nat>, valid: seq<bool>, touched0: seq<bool>, seed: nat,
                      g: Growth, t: nat, j: nat)
    requires IsTable(neigh, |valid|) && |touched0| == |valid|
    requires GrowInv(neigh, valid, touched0, seed, g, t, j)
    requires t in g.domain && t !in g.stack && j < 4
    requires t < |valid| && Neighbor(neigh, t, j) < |valid|
    requires !g.touched[Neighbor(neigh, t, j)] && valid[Neighbor(neigh, t, j)]
    ensures var tj := Neighbor(neigh, t, j);
            GrowInv(neigh, valid, touched0, seed,
                    Growth(g.touched[tj := true], g.stack + [tj], g.domain + [tj], g.boundary), t, j + 1)
  {
    var tj := Neighbor(neigh, t, j);
    DiscoverShape(neigh, valid, touched0, seed, g, tj);
    DiscoverGrown(neigh, |valid|, g.domain, t, j);
    DiscoverCovers(neigh, valid, g, t, j);
    DiscoverRecords(neigh, valid, g, t, j, tj);
  }

  /** Line 156 false: a tetrahedron across face `j` that is already touched
      changes nothing, and the invariant carries over to the next face. */
  lemma SkipKeeps(neigh: seq<nat>, valid: seq<bool>, touched0: seq<bool>, seed: nat,
                  g: Growth, t: nat, j: nat)
    requires IsTable(neigh, |valid|) && |touched0| == |valid|
    requires GrowInv(neigh, valid, touched0, seed, g, t, j)
    requires t in g.domain && t !in g.stack && j < 4
    requires t < |valid| && Neighbor(neigh, t, j) < |valid| && g.touched[Neighbor(neigh, t, j)]
    ensures GrowInv(neigh, valid, touched0, seed, g, t, j + 1)
  {
    forall x: nat, k: nat | Examined(g, t, j + 1, x, k)
      ensures Interior(neigh, valid, x, k) ==> g.touched[Neighbor(neigh, x, k)]
      ensures Exterior(neigh, valid, x, k) ==> HasPair(g.boundary, x, k)
    {
      if (x, k) != (t, j) {
        assert Examined(g, t, j, x, k);
      }
    }
    forall p: nat | 2 * p + 1 < |g.boundary|
      ensures Examined(g, t, j + 1, PairAt(g.boundary, p).0, PairAt(g.boundary, p).1)
    {
      assert Examined(g, t, j, PairAt(g.boundary, p).0, PairAt(g.boundary, p).1);
    }
  }

  /** Examining one face keeps the search invariant. */
  lemma VisitKeeps(neigh: seq<nat>, valid: seq<bool>, touched0: seq<bool>, seed: nat,
                   g: Growth, t: nat, j: nat)
    requires IsTable(neigh, |valid|) && |touched0| == |valid|
    requires GrowInv(neigh, valid, touched0, seed, g, t, j)
    requires t in g.domain && t !in g.stack && j < 4
    ensures t < |valid|
    ensures var r := Visit(neigh, valid, g, t, j);
            GrowInv(neigh, valid, touched0, seed, r, t, j + 1) && t in r.domain && t !in r.stack
  {
    var tj := Neighbor(neigh, t, j);
    if tj == 4 * |valid| {
      RecordKeeps(neigh, valid, touched0, seed, g, t, j);
    } else if !g.touched[tj] {
      if valid[tj] {
        DiscoverKeeps(neigh, valid, touched0, seed, g, t, j);
      } else {
        RecordKeeps(neigh, valid, touched0, seed, g, t, j);
      }
    } else {
      SkipKeeps(neigh, valid, touched0, seed, g, t, j);
    }
  }

  /** Lines 143-145, the seed pushed, touched and added, establish the invariant. */
  lemma StartKeeps(neigh: seq<nat>, valid: seq<bool>, touched0: seq<bool>, seed: nat)
    requires IsTable(neigh, |valid|) && |touched0| == |valid|
    requires forall x :: 0 <= x < |valid| && touched0[x] ==> valid[x]
    requires seed < |valid| && valid[seed] && !touched0[seed]
    ensures GrowInv(neigh, valid, touched0, seed, Growth(touched0[seed := true], [seed], [seed], []), seed, 4)
  {
  }

  /** All four faces of `t` examined: the expansion of `t` is complete. */
  lemma ExpandDone(neigh: seq<nat>, valid: seq<bool>, touched0: seq<bool>, seed: nat, g: Growth, t: nat)
    requires IsTable(neigh, |valid|) && |touched0| == |valid|
    requires GrowInv(neigh, valid, touched0, seed, g, t, 4)
    ensures GrowInv(neigh, valid, touched0, seed, g, seed, 4)
  {
    assert forall x: nat, k: nat :: Examined(g, t, 4, x, k) <==> Examined(g, seed, 4, x, k);
  }

  /** The boundary sequence of a finished domain: pairs `(t, j)` with `t` in the
      domain and face `j` of `t` exterior, every such face exactly once. */
  ghost predicate BoundaryOf(neigh: seq<nat>, valid: seq<bool>, domain: seq<nat>, b: seq<nat>)
    requires IsTable(neigh, |valid|)
    requires forall i :: 0 <= i < |domain| ==> domain[i] < |valid|
  {
    && |b| % 2 == 0
    && (forall p: nat {:trigger PairAt(b, p)} :: 2 * p + 1 < |b| ==>
          && PairAt(b, p).0 in domain && PairAt(b, p).1 < 4
          && Exterior(neigh, valid, PairAt(b, p).0, PairAt(b, p).1))
    && (forall i, k :: 0 <= i < |domain| && 0 <= k < 4 && Exterior(neigh, valid, domain[i], k) ==>
          HasPair(b, domain[i], k))
    && DistinctPairs(b)
  }

  /** With the stack empty, every face of every domain tetrahedron has been examined. */
  lemma GrowFinish(neigh: seq<nat>, valid: seq<bool>, touched0: seq<bool>, seed: nat, g: Growth)
    requires IsTable(neigh, |valid|) && |touched0| == |valid|
    requires GrowInv(neigh, valid, touched0, seed, g, seed, 4) && g.stack == []
    ensures forall i :: 0 <= i < |g.domain| ==> g.domain[i] < |valid|
    ensures forall i, k :: 0 <= i < |g.domain| && 0 <= k < 4 && Interior(neigh, valid, g.domain[i], k) ==>
              g.touched[Neighbor(neigh, g.domain[i], k)]
    ensures BoundaryOf(neigh, valid, g.domain, g.boundary)
  {
    forall i, k | 0 <= i < |g.domain| && 0 <= k < 4
      ensures Interior(neigh, valid, g.domain[i], k) ==> g.touched[Neighbor(neigh, g.domain[i], k)]
      ensures Exterior(neigh, valid, g.domain[i], k) ==> HasPair(g.boundary, g.domain[i], k)
    {
      assert Examined(g, seed, 4, g.domain[i], k);
    }
    forall p: nat | 2 * p + 1 < |g.boundary|
      ensures PairAt(g.boundary, p).0 in g.domain && PairAt(g.boundary, p).1 < 4
    {
      assert Examined(g, seed, 4, PairAt(g.boundary, p).0, PairAt(g.boundary, p).1);
    }
  }

  /** The depth-first search of lines 140-168 from the valid, untouched `seed`.
      This departs on purpose from line 144, which writes `_touched[i]` with
      `i = 4*seed`: here the seed is marked at its own index, as the check of
      line 139 reads it. The write as it stands is `MarkSeedAsWritten`. */
  method GrowDomain(neigh: seq<nat>, valid: seq<bool>, touched0: seq<bool>, seed: nat)
    returns (touched: seq<bool>, domain: seq<nat>, boundary: seq<nat>)
    requires IsTable(neigh, |valid|) && |touched0| == |valid|
    requires forall x :: 0 <= x < |valid| && touched0[x] ==> valid[x]
    requires seed < |valid| && valid[seed] && !touched0[seed]
    ensures |touched| == |valid|
    ensures forall x :: 0 <= x < |valid| ==> (touched[x] <==> touched0[x] || x in domain)
    ensures |domain| > 0 && domain[0] == seed && Distinct(domain)
    ensures forall i :: 0 <= i < |domain| ==> domain[i] < |valid| && valid[domain[i]] && !touched0[domain[i]]
    ensures Grown(neigh, domain)
    ensures forall i, k :: 0 <= i < |domain| && 0 <= k < 4 && Interior(neigh, valid, domain[i], k) ==>
              touched[Neighbor(neigh, domain[i], k)]
    ensures BoundaryOf(neigh, valid, domain, boundary)
  {
    var g := Growth(touched0[seed := true], [seed], [seed], []);
    StartKeeps(neigh, valid, touched0, seed);
    while g.stack != []
      invariant GrowInv(neigh, valid, touched0, seed, g, seed, 4)
      decreases CountFalse(g.touched), |g.stack|
    {
      PopKeeps(neigh, valid, touched0, seed, g);
      var t := g.stack[|g.stack| - 1];
      g := g.(stack := g.stack[..|g.stack| - 1]);
      ghost var count, size := CountFalse(g.touched), |g.stack|;
      var j := 0;
      while j < 4
        invariant 0 <= j <= 4
        invariant GrowInv(neigh, valid, touched0, seed, g, t, j) && t in g.domain && t !in g.stack
        invariant CountFalse(g.touched) <= count && CountFalse(g.touched) + |g.stack| == count + size
      {
        VisitKeeps(neigh, valid, touched0, seed, g, t, j);
        g := Visit(neigh, valid, g, t, j);
        j := j + 1;
      }
      ExpandDone(neigh, valid, touched0, seed, g, t);
    }
    GrowFinish(neigh, valid, touched0, seed, g);
    touched, domain, boundary := g.touched, g.domain, g.boundary;
  }

  /** `x` belongs to one of `domains`. */
  ghost predicate InSome(domains: seq<seq<nat>>, x: nat) {
    exists d :: 0 <= d < |domains| && x in domains[d]
  }

  lemma InSomeAppend(domains: seq<seq<nat>>, domain: seq<nat>)
    ensures forall x: nat :: InSome(domains + [domain], x) <==> InSome(domains, x) || x in domain
  {
    var ds := domains + [domain];
    forall x: nat ensures InSome(ds, x) <==> InSome(domains, x) || x in domain {
      if InSome(domains, x) {
        var d :| 0 <= d < |domains| && x in domains[d];
        assert x in ds[d];
      }
      if x in domain {
        assert x in ds[|domains|];
      }
    }
  }

  /** The domains are non-empty sequences of distinct valid tetrahedra, and no
      tetrahedron lies in two domains. */
  ghost predicate Disjoint(valid: seq<bool>, domains: seq<seq<nat>>) {
    && (forall d :: 0 <= d < |domains| ==> |domains[d]| > 0 && Distinct(domains[d]))
    && (forall d, i :: 0 <= d < |domains| && 0 <= i < |domains[d]| ==>
          domains[d][i] < |valid| && valid[domains[d][i]])
    && (forall d, e, x :: 0 <= d < e < |domains| && x in domains[d] ==> x !in domains[e])
  }

  /** Each domain starts at its smallest tetrahedron, and domains come in
      increasing order of their first tetrahedron. */
  ghost predicate Seeded(domains: seq<seq<nat>>)
    requires forall d :: 0 <= d < |domains| ==> |domains[d]| > 0
  {
    && (forall d, i :: 0 <= d < |domains| && 0 <= i < |domains[d]| ==> domains[d][0] <= domains[d][i])
    && (forall d, e :: 0 <= d < e < |domains| ==> domains[d][0] < domains[e][0])
  }

  /** A valid tetrahedron across a face of a tetrahedron of domain `d` lies in
      domain `d` or an earlier one. */
  ghost predicate ClosedBelow(neigh: seq<nat>, valid: seq<bool>, domains: seq<seq<nat>>)
    requires IsTable(neigh, |valid|)
    requires forall d, i :: 0 <= d < |domains| && 0 <= i < |domains[d]| ==> domains[d][i] < |valid|
  {
    forall d, i, k ::
      (0 <= d < |domains| && 0 <= i < |domains[d]| && 0 <= k < 4 && Interior(neigh, valid, domains[d][i], k))
      ==> InSome(domains[..d + 1], Neighbor(neigh, domains[d][i], k))
  }

  /** The part of the scan invariant that does not depend on the scan position:
      the touched flags mark exactly the domains found so far, which are
      disjoint, seeded, closed below and grown with their boundaries. */
  ghost predicate FloodCore(neigh: seq<nat>, valid: seq<bool>, touched: seq<bool>,
                            domains: seq<seq<nat>>, boundaries: seq<seq<nat>>)
    requires IsTable(neigh, |valid|)
  {
    var m := |valid|;
    && |touched| == m && |boundaries| == |domains|
    && Disjoint(valid, domains)
    && (forall x :: 0 <= x < m ==> (touched[x] <==> InSome(domains, x)))
    && Seeded(domains)
    && ClosedBelow(neigh, valid, domains)
    && (forall d :: 0 <= d < |domains| ==>
          Grown(neigh, domains[d]) && BoundaryOf(neigh, valid, domains[d], boundaries[d]))
  }

  /** What the scan over all tetrahedra maintains once tetrahedra `0 .. t-1`
      have been considered as seeds. */
  ghost predicate FloodInv(neigh: seq<nat>, valid: seq<bool>, touched: seq<bool>,
                           domains: seq<seq<nat>>, boundaries: seq<seq<nat>>, t: nat)
    requires IsTable(neigh, |valid|)
  {
    && t <= |valid|
    && FloodCore(neigh, valid, touched, domains, boundaries)
    && (forall x :: 0 <= x < t && valid[x] ==> touched[x])
    && (forall d :: 0 <= d < |domains| ==> domains[d][0] < t)
  }

  lemma FloodStart(neigh: seq<nat>, valid: seq<bool>)
    requires IsTable(neigh, |valid|)
    ensures FloodInv(neigh, valid, seq(|valid|, _ => false), [], [], 0)
  {
  }

  /** A scan step that does not start a domain. */
  lemma FloodSkip(neigh: seq<nat>, valid: seq<bool>, touched: seq<bool>,
                  domains: seq<seq<nat>>, boundaries: seq<seq<nat>>, t: nat)
    requires IsTable(neigh, |valid|) && FloodInv(neigh, valid, touched, domains, boundaries, t)
    requires t < |valid| && (!valid[t] || touched[t])
    ensures FloodInv(neigh, valid, touched, domains, boundaries, t + 1)
  {
    assert FloodCore(neigh, valid, touched, domains, boundaries);
    assert forall x :: 0 <= x < t + 1 && valid[x] ==> touched[x];
  }

  /** A scan step that grows a new domain from seed `t` keeps the partition. */
  lemma FloodGrowDisjoint(valid: seq<bool>, touched: seq<bool>, touched': seq<bool>,
                          domains: seq<seq<nat>>, domain: seq<nat>)
    requires |touched| == |valid| && |touched'| == |valid| && Disjoint(valid, domains)
    requires forall x :: 0 <= x < |valid| ==> (touched[x] <==> InSome(domains, x))
    requires forall x :: 0 <= x < |valid| ==> (touched'[x] <==> touched[x] || x in domain)
    requires |domain| > 0 && Distinct(domain)
    requires forall i :: 0 <= i < |domain| ==> domain[i] < |valid| && valid[domain[i]] && !touched[domain[i]]
    ensures Disjoint(valid, domains + [domain])
    ensures forall x :: 0 <= x < |valid| ==> (touched'[x] <==> InSome(domains + [domain], x))
  {
    InSomeAppend(domains, domain);
    var ds := domains + [domain];
    forall d, e, x | 0 <= d < e < |ds| && x in ds[d] ensures x !in ds[e] {
      if e == |domains| && x in ds[e] {
        assert x < |valid| && !touched[x];
        assert InSome(domains, x);
      }
    }
  }

  lemma FloodGrowSeeded(valid: seq<bool>, touched: seq<bool>, domains: seq<seq<nat>>, domain: seq<nat>, t: nat)
    requires |touched| == |valid| && t < |valid|
    requires forall d :: 0 <= d < |domains| ==> |domains[d]| > 0
    requires Seeded(domains) && forall d :: 0 <= d < |domains| ==> domains[d][0] < t
    requires forall x :: 0 <= x < t && valid[x] ==> touched[x]
    requires |domain| > 0 && domain[0] == t
    requires forall i :: 0 <= i < |domain| ==> domain[i] < |valid| && valid[domain[i]] && !touched[domain[i]]
    ensures forall d :: 0 <= d < |domains + [domain]| ==> |(domains + [domain])[d]| > 0
    ensures Seeded(domains + [domain])
  {
    var ds := domains + [domain];
    assert forall d :: 0 <= d < |domains| ==> ds[d] == domains[d];
  }

  lemma FloodGrowClosed(neigh: seq<nat>, valid: seq<bool>, touched': seq<bool>,
                        domains: seq<seq<nat>>, domain: seq<nat>)
    requires IsTable(neigh, |valid|) && |touched'| == |valid|
    requires forall d, i :: 0 <= d < |domains| && 0 <= i < |domains[d]| ==> domains[d][i] < |valid|
    requires forall i :: 0 <= i < |domain| ==> domain[i] < |valid|
    requires ClosedBelow(neigh, valid, domains)
    requires forall x :: 0 <= x < |valid| ==> (touched'[x] <==> InSome(domains + [domain], x))
    requires forall i, k :: 0 <= i < |domain| && 0 <= k < 4 && Interior(neigh, valid, domain[i], k) ==>
               touched'[Neighbor(neigh, domain[i], k)]
    ensures ClosedBelow(neigh, valid, domains + [domain])
  {
    var ds := domains + [domain];
    forall d, i, k | 0 <= d < |ds| && 0 <= i < |ds[d]| && 0 <= k < 4 && Interior(neigh, valid, ds[d][i], k)
      ensures InSome(ds[..d + 1], Neighbor(neigh, ds[d][i], k))
    {
      if d < |domains| {
        assert ds[..d + 1] == domains[..d + 1];
        assert ds[d] == domains[d];
      } else {
        assert ds[..d + 1] == ds;
      }
    }
  }

  /** A scan step that grows a new domain from seed `t` keeps the invariant. */
  lemma FloodGrow(neigh: seq<nat>, valid: seq<bool>, touched: seq<bool>,
                  domains: seq<seq<nat>>, boundaries: seq<seq<nat>>, t: nat,
                  touched': seq<bool>, domain: seq<nat>, boundary: seq<nat>)
    requires IsTable(neigh, |valid|) && FloodInv(neigh, valid, touched, domains, boundaries, t)
    requires t < |valid| && valid[t] && !touched[t]
    requires |touched'| == |valid|
    requires forall x :: 0 <= x < |valid| ==> (touched'[x] <==> touched[x] || x in domain)
    requires |domain| > 0 && domain[0] == t && Distinct(domain)
    requires forall i :: 0 <= i < |domain| ==> domain[i] < |valid| && valid[domain[i]] && !touched[domain[i]]
    requires Grown(neigh, domain)
    requires forall i, k :: 0 <= i < |domain| && 0 <= k < 4 && Interior(neigh, valid, domain[i], k) ==>
               touched'[Neighbor(neigh, domain[i], k)]
    requires BoundaryOf(neigh, valid, domain, boundary)
    ensures FloodInv(neigh, valid, touched', domains + [domain], boundaries + [boundary], t + 1)
  {
    FloodGrowDisjoint(valid, touched, touched', domains, domain);
    FloodGrowSeeded(valid, touched, domains, domain, t);
    FloodGrowClosed(neigh, valid, touched', domains, domain);
    FloodGrowEach(neigh, valid, domains, boundaries, domain, boundary);
  }

  lemma FloodGrowEach(neigh: seq<nat>, valid: seq<bool>, domains: seq<seq<nat>>, boundaries: seq<seq<nat>>,
                      domain: seq<nat>, boundary: seq<nat>)
    requires IsTable(neigh, |valid|) && |boundaries| == |domains|
    requires forall d, i :: 0 <= d < |domains| && 0 <= i < |domains[d]| ==> domains[d][i] < |valid|
    requires forall i :: 0 <= i < |domain| ==> domain[i] < |valid|
    requires forall d :: 0 <= d < |domains| ==>
               Grown(neigh, domains[d]) && BoundaryOf(neigh, valid, domains[d], boundaries[d])
    requires Grown(neigh, domain) && BoundaryOf(neigh, valid, domain, boundary)
    ensures forall d :: 0 <= d < |domains| + 1 ==>
              && (forall i :: 0 <= i < |(domains + [domain])[d]| ==> (domains + [domain])[d][i] < |valid|)
              && Grown(neigh, (domains + [domain])[d])
              && BoundaryOf(neigh, valid, (domains + [domain])[d], (boundaries + [boundary])[d])
  {
    var ds, bs := domains + [domain], boundaries + [boundary];
    forall d | 0 <= d < |ds|
      ensures forall i :: 0 <= i < |ds[d]| ==> ds[d][i] < |valid|
      ensures Grown(neigh, ds[d]) && BoundaryOf(neigh, valid, ds[d], bs[d])
    {
      if d < |domains| {
        assert ds[d] == domains[d] && bs[d] == boundaries[d];
      }
    }
  }

  /** What the scan produces: one boundary per domain; the domains are
      disjoint, cover every valid tetrahedron, start at their smallest
      tetrahedron in increasing order, were grown across faces, and each
      boundary lists exactly the exterior faces of its domain. */
  ghost predicate Partitioned(neigh: seq<nat>, valid: seq<bool>, domains: seq<seq<nat>>, boundaries: seq<seq<nat>>)
    requires IsTable(neigh, |valid|)
  {
    && |boundaries| == |domains|
    && Disjoint(valid, domains)
    && (forall x :: 0 <= x < |valid| && valid[x] ==> InSome(domains, x))
    && Seeded(domains)
    && (forall d :: 0 <= d < |domains| ==>
          Grown(neigh, domains[d]) && BoundaryOf(neigh, valid, domains[d], boundaries[d]))
  }

  /** A valid tetrahedron across a face of a domain tetrahedron lies in the same domain. */
  ghost predicate ClosedDomains(neigh: seq<nat>, valid: seq<bool>, domains: seq<seq<nat>>)
    requires IsTable(neigh, |valid|)
    requires forall d, i :: 0 <= d < |domains| && 0 <= i < |domains[d]| ==> domains[d][i] < |valid|
  {
    forall d, i, k ::
      (0 <= d < |domains| && 0 <= i < |domains[d]| && 0 <= k < 4 && Interior(neigh, valid, domains[d][i], k))
      ==> Neighbor(neigh, domains[d][i], k) in domains[d]
  }

  /** Lines 132-172: every tetrahedron, in order, that passes the alpha test
      and is not yet touched seeds a new domain. The source walks the vertex
      array in steps of four; `t` here is its `i/4`. */
  method FloodFill(neigh: seq<nat>, valid: seq<bool>) returns (domains: seq<seq<nat>>, boundaries: seq<seq<nat>>)
    requires IsTable(neigh, |valid|)
    ensures Partitioned(neigh, valid, domains, boundaries)
    ensures ClosedBelow(neigh, valid, domains)
    ensures LinksSymmetric(neigh, |valid|) ==> ClosedDomains(neigh, valid, domains)
  {
    var touched := seq(|valid|, _ => false);
    domains, boundaries := [], [];
    FloodStart(neigh, valid);
    var t := 0;
    while t < |valid|
      invariant FloodInv(neigh, valid, touched, domains, boundaries, t)
    {
      if valid[t] && !touched[t] {
        var touched', domain, boundary := GrowDomain(neigh, valid, touched, t);
        FloodGrow(neigh, valid, touched, domains, boundaries, t, touched', domain, boundary);
        touched := touched';
        boundaries := boundaries + [boundary];
        domains := domains + [domain];
      } else {
        FloodSkip(neigh, valid, touched, domains, boundaries, t);
      }
      t := t + 1;
    }
    if LinksSymmetric(neigh, |valid|) {
      forall d, i, k | 0 <= d < |domains| && 0 <= i < |domains[d]| && 0 <= k < 4 &&
                       Interior(neigh, valid, domains[d][i], k)
        ensures Neighbor(neigh, domains[d][i], k) in domains[d]
      {
        ClosedWithin(neigh, valid, domains, d, i, k);
      }
    }
  }

  /** When every link is answered (as `BuildNeighbors` guarantees), a valid
      tetrahedron across a face of a domain tetrahedron lies in the same domain. */
  lemma ClosedWithin(neigh: seq<nat>, valid: seq<bool>, domains: seq<seq<nat>>, d: nat, i: nat, k: nat)
    requires IsTable(neigh, |valid|) && LinksSymmetric(neigh, |valid|)
    requires Disjoint(valid, domains) && ClosedBelow(neigh, valid, domains)
    requires d < |domains| && i < |domains[d]| && k < 4 && Interior(neigh, valid, domains[d][i], k)
    ensures Neighbor(neigh, domains[d][i], k) in domains[d]
  {
    var x, y := domains[d][i], Neighbor(neigh, domains[d][i], k);
    assert InSome(domains[..d + 1], y);
    var e :| 0 <= e < d + 1 && y in domains[..d + 1][e];
    var i2 :| 0 <= i2 < |domains[e]| && domains[e][i2] == y;
    BackLink(neigh, valid, domains, x, k, e, i2);
    var e' :| 0 <= e' < e + 1 && x in domains[..e + 1][e'];
    SameDomain(valid, domains, x, e', d);
  }

  /** A link into domain `e` is answered by a link back, so its source lies in
      domain `e` or an earlier one. */
  lemma BackLink(neigh: seq<nat>, valid: seq<bool>, domains: seq<seq<nat>>, x: nat, k: nat, e: nat, i2: nat)
    requires IsTable(neigh, |valid|) && LinksSymmetric(neigh, |valid|)
    requires Disjoint(valid, domains) && ClosedBelow(neigh, valid, domains)
    requires x < |valid| && valid[x] && k < 4 && Neighbor(neigh, x, k) != 4 * |valid|
    requires e < |domains| && i2 < |domains[e]| && domains[e][i2] == Neighbor(neigh, x, k)
    ensures InSome(domains[..e + 1], x)
  {
    var y := domains[e][i2];
    assert Linked(neigh, |valid|, x, k);
    var k2 :| 0 <= k2 < 4 && Neighbor(neigh, y, k2) == x;
    assert Interior(neigh, valid, domains[e][i2], k2);
  }

  /** A tetrahedron lies in at most one domain. */
  lemma SameDomain(valid: seq<bool>, domains: seq<seq<nat>>, x: nat, d: nat, e: nat)
    requires Disjoint(valid, domains) && d < |domains| && e < |domains|
    requires x in domains[d] && x in domains[e]
    ensures d == e
  {
  }

  /** Step `i` of `w` crosses a face of `w[i]` into `w[i+1]`. */
  ghost predicate StepAt(neigh: seq<nat>, w: seq<nat>, i: nat)
    requires i + 1 < |w| && 4 * w[i] + 3 < |neigh|
  {
    exists k :: 0 <= k < 4 && Neighbor(neigh, w[i], k) == w[i + 1]
  }

  /** A walk through valid tetrahedra, each step crossing one face. */
  ghost predicate Walk(neigh: seq<nat>, valid: seq<bool>, w: seq<nat>)
    requires IsTable(neigh, |valid|)
  {
    && |w| > 0
    && (forall i :: 0 <= i < |w| ==> w[i] < |valid| && valid[w[i]])
    && (forall i: nat {:trigger StepAt(neigh, w, i)} :: i < |w| - 1 ==> StepAt(neigh, w, i))
  }

  /** Every tetrahedron of a grown domain is reached from its first one by a walk. */
  lemma {:induction false} GrownWalk(neigh: seq<nat>, valid: seq<bool>, domain: seq<nat>, i: nat)
    returns (w: seq<nat>)
    requires IsTable(neigh, |valid|)
    requires forall i :: 0 <= i < |domain| ==> domain[i] < |valid| && valid[domain[i]]
    requires Grown(neigh, domain) && i < |domain|
    ensures Walk(neigh, valid, w) && w[0] == domain[0] && w[|w| - 1] == domain[i]
    decreases i
  {
    if i == 0 {
      w := [domain[0]];
    } else {
      var i', k :| 0 <= i' < i && 0 <= k < 4 && Neighbor(neigh, domain[i'], k) == domain[i];
      var w' := GrownWalk(neigh, valid, domain, i');
      w := w' + [domain[i]];
      forall n: nat | n < |w| - 1 ensures StepAt(neigh, w, n) {
        if n < |w'| - 1 {
          assert StepAt(neigh, w', n);
          assert w[n] == w'[n] && w[n + 1] == w'[n + 1];
        } else {
          assert Neighbor(neigh, w[n], k) == w[n + 1];
        }
      }
    }
  }

  /** In closed domains, a walk that starts in a domain stays in it. */
  lemma {:induction false} WalkStays(neigh: seq<nat>, valid: seq<bool>, domains: seq<seq<nat>>, d: nat, w: seq<nat>)
    requires IsTable(neigh, |valid|)
    requires Disjoint(valid, domains) && ClosedDomains(neigh, valid, domains)
    requires d < |domains| && Walk(neigh, valid, w) && w[0] in domains[d]
    ensures w[|w| - 1] in domains[d]
    decreases |w|
  {
    if |w| > 1 {
      var w' := w[..|w| - 1];
      assert Walk(neigh, valid, w') by {
        forall n: nat | n < |w'| - 1 ensures StepAt(neigh, w', n) {
          assert StepAt(neigh, w, n);
          assert w'[n] == w[n] && w'[n + 1] == w[n + 1];
        }
      }
      WalkStays(neigh, valid, domains, d, w');
      var x := w[|w| - 2];
      var i :| 0 <= i < |domains[d]| && domains[d][i] == x;
      assert StepAt(neigh, w, |w| - 2);
      var k :| 0 <= k < 4 && Neighbor(neigh, x, k) == w[|w| - 1];
      assert Interior(neigh, valid, domains[d][i], k);
    }
  }

  /** In a closed partition (which `FloodFill` produces from answered links),
      domain `d` is exactly the set of tetrahedra reached by walks from its
      first tetrahedron: the connected component of valid tetrahedra that
      contains its seed. */
  lemma DomainIsComponent(neigh: seq<nat>, valid: seq<bool>, domains: seq<seq<nat>>, boundaries: seq<seq<nat>>,
                          d: nat, x: nat)
    requires IsTable(neigh, |valid|)
    requires Partitioned(neigh, valid, domains, boundaries) && ClosedDomains(neigh, valid, domains)
    requires d < |domains|
    ensures x in domains[d] <==>
              exists w :: Walk(neigh, valid, w) && w[0] == domains[d][0] && w[|w| - 1] == x
  {
    if x in domains[d] {
      var i :| 0 <= i < |domains[d]| && domains[d][i] == x;
      var w := GrownWalk(neigh, valid, domains[d], i);
    }
    if exists w :: Walk(neigh, valid, w) && w[0] == domains[d][0] && w[|w| - 1] == x {
      var w :| Walk(neigh, valid, w) && w[0] == domains[d][0] && w[|w| - 1] == x;
      WalkStays(neigh, valid, domains, d, w);
    }
  }

  /** Line 144 as written marks `_touched[i]`, where `i` is the seed's offset in
      the vertex array (four times its index), instead of `_touched[i/4]`.
      `None` stands for a write past the end of the vector. */
  function MarkSeedAsWritten(touched: seq<bool>, seed: nat): (r: Option<seq<bool>>)
    ensures r.Some? <==> 4 * seed < |touched|
    ensures r.Some? ==> |r.value| == |touched| && r.value[4 * seed]
    ensures r.Some? ==> forall x :: 0 <= x < |touched| && x != 4 * seed ==> r.value[x] == touched[x]
  {
    if 4 * seed < |touched| then Some(touched[4 * seed := true]) else None
  }

  /** For every seed but the first tetrahedron, the write misses the seed: it
      is out of range, or it leaves the seed untouched and touches tetrahedron
      `4*seed` instead, which the search then treats as already visited. */
  lemma SeedMarkMisses(touched: seq<bool>, seed: nat)
    requires 0 < seed < |touched| && !touched[seed]
    ensures var r := MarkSeedAsWritten(touched, seed);
            r.None? || (!r.value[seed] && r.value[4 * seed] && 4 * seed != seed)
  {
  }

  /** The loop of lines 146-168 for at most `fuel` pops, starting from any
      state; used to replay the search as written. Every push marks one more
      tetrahedron, so the loop empties the stack within as many pops as there
      are untouched tetrahedra and stacked entries. */
  function Drain(neigh: seq<nat>, valid: seq<bool>, g: Growth, fuel: nat): (r: Growth)
    requires IsTable(neigh, |valid|) && |g.touched| == |valid|
    ensures |r.touched| == |valid|
    ensures CountFalse(r.touched) <= CountFalse(g.touched)
    ensures StackBelow(g.stack, |valid|) && CountFalse(g.touched) + |g.stack| <= fuel ==> r.stack == []
    ensures forall x :: 0 <= x < |valid| && g.touched[x] ==> r.touched[x]
    decreases fuel
  {
    if fuel == 0 || g.stack == [] then g
    else
      var t := g.stack[|g.stack| - 1];
      if t >= |valid| then g
      else
        var popped := g.(stack := g.stack[..|g.stack| - 1]);
        assert StackBelow(g.stack, |valid|) ==> StackBelow(popped.stack, |valid|);
        Drain(neigh, valid, ExamineAll(neigh, valid, popped, t), fuel - 1)
  }

  /** Lines 149-167: the four faces of the popped `t` in turn. Each push is
      paired with the marking of a fresh tetrahedron. */
  function ExamineAll(neigh: seq<nat>, valid: seq<bool>, g: Growth, t: nat): (r: Growth)
    requires IsTable(neigh, |valid|) && |g.touched| == |valid| && t < |valid|
    ensures |r.touched| == |valid|
    ensures CountFalse(r.touched) <= CountFalse(g.touched)
    ensures CountFalse(r.touched) + |r.stack| == CountFalse(g.touched) + |g.stack|
    ensures StackBelow(g.stack, |valid|) ==> StackBelow(r.stack, |valid|)
    ensures forall x :: 0 <= x < |valid| && g.touched[x] ==> r.touched[x]
  {
    var g1 := Visit(neigh, valid, g, t, 0);
    var g2 := Visit(neigh, valid, g1, t, 1);
    var g3 := Visit(neigh, valid, g2, t, 2);
    Visit(neigh, valid, g3, t, 3)
  }

  /** Five tetrahedra, of which only 1 and 2 pass the alpha test; face 0 of
      each is shared with the other, every other face is on the hull. */
  const ExampleNeigh: seq<nat> := seq(20, s => if s == 4 then 2 else if s == 8 then 1 else 20)
  const ExampleValid: seq<bool> := seq(5, x => x == 1 || x == 2)

  /** The search state after `n` pops, seeded at 1 with line 144 as written,
      which marks tetrahedron 4 instead of 1. Faces on the hull land in the
      boundary as pairs. */
  function ExampleState(n: nat): Growth
    requires n <= 3
  {
    var hull := [1, 1, 1, 2, 1, 3];
    if n == 0 then Growth([false, false, false, false, true], [1], [1], [])
    else if n == 1 then Growth([false, false, true, false, true], [2], [1, 2], hull)
    else if n == 2 then Growth([false, true, true, false, true], [1], [1, 2, 1], hull + [2, 1, 2, 2, 2, 3])
    else Growth([false, true, true, false, true], [], [1, 2, 1], hull + [2, 1, 2, 2, 2, 3] + hull)
  }

  lemma ExampleTable()
    ensures IsTable(ExampleNeigh, |ExampleValid|)
  {
  }

  /** One pop of the search as written takes the example from state `n` to `n + 1`. */
  lemma ExampleStep(n: nat)
    requires n < 3
    ensures IsTable(ExampleNeigh, |ExampleValid|)
    ensures Drain(ExampleNeigh, ExampleValid, ExampleState(n), 3 - n)
         == Drain(ExampleNeigh, ExampleValid, ExampleState(n + 1), 2 - n)
  {
    ExampleTable();
    var g := ExampleState(n);
    var t := g.stack[|g.stack| - 1];
    var g4 := ExamineAll(ExampleNeigh, ExampleValid, Unstacked(g), t);
    assert Drain(ExampleNeigh, ExampleValid, g, 3 - n) == Drain(ExampleNeigh, ExampleValid, g4, 2 - n);
    if n == 0 {
      FirstPop();
    } else if n == 1 {
      SecondPop();
    } else {
      ThirdPop();
    }
  }

  /** The state with its stack emptied: each example state holds one tetrahedron on the stack. */
  function Unstacked(g: Growth): Growth {
    Growth(g.touched, [], g.domain, g.boundary)
  }

  /** Tetrahedron 1 discovers 2 across face 0; faces 1-3 are on the hull. */
  lemma FirstPop()
    ensures ExamineAll(ExampleNeigh, ExampleValid, Unstacked(ExampleState(0)), 1) == ExampleState(1)
  {
    ExampleTable();
    var g0 := Growth([false, false, false, false, true], [], [1], []);
    var g1 := Visit(ExampleNeigh, ExampleValid, g0, 1, 0);
    assert g1 == Growth([false, false, true, false, true], [2], [1, 2], []);
  }

  /** Tetrahedron 2 finds its neighbour 1 untouched, because the seed was never
      marked, and adds it to the domain again. */
  lemma SecondPop()
    ensures ExamineAll(ExampleNeigh, ExampleValid, Unstacked(ExampleState(1)), 2) == ExampleState(2)
  {
    ExampleTable();
    var g0 := Unstacked(ExampleState(1));
    var g1 := Visit(ExampleNeigh, ExampleValid, g0, 2, 0);
    assert g1 == Growth([false, true, true, false, true], [1], [1, 2, 1], ExampleState(1).boundary);
  }

  /** Tetrahedron 1 again: 2 is touched now, so only the hull faces are recorded. */
  lemma ThirdPop()
    ensures ExamineAll(ExampleNeigh, ExampleValid, Unstacked(ExampleState(2)), 1) == ExampleState(3)
  {
    ExampleTable();
    var g0 := Unstacked(ExampleState(2));
    assert Visit(ExampleNeigh, ExampleValid, g0, 1, 0) == g0;
  }

  /** The write of line 144 for seed 1 out of five tetrahedra gives the
      touched flags the example starts from. */
  lemma ExampleMark()
    ensures MarkSeedAsWritten(seq(5, _ => false), 1) == Some(ExampleState(0).touched)
  {
    var marked := seq(5, _ => false)[4 := true];
    assert forall x :: 0 <= x < 5 ==> marked[x] == ExampleState(0).touched[x];
    assert marked == ExampleState(0).touched;
    assert MarkSeedAsWritten(seq(5, _ => false), 1) == Some(marked);
  }

  /** Seeded at 1 with line 144 as written, the search walks back from 2 to 1
      and puts 1 into the domain a second time; `GrowDomain`, which marks the
      seed itself, returns a domain without repeats. */
  lemma SeedRevisited()
    ensures IsTable(ExampleNeigh, |ExampleValid|)
    ensures MarkSeedAsWritten(seq(5, _ => false), 1) == Some(ExampleState(0).touched)
    ensures Drain(ExampleNeigh, ExampleValid, ExampleState(0), 3).domain == [1, 2, 1]
  {
    ExampleTable();
    ExampleMark();
    ExampleStep(0);
    ExampleStep(1);
    ExampleStep(2);
  }
}
