/**
 * The integer layer assignment inside `layered_positions`
 * (crates/graphrite-cli/src/main.rs): adjacency and in-degree maps built from
 * the declared nodes, a Kahn-style queue that pushes a node when its in-degree
 * drops to zero, a layer map raised along every edge of a processed node, and
 * the buckets of node ids per layer. The maps are ordered by key as a
 * BTreeMap is; the floating-point coordinates are not part of this module.
 */
module Layout {
  import opened Ast

  // ---------------------------------------------------------------------------
  // Key order of a BTreeMap<&str, _>: byte-wise lexicographic
  // ---------------------------------------------------------------------------

  predicate Less(a: string, b: string)
    decreases |a|
  {
    if a == [] then b != []
    else b != [] && (a[0] < b[0] || (a[0] == b[0] && Less(a[1..], b[1..])))
  }

  lemma {:induction false} LessIrreflexive(a: string)
    ensures !Less(a, a)
    decreases |a|
  {
    if a != [] {
      LessIrreflexive(a[1..]);
    }
  }

  lemma {:induction false} LessTotal(a: string, b: string)
    ensures a == b || Less(a, b) || Less(b, a)
    decreases |a|
  {
    if a != [] && b != [] && a[0] == b[0] {
      LessTotal(a[1..], b[1..]);
      if a[1..] == b[1..] {
        assert a == [a[0]] + a[1..] && b == [b[0]] + b[1..];
      }
    }
  }

  lemma {:induction false} LessTransitive(a: string, b: string, c: string)
    requires Less(a, b) && Less(b, c)
    ensures Less(a, c)
    decreases |a|
  {
    if a != [] && a[0] == b[0] && b[0] == c[0] {
      LessTransitive(a[1..], b[1..], c[1..]);
    }
  }

  predicate Sorted(s: seq<string>) {
    forall i, j :: 0 <= i < j < |s| ==> Less(s[i], s[j])
  }

  predicate Distinct(s: seq<string>) {
    forall i, j :: 0 <= i < j < |s| ==> s[i] != s[j]
  }

  lemma SortedDistinct(s: seq<string>)
    requires Sorted(s)
    ensures Distinct(s)
  {
    forall i, j | 0 <= i < j < |s|
      ensures s[i] != s[j]
    {
      LessIrreflexive(s[i]);
    }
  }

  /** Inserting a key into the sorted key sequence of a map. */
  function Insert(s: seq<string>, x: string): (r: seq<string>)
    requires Sorted(s)
    ensures Sorted(r)
    ensures forall y :: y in r <==> y in s || y == x
  {
    if s == [] then [x]
    else if x == s[0] then s
    else if Less(x, s[0]) then
      assert forall j :: 0 <= j < |s| ==> Less(x, s[j]) by {
        forall j | 0 <= j < |s| ensures Less(x, s[j]) {
          if j > 0 {
            LessTransitive(x, s[0], s[j]);
          }
        }
      }
      [x] + s
    else
      LessTotal(x, s[0]);
      var rest := Insert(s[1..], x);
      assert forall y :: y in rest ==> Less(s[0], y);
      [s[0]] + rest
  }

  function Ids(nodes: seq<Node>): set<string> {
    set n | n in nodes :: n.id
  }

  /** The keys of a map filled with the ids of `nodes`, in key order. */
  function SortedIds(nodes: seq<Node>): (ks: seq<string>)
    ensures Sorted(ks)
    ensures forall y :: y in ks <==> y in Ids(nodes)
  {
    if nodes == [] then []
    else
      var init := nodes[..|nodes| - 1];
      assert nodes == init + [nodes[|nodes| - 1]];
      Insert(SortedIds(init), nodes[|nodes| - 1].id)
  }

  // ---------------------------------------------------------------------------
  // Adjacency and in-degree
  // ---------------------------------------------------------------------------

  /** Only an edge whose two endpoints are declared node ids counts. */
  predicate Declared(ids: set<string>, e: Edge) {
    e.from in ids && e.to in ids
  }

  /** The targets of the counted edges leaving `u`, in edge order. */
  function Successors(ids: set<string>, edges: seq<Edge>, u: string): seq<string> {
    if edges == [] then []
    else
      var e := edges[|edges| - 1];
      Successors(ids, edges[..|edges| - 1], u) + if e.from == u && Declared(ids, e) then [e.to] else []
  }

  /** The number of counted edges entering `v`. */
  function InDegree(ids: set<string>, edges: seq<Edge>, v: string): nat {
    if edges == [] then 0
    else
      var e := edges[|edges| - 1];
      InDegree(ids, edges[..|edges| - 1], v) + if e.to == v && Declared(ids, e) then 1 else 0
  }

  /**
   * A successor of `u` is a declared node reached by a counted edge, so it
   * was counted in its own in-degree, and `u` is declared too.
   */
  lemma {:induction false} SuccessorsAreCounted(ids: set<string>, edges: seq<Edge>, u: string, v: string)
    requires v in Successors(ids, edges, u)
    ensures u in ids && v in ids && InDegree(ids, edges, v) > 0
    decreases |edges|
  {
    var init := edges[..|edges| - 1];
    var e := edges[|edges| - 1];
    if v in Successors(ids, init, u) {
      SuccessorsAreCounted(ids, init, u, v);
    }
  }

  /** Counting one more edge: the adjacency of `edges + [e]`. */
  lemma SuccessorsStep(ids: set<string>, edges: seq<Edge>, e: Edge, adj: map<string, seq<string>>)
    requires e.from in ids ==> e.from in adj
    requires forall u <- adj.Keys :: adj[u] == Successors(ids, edges, u)
    ensures var adj' := if Declared(ids, e) then adj[e.from := adj[e.from] + [e.to]] else adj;
      forall u <- adj'.Keys :: adj'[u] == Successors(ids, edges + [e], u)
  {
    assert (edges + [e])[..|edges|] == edges;
  }

  /** Counting one more edge: the in-degrees of `edges + [e]`. */
  lemma InDegreeStep(ids: set<string>, edges: seq<Edge>, e: Edge, indeg: map<string, nat>)
    requires e.to in ids ==> e.to in indeg
    requires forall v <- indeg.Keys :: indeg[v] == InDegree(ids, edges, v)
    ensures var indeg' := if Declared(ids, e) then indeg[e.to := indeg[e.to] + 1] else indeg;
      forall v <- indeg'.Keys :: indeg'[v] == InDegree(ids, edges + [e], v)
  {
    assert (edges + [e])[..|edges|] == edges;
  }

  /** The first loop of `layered_positions`: an empty successor list and a zero count per node id. */
  method DeclareNodes(nodes: seq<Node>) returns (adj: map<string, seq<string>>, indeg: map<string, nat>)
    ensures adj.Keys == Ids(nodes) && indeg.Keys == Ids(nodes)
    ensures forall u <- adj.Keys :: adj[u] == [] && indeg[u] == 0
  {
    adj := map[];
    indeg := map[];
    for i := 0 to |nodes|
      invariant adj.Keys == Ids(nodes[..i]) && indeg.Keys == Ids(nodes[..i])
      invariant forall u <- adj.Keys :: adj[u] == [] && indeg[u] == 0
    {
      assert Ids(nodes[..i + 1]) == Ids(nodes[..i]) + {nodes[i].id} by {
        assert nodes[..i + 1] == nodes[..i] + [nodes[i]];
      }
      adj := adj[nodes[i].id := []];
      indeg := indeg[nodes[i].id := 0];
    }
    assert nodes[..|nodes|] == nodes;
  }

  /** The second loop: each edge whose endpoints are both declared adds a successor and an in-degree. */
  method CountEdges(ids: set<string>, edges: seq<Edge>, adj0: map<string, seq<string>>, indeg0: map<string, nat>)
    returns (adj: map<string, seq<string>>, indeg: map<string, nat>)
    requires adj0.Keys == ids && indeg0.Keys == ids
    requires forall u <- adj0.Keys :: adj0[u] == [] && indeg0[u] == 0
    ensures adj.Keys == ids && indeg.Keys == ids
    ensures forall u <- adj.Keys :: adj[u] == Successors(ids, edges, u)
    ensures forall v <- indeg.Keys :: indeg[v] == InDegree(ids, edges, v)
  {
    adj, indeg := adj0, indeg0;
    for j := 0 to |edges|
      invariant adj.Keys == ids && indeg.Keys == ids
      invariant forall u <- adj.Keys :: adj[u] == Successors(ids, edges[..j], u)
      invariant forall v <- indeg.Keys :: indeg[v] == InDegree(ids, edges[..j], v)
    {
      var e := edges[j];
      SuccessorsStep(ids, edges[..j], e, adj);
      InDegreeStep(ids, edges[..j], e, indeg);
      assert edges[..j + 1] == edges[..j] + [e];
      if e.from in adj && e.to in adj {
        adj := adj[e.from := adj[e.from] + [e.to]];
        indeg := indeg[e.to := indeg[e.to] + 1];
      }
    }
    assert edges[..|edges|] == edges;
  }

  /** The first two loops of `layered_positions`: one entry per node id, then the counted edges. */
  method BuildGraph(nodes: seq<Node>, edges: seq<Edge>) returns (adj: map<string, seq<string>>, indeg: map<string, nat>)
    ensures adj.Keys == Ids(nodes) && indeg.Keys == Ids(nodes)
    ensures forall u <- adj.Keys :: adj[u] == Successors(Ids(nodes), edges, u)
    ensures forall v <- indeg.Keys :: indeg[v] == InDegree(Ids(nodes), edges, v)
  {
    adj, indeg := DeclareNodes(nodes);
    adj, indeg := CountEdges(Ids(nodes), edges, adj, indeg);
  }

  // ---------------------------------------------------------------------------
  // The initial queue
  // ---------------------------------------------------------------------------

  /** The keys with in-degree 0, in key order. */
  function ZeroIds(keys: seq<string>, indeg: map<string, nat>): (z: seq<string>)
    requires forall k <- keys :: k in indeg
    ensures forall y :: y in z <==> y in keys && indeg[y] == 0
    ensures Sorted(keys) ==> Sorted(z)
  {
    if keys == [] then []
    else
      var init := keys[..|keys| - 1];
      var last := keys[|keys| - 1];
      var z := ZeroIds(init, indeg);
      assert forall y :: y in init ==> y in keys;
      if Sorted(keys) then
        assert keys == init + [last];
        SortedSnoc(init, last);
        SortedExtend(z, last);
        z + if indeg[last] == 0 then [last] else []
      else
        z + if indeg[last] == 0 then [last] else []
  }

  /** The last key of a sorted list follows every other key, and the rest stays sorted. */
  lemma SortedSnoc(init: seq<string>, last: string)
    requires Sorted(init + [last])
    ensures Sorted(init)
    ensures forall y :: y in init ==> Less(y, last)
  {
    var keys := init + [last];
    forall i, j | 0 <= i < j < |init| ensures Less(init[i], init[j]) {
      assert keys[i] == init[i] && keys[j] == init[j];
    }
    forall y | y in init ensures Less(y, last) {
      var i :| 0 <= i < |init| && init[i] == y;
      assert keys[i] == y && keys[|init|] == last;
    }
  }

  /** A sorted list followed by something greater than all of its items stays sorted. */
  lemma SortedExtend(z: seq<string>, last: string)
    requires Sorted(z) && forall y :: y in z ==> Less(y, last)
    ensures Sorted(z + [last])
  {
    var s := z + [last];
    forall i, j | 0 <= i < j < |s| ensures Less(s[i], s[j]) {
      assert s[i] == z[i] && s[i] in z;
    }
  }

  /** Scanning one more key appends it exactly when its count is 0. */
  lemma ZeroIdsSnoc(keys: seq<string>, indeg: map<string, nat>, i: nat)
    requires i < |keys| && forall k <- keys :: k in indeg
    ensures ZeroIds(keys[..i + 1], indeg) == ZeroIds(keys[..i], indeg) + if indeg[keys[i]] == 0 then [keys[i]] else []
  {
    assert keys[..i + 1][..i] == keys[..i];
  }

  /** The queue's first contents: the in-degree-0 ids in key order, else the first declared node. */
  method InitialQueue(keys: seq<string>, indeg: map<string, nat>, nodes: seq<Node>) returns (q: seq<string>)
    requires forall k <- keys :: k in indeg
    ensures q == if ZeroIds(keys, indeg) != [] then ZeroIds(keys, indeg)
                 else if nodes != [] then [nodes[0].id] else []
  {
    q := [];
    for i := 0 to |keys|
      invariant q == ZeroIds(keys[..i], indeg)
    {
      ZeroIdsSnoc(keys, indeg, i);
      if indeg[keys[i]] == 0 {
        q := q + [keys[i]];
      }
    }
    assert keys[..|keys|] == keys;
    if q == [] && nodes != [] {
      q := q + [nodes[0].id];
    }
  }

  // ---------------------------------------------------------------------------
  // The queue loop
  // ---------------------------------------------------------------------------

  /** The sum of the counters of `keys`. */
  function SumOver(keys: seq<string>, m: map<string, nat>): nat
    requires forall k <- keys :: k in m
  {
    if keys == [] then 0 else m[keys[0]] + SumOver(keys[1..], m)
  }

  lemma {:induction false} SumOverUnchanged(keys: seq<string>, m: map<string, nat>, v: string, x: nat)
    requires forall k <- keys :: k in m
    requires v !in keys
    ensures SumOver(keys, m[v := x]) == SumOver(keys, m)
  {
    if keys != [] {
      SumOverUnchanged(keys[1..], m, v, x);
    }
  }

  /** Decrementing one counter lowers the sum by exactly one. */
  lemma {:induction false} SumOverDecrement(keys: seq<string>, m: map<string, nat>, v: string)
    requires forall k <- keys :: k in m
    requires Distinct(keys) && v in keys && m[v] > 0
    ensures SumOver(keys, m[v := m[v] - 1]) == SumOver(keys, m) - 1
  {
    var rest := keys[1..];
    DistinctTail(keys);
    if keys[0] == v {
      SumOverUnchanged(rest, m, v, m[v] - 1);
    } else {
      SumOverDecrement(rest, m, v);
    }
  }

  /**
   * One successor `v` of a node processed at layer `lu`: the layer of `v` is
   * raised to `lu + 1` unless already at least that; a positive counter is
   * decremented, a zero one is left alone, and `v` is queued exactly when
   * its counter reaches 0 here.
   */
  method Relax(v: string, lu: nat, indeg: map<string, nat>, layer: map<string, nat>, q: seq<string>, ghost keys: seq<string>)
    returns (indeg': map<string, nat>, layer': map<string, nat>, q': seq<string>)
    requires Distinct(keys) && forall k :: k in keys <==> k in indeg
    ensures layer' == if v !in layer || layer[v] < lu + 1 then layer[v := lu + 1] else layer
    ensures indeg' == if v in indeg && indeg[v] > 0 then indeg[v := indeg[v] - 1] else indeg
    ensures q' == q + if v in indeg && indeg[v] == 1 then [v] else []
    ensures Relaxed(indeg', layer', q') == RelaxOne(Relaxed(indeg, layer, q), v, lu)
    ensures v in layer' && layer'[v] >= lu + 1
    ensures forall w <- layer.Keys :: w in layer' && layer'[w] >= layer[w]
    ensures indeg'.Keys == indeg.Keys
    ensures SumOver(keys, indeg') + |q'| <= SumOver(keys, indeg) + |q|
  {
    layer', indeg', q' := layer, indeg, q;
    if v !in layer || layer[v] < lu + 1 {
      layer' := layer[v := lu + 1];
    }
    if v in indeg && indeg[v] > 0 {
      SumOverDecrement(keys, indeg, v);
      indeg' := indeg[v := indeg[v] - 1];
      if indeg'[v] == 0 {
        q' := q + [v];
      }
    }
  }

  /**
   * The layer lower bounds a processed node `u` has established: `u` sits at
   * least at the layer it was processed with, and each of its successors at
   * least one deeper.
   */
  ghost predicate Raised(adj: map<string, seq<string>>, layer: map<string, nat>, u: string, lu: nat) {
    && u in adj && u in layer && layer[u] >= lu
    && forall v <- adj[u] :: v in layer && layer[v] >= lu + 1
  }

  /** Raising layers keeps every bound already established. */
  lemma RaisedMonotone(adj: map<string, seq<string>>, layer: map<string, nat>, layer': map<string, nat>, done: map<string, nat>)
    requires forall u <- done.Keys :: Raised(adj, layer, u, done[u])
    requires forall w <- layer.Keys :: w in layer' && layer'[w] >= layer[w]
    ensures forall u <- done.Keys :: Raised(adj, layer', u, done[u])
  {
  }

  /** What one `Relax` of the `k`-th successor keeps of the inner loop's invariant. */
  lemma RelaxKeeps(adj: map<string, seq<string>>, lu: nat, succ: seq<string>, k: nat,
                   layer: map<string, nat>, q: seq<string>,
                   la: map<string, nat>, qa: seq<string>, lb: map<string, nat>, qb: seq<string>)
    requires k < |succ| && forall v <- succ :: v in adj
    requires (forall w <- qa :: w in adj) && (forall w <- q :: w in qa) && la.Keys <= adj.Keys
    requires forall w <- layer.Keys :: w in la && la[w] >= layer[w]
    requires forall j :: 0 <= j < k ==> succ[j] in la && la[succ[j]] >= lu + 1
    requires lb == if succ[k] !in la || la[succ[k]] < lu + 1 then la[succ[k] := lu + 1] else la
    requires qb == qa || qb == qa + [succ[k]]
    ensures (forall w <- qb :: w in adj) && (forall w <- q :: w in qb) && lb.Keys <= adj.Keys
    ensures forall w <- layer.Keys :: w in lb && lb[w] >= layer[w]
    ensures forall j :: 0 <= j < k + 1 ==> succ[j] in lb && lb[succ[j]] >= lu + 1
  {
    assert succ[k] in succ;
  }

  /**
   * After `u`, taken at layer `lu`, has been visited and given `lu` if it had
   * no layer yet, its bounds hold and no earlier layer has dropped.
   */
  lemma VisitedRaised(adj: map<string, seq<string>>, before: map<string, nat>, visited: map<string, nat>,
                      after: map<string, nat>, u: string, lu: nat)
    requires u in adj && lu == (if u in before then before[u] else 0)
    requires forall w <- before.Keys :: w in visited && visited[w] >= before[w]
    requires forall v <- adj[u] :: v in visited && visited[v] >= lu + 1
    requires after == if u !in visited then visited[u := lu] else visited
    ensures Raised(adj, after, u, lu)
    ensures forall w <- before.Keys :: w in after && after[w] >= before[w]
  {
  }

  /** Recording `u` at `lu` keeps every recorded bound, once `u`'s own bounds hold. */
  lemma DoneExtend(adj: map<string, seq<string>>, layer: map<string, nat>, done: map<string, nat>, u: string, lu: nat,
                   done': map<string, nat>)
    requires forall x <- done.Keys :: Raised(adj, layer, x, done[x])
    requires Raised(adj, layer, u, lu) && done' == done[u := lu]
    ensures forall x <- done'.Keys :: Raised(adj, layer, x, done'[x])
  {
  }

  /** The counts, layers and queue the inner loop works on. */
  datatype Relaxed = Relaxed(indeg: map<string, nat>, layer: map<string, nat>, q: seq<string>)

  /** One round of the inner loop on successor `v`, as `Relax` performs it. */
  function RelaxOne(st: Relaxed, v: string, lu: nat): Relaxed {
    Relaxed(
      if v in st.indeg && st.indeg[v] > 0 then st.indeg[v := st.indeg[v] - 1] else st.indeg,
      if v !in st.layer || st.layer[v] < lu + 1 then st.layer[v := lu + 1] else st.layer,
      st.q + if v in st.indeg && st.indeg[v] == 1 then [v] else [])
  }

  /** The inner loop over the successors `succ`, one `RelaxOne` per entry, in order. */
  function RelaxAll(st: Relaxed, succ: seq<string>, lu: nat): Relaxed
    decreases |succ|
  {
    if succ == [] then st else RelaxOne(RelaxAll(st, succ[..|succ| - 1], lu), succ[|succ| - 1], lu)
  }

  lemma RelaxAllSnoc(st: Relaxed, succ: seq<string>, k: nat, lu: nat)
    requires k < |succ|
    ensures RelaxAll(st, succ[..k + 1], lu) == RelaxOne(RelaxAll(st, succ[..k], lu), succ[k], lu)
  {
    assert succ[..k + 1][..k] == succ[..k];
  }

  /** `a - b`, stopping at zero. */
  function Dropped(a: nat, b: nat): nat {
    if a >= b then a - b else 0
  }

  /**
   * The inner loop's effect on the counts and the queue: each count drops by
   * the number of edges into it, never below zero, and exactly the nodes
   * whose count falls from positive to zero are queued, once each, behind the
   * old queue.
   */
  lemma {:induction false} RelaxAllCounts(st: Relaxed, succ: seq<string>, lu: nat)
    ensures var r := RelaxAll(st, succ, lu);
      && r.indeg.Keys == st.indeg.Keys
      && (forall w <- st.indeg.Keys :: r.indeg[w] == Dropped(st.indeg[w], multiset(succ)[w]))
      && |st.q| <= |r.q| && r.q[..|st.q|] == st.q
      && (forall w :: multiset(r.q[|st.q|..])[w] ==
            if w in st.indeg && 0 < st.indeg[w] <= multiset(succ)[w] then 1 else 0)
    decreases |succ|
  {
    if succ != [] {
      var init, v := succ[..|succ| - 1], succ[|succ| - 1];
      RelaxAllCounts(st, init, lu);
      assert succ == init + [v];
      RelaxOneCounts(st, RelaxAll(st, init, lu), init, v, lu);
    }
  }

  /** One more successor `v` after `init` keeps `RelaxAllCounts`' statement. */
  lemma RelaxOneCounts(st: Relaxed, r0: Relaxed, init: seq<string>, v: string, lu: nat)
    requires r0.indeg.Keys == st.indeg.Keys
    requires forall w <- st.indeg.Keys :: r0.indeg[w] == Dropped(st.indeg[w], multiset(init)[w])
    requires |st.q| <= |r0.q| && r0.q[..|st.q|] == st.q
    requires forall w :: multiset(r0.q[|st.q|..])[w] ==
                         if w in st.indeg && 0 < st.indeg[w] <= multiset(init)[w] then 1 else 0
    ensures var r := RelaxOne(r0, v, lu);
      && r.indeg.Keys == st.indeg.Keys
      && (forall w <- st.indeg.Keys :: r.indeg[w] == Dropped(st.indeg[w], multiset(init + [v])[w]))
      && |st.q| <= |r.q| && r.q[..|st.q|] == st.q
      && (forall w :: multiset(r.q[|st.q|..])[w] ==
            if w in st.indeg && 0 < st.indeg[w] <= multiset(init + [v])[w] then 1 else 0)
  {
    var r := RelaxOne(r0, v, lu);
    var added := if v in r0.indeg && r0.indeg[v] == 1 then [v] else [];
    assert multiset(init + [v]) == multiset(init) + multiset{v};
    RelaxOneIndeg(st, r0, init, v, lu);
    assert r.q == r0.q + added;
    AppendSlices(r0.q, added, |st.q|);
    assert multiset(r.q[|st.q|..]) == multiset(r0.q[|st.q|..]) + multiset(added);
    RelaxOneQueued(st, r0, multiset(init), v, added, multiset(r0.q[|st.q|..]));
  }

  /** Appending leaves the first `n` entries and puts the addition after the rest. */
  lemma AppendSlices(a: seq<string>, added: seq<string>, n: nat)
    requires n <= |a|
    ensures (a + added)[..n] == a[..n] && (a + added)[n..] == a[n..] + added
  {
  }

  /** The counts after one more successor `v`. */
  lemma RelaxOneIndeg(st: Relaxed, r0: Relaxed, init: seq<string>, v: string, lu: nat)
    requires r0.indeg.Keys == st.indeg.Keys
    requires forall w <- st.indeg.Keys :: r0.indeg[w] == Dropped(st.indeg[w], multiset(init)[w])
    requires multiset(init + [v]) == multiset(init) + multiset{v}
    ensures var r := RelaxOne(r0, v, lu);
      && r.indeg.Keys == st.indeg.Keys
      && (forall w <- st.indeg.Keys :: r.indeg[w] == Dropped(st.indeg[w], multiset(init + [v])[w]))
  {
  }

  /** The queued nodes after one more successor `v`: `v` joins when its count goes from 1 to 0. */
  lemma RelaxOneQueued(st: Relaxed, r0: Relaxed, m: multiset<string>, v: string, added: seq<string>,
                       queued: multiset<string>)
    requires r0.indeg.Keys == st.indeg.Keys
    requires forall w <- st.indeg.Keys :: r0.indeg[w] == Dropped(st.indeg[w], m[w])
    requires forall w :: queued[w] == if w in st.indeg && 0 < st.indeg[w] <= m[w] then 1 else 0
    requires added == if v in r0.indeg && r0.indeg[v] == 1 then [v] else []
    ensures forall w :: (queued + multiset(added))[w] ==
                        if w in st.indeg && 0 < st.indeg[w] <= (m + multiset{v})[w] then 1 else 0
  {
  }

  /**
   * The inner loop's effect on the layers: every successor is at least at
   * `lu + 1` and keeps a larger layer it had; every other layer is unchanged.
   */
  lemma {:induction false} RelaxAllLayers(st: Relaxed, succ: seq<string>, lu: nat)
    ensures var r := RelaxAll(st, succ, lu);
      && r.layer.Keys == st.layer.Keys + (set w | w in succ)
      && (forall w <- succ :: r.layer[w] == if w in st.layer && st.layer[w] >= lu + 1 then st.layer[w] else lu + 1)
      && (forall w <- st.layer.Keys :: w !in succ ==> r.layer[w] == st.layer[w])
    decreases |succ|
  {
    if succ != [] {
      var init, v := succ[..|succ| - 1], succ[|succ| - 1];
      RelaxAllLayers(st, init, lu);
      assert succ == init + [v];
      RelaxOneLayers(st, RelaxAll(st, init, lu), init, v, lu);
    }
  }

  /** One more successor `v` after `init` keeps `RelaxAllLayers`' statement. */
  lemma RelaxOneLayers(st: Relaxed, r0: Relaxed, init: seq<string>, v: string, lu: nat)
    requires r0.layer.Keys == st.layer.Keys + (set w | w in init)
    requires forall w <- init :: r0.layer[w] == if w in st.layer && st.layer[w] >= lu + 1 then st.layer[w] else lu + 1
    requires forall w <- st.layer.Keys :: w !in init ==> r0.layer[w] == st.layer[w]
    ensures var r := RelaxOne(r0, v, lu);
      && r.layer.Keys == st.layer.Keys + (set w | w in init + [v])
      && (forall w <- init + [v] :: r.layer[w] == if w in st.layer && st.layer[w] >= lu + 1 then st.layer[w] else lu + 1)
      && (forall w <- st.layer.Keys :: w !in init + [v] ==> r.layer[w] == st.layer[w])
  {
    assert forall w :: w in init + [v] <==> w in init || w == v;
  }

  /** The inner `for` loop: relaxes every successor of `u`, processed at layer `lu`. */
  method Visit(adj: map<string, seq<string>>, u: string, lu: nat, indeg: map<string, nat>, layer: map<string, nat>,
               q: seq<string>, ghost keys: seq<string>)
    returns (indeg': map<string, nat>, layer': map<string, nat>, q': seq<string>)
    requires u in adj && indeg.Keys == adj.Keys
    requires forall w <- adj.Keys :: forall v <- adj[w] :: v in adj
    requires forall w <- q :: w in adj
    requires layer.Keys <= adj.Keys
    requires Distinct(keys) && forall k :: k in keys <==> k in indeg
    ensures indeg'.Keys == adj.Keys
    ensures forall w <- q' :: w in adj
    ensures forall w <- q :: w in q'
    ensures layer'.Keys <= adj.Keys
    ensures forall w <- layer.Keys :: w in layer' && layer'[w] >= layer[w]
    ensures forall v <- adj[u] :: v in layer' && layer'[v] >= lu + 1
    ensures SumOver(keys, indeg') + |q'| <= SumOver(keys, indeg) + |q|
    ensures Relaxed(indeg', layer', q') == RelaxAll(Relaxed(indeg, layer, q), adj[u], lu)
  {
    indeg', layer', q' := indeg, layer, q;
    var succ := adj[u];
    for k := 0 to |succ|
      invariant indeg'.Keys == adj.Keys
      invariant forall w <- q' :: w in adj
      invariant forall w <- q :: w in q'
      invariant layer'.Keys <= adj.Keys
      invariant forall w <- layer.Keys :: w in layer' && layer'[w] >= layer[w]
      invariant forall j :: 0 <= j < k ==> succ[j] in layer' && layer'[succ[j]] >= lu + 1
      invariant SumOver(keys, indeg') + |q'| <= SumOver(keys, indeg) + |q|
      invariant Relaxed(indeg', layer', q') == RelaxAll(Relaxed(indeg, layer, q), succ[..k], lu)
    {
      RelaxAllSnoc(Relaxed(indeg, layer, q), succ, k, lu);
      ghost var la, qa := layer', q';
      indeg', layer', q' := Relax(succ[k], lu, indeg', layer', q', keys);
      RelaxKeeps(adj, lu, succ, k, layer, q, la, qa, layer', q');
    }
    assert succ[..|succ|] == succ;
  }

  /** Some processed node has `v` among its successors. */
  ghost predicate Fed(adj: map<string, seq<string>>, done: map<string, nat>, v: string) {
    exists p <- done.Keys :: p in adj && v in adj[p]
  }

  /** `l` is 0, or one more than the layer some processed predecessor of `v` was processed with. */
  ghost predicate Attained(adj: map<string, seq<string>>, done: map<string, nat>, v: string, l: nat) {
    l == 0 || exists p <- done.Keys :: p in adj && v in adj[p] && l == done[p] + 1
  }

  /**
   * Exactly the processed nodes and their successors have a layer, and each
   * layer is attained; with `Raised`, each layer is the largest of 0 and
   * one more than the layers its processed predecessors were processed with.
   */
  ghost predicate LayerExact(adj: map<string, seq<string>>, layer: map<string, nat>, done: map<string, nat>) {
    && (forall v <- adj.Keys :: v in layer <==> v in done || Fed(adj, done, v))
    && (forall v <- layer.Keys :: Attained(adj, done, v, layer[v]))
  }

  /** One round of the queue loop, in any queue order, keeps `LayerExact`. */
  lemma ExactStep(adj: map<string, seq<string>>, st: Relaxed, done: map<string, nat>, u: string, lu: nat,
                  visited: map<string, nat>, after: map<string, nat>)
    requires LayerExact(adj, st.layer, done) && st.layer.Keys <= adj.Keys
    requires forall x <- done.Keys :: Raised(adj, st.layer, x, done[x])
    requires u in adj && lu == (if u in st.layer then st.layer[u] else 0)
    requires visited == RelaxAll(st, adj[u], lu).layer
    requires after == if u !in visited then visited[u := lu] else visited
    ensures LayerExact(adj, after, done[u := lu])
  {
    RelaxAllLayers(st, adj[u], lu);
    assert u in done ==> lu >= done[u] by {
      if u in done {
        assert Raised(adj, st.layer, u, done[u]);
      }
    }
    ExactKeys(adj, st.layer, done, u, lu, visited, after);
    ExactValues(adj, st.layer, done, u, lu, visited, after);
  }

  /** Processing `u` gives a layer to `u` and its successors, and to nothing else. */
  lemma ExactKeys(adj: map<string, seq<string>>, layer: map<string, nat>, done: map<string, nat>, u: string, lu: nat,
                  visited: map<string, nat>, after: map<string, nat>)
    requires forall v <- adj.Keys :: v in layer <==> v in done || Fed(adj, done, v)
    requires u in adj && LayersKept(layer, adj[u], visited)
    requires after == if u !in visited then visited[u := lu] else visited
    ensures forall v <- adj.Keys :: v in after <==> v in done[u := lu] || Fed(adj, done[u := lu], v)
  {
    var done' := done[u := lu];
    forall v | v in adj.Keys
      ensures v in after <==> v in done' || Fed(adj, done', v)
    {
      if Fed(adj, done, v) {
        var p :| p in done.Keys && p in adj && v in adj[p];
        assert p in done'.Keys;
      }
      if Fed(adj, done', v) && v !in adj[u] {
        var p :| p in done'.Keys && p in adj && v in adj[p];
        assert p in done.Keys;
      }
    }
  }

  /** Processing `u` at `lu` leaves every layer attained, with `u` itself as the witness for a raised successor. */
  lemma ExactValues(adj: map<string, seq<string>>, layer: map<string, nat>, done: map<string, nat>, u: string, lu: nat,
                    visited: map<string, nat>, after: map<string, nat>)
    requires forall v <- layer.Keys :: Attained(adj, done, v, layer[v])
    requires u in adj && (u in done ==> lu >= done[u]) && (u !in layer ==> lu == 0)
    requires LayersKept(layer, adj[u], visited)
    requires forall w <- adj[u] :: visited[w] == if w in layer && layer[w] >= lu + 1 then layer[w] else lu + 1
    requires after == if u !in visited then visited[u := lu] else visited
    ensures forall v <- after.Keys :: Attained(adj, done[u := lu], v, after[v])
  {
    var done' := done[u := lu];
    forall v | v in after.Keys
      ensures Attained(adj, done', v, after[v])
    {
      if v in adj[u] {
        if after[v] != lu + 1 && layer[v] != 0 {
          var p :| p in done.Keys && p in adj && v in adj[p] && layer[v] == done[p] + 1;
          assert p in done'.Keys && p != u;
        }
      } else if v in layer && layer[v] != 0 {
        var p :| p in done.Keys && p in adj && v in adj[p] && layer[v] == done[p] + 1;
        assert p in done'.Keys && p != u;
      }
    }
  }

  // ---------------------------------------------------------------------------
  // The queue loop started from every source: each node is processed once
  // ---------------------------------------------------------------------------

  /** The first key is not repeated in the rest, which is duplicate-free too. */
  lemma DistinctTail(keys: seq<string>)
    requires Distinct(keys) && keys != []
    ensures Distinct(keys[1..]) && keys[0] !in keys[1..]
  {
    var rest := keys[1..];
    forall i, j | 0 <= i < j < |rest| ensures rest[i] != rest[j] {
      assert rest[i] == keys[i + 1] && rest[j] == keys[j + 1];
    }
    forall j | 0 <= j < |rest| ensures rest[j] != keys[0] {
      assert rest[j] == keys[j + 1];
    }
  }

  /** A duplicate-free list holds each item at most once. */
  lemma {:induction false} DistinctOnce(s: seq<string>)
    requires Distinct(s)
    ensures forall w :: multiset(s)[w] <= 1
  {
    if s != [] {
      DistinctTail(s);
      DistinctOnce(s[1..]);
      assert s == [s[0]] + s[1..];
    }
  }

  /**
   * The successor-list entries equal to `v` over the nodes of `keys` that
   * are not in `done`: the counted edges into `v` from unprocessed nodes.
   */
  ghost function EdgesInto(adj: map<string, seq<string>>, keys: seq<string>, done: set<string>, v: string): nat
    requires forall k <- keys :: k in adj
  {
    if keys == [] then 0
    else (if keys[0] in done then 0 else multiset(adj[keys[0]])[v]) + EdgesInto(adj, keys[1..], done, v)
  }

  lemma {:induction false} EdgesIntoIgnores(adj: map<string, seq<string>>, keys: seq<string>, done: set<string>,
                                            u: string, v: string)
    requires forall k <- keys :: k in adj
    requires u !in keys
    ensures EdgesInto(adj, keys, done + {u}, v) == EdgesInto(adj, keys, done, v)
  {
    if keys != [] {
      EdgesIntoIgnores(adj, keys[1..], done, u, v);
    }
  }

  /** Processing `u` removes exactly the edges leaving it from the count. */
  lemma {:induction false} EdgesIntoProcess(adj: map<string, seq<string>>, keys: seq<string>, done: set<string>,
                                            u: string, v: string)
    requires forall k <- keys :: k in adj
    requires Distinct(keys) && u in keys && u !in done
    ensures multiset(adj[u])[v] <= EdgesInto(adj, keys, done, v)
    ensures EdgesInto(adj, keys, done + {u}, v) == EdgesInto(adj, keys, done, v) - multiset(adj[u])[v]
  {
    DistinctTail(keys);
    if keys[0] == u {
      EdgesIntoIgnores(adj, keys[1..], done, u, v);
    } else {
      assert u in keys[1..] by {
        assert keys == [keys[0]] + keys[1..];
      }
      EdgesIntoProcess(adj, keys[1..], done, u, v);
    }
  }

  /** A positive count names an unprocessed node with an edge into `v`. */
  lemma {:induction false} EdgesIntoPredecessor(adj: map<string, seq<string>>, keys: seq<string>, done: set<string>,
                                                v: string) returns (p: string)
    requires forall k <- keys :: k in adj
    requires EdgesInto(adj, keys, done, v) > 0
    ensures p in keys && p !in done && v in adj[p]
  {
    if keys[0] !in done && multiset(adj[keys[0]])[v] > 0 {
      p := keys[0];
    } else {
      p := EdgesIntoPredecessor(adj, keys[1..], done, v);
    }
  }

  lemma {:induction false} EdgesIntoEmpty(adj: map<string, seq<string>>, keys: seq<string>, v: string)
    requires forall k <- keys :: k in adj && adj[k] == []
    ensures EdgesInto(adj, keys, {}, v) == 0
  {
    if keys != [] {
      EdgesIntoEmpty(adj, keys[1..], v);
    }
  }

  /** Counting one more edge `u -> x` (when `add`) adds one to the count into `x`. */
  lemma {:induction false} EdgesIntoAppend(adj: map<string, seq<string>>, adj': map<string, seq<string>>,
                                           keys: seq<string>, add: bool, u: string, x: string, v: string)
    requires forall k <- keys :: k in adj && k in adj'
    requires forall k <- keys :: adj'[k] == if add && k == u then adj[k] + [x] else adj[k]
    requires Distinct(keys)
    ensures EdgesInto(adj', keys, {}, v) == EdgesInto(adj, keys, {}, v) + if add && u in keys && x == v then 1 else 0
  {
    if keys != [] {
      var k, rest := keys[0], keys[1..];
      DistinctTail(keys);
      EdgesIntoAppend(adj, adj', rest, add, u, x, v);
      assert u in keys <==> u == k || u in rest by {
        assert keys == [k] + rest;
      }
      CountAppend(adj[k], adj'[k], add && k == u, x, v);
    }
  }

  lemma CountAppend(s: seq<string>, s': seq<string>, add: bool, x: string, v: string)
    requires s' == if add then s + [x] else s
    ensures multiset(s')[v] == multiset(s)[v] + if add && x == v then 1 else 0
  {
    assert multiset(s + [x]) == multiset(s) + multiset{x};
  }

  /** Before any node is processed, the count into `v` is its in-degree. */
  lemma {:induction false} InDegreeEdgesInto(ids: set<string>, edges: seq<Edge>, keys: seq<string>,
                                             adj: map<string, seq<string>>, v: string)
    requires Distinct(keys) && forall k :: k in keys <==> k in ids
    requires forall k <- keys :: k in adj && adj[k] == Successors(ids, edges, k)
    ensures EdgesInto(adj, keys, {}, v) == InDegree(ids, edges, v)
    decreases |edges|
  {
    if edges == [] {
      EdgesIntoEmpty(adj, keys, v);
    } else {
      var init, e := edges[..|edges| - 1], edges[|edges| - 1];
      var adj0 := map k | k in keys :: Successors(ids, init, k);
      InDegreeEdgesInto(ids, init, keys, adj0, v);
      EdgesIntoAppend(adj0, adj, keys, Declared(ids, e), e.from, e.to, v);
    }
  }

  /**
   * The bookkeeping of the queue loop when it started from every source:
   * the counters count the edges from unprocessed nodes, the queue holds
   * the nodes that are ready, and processed nodes are settled.
   */
  ghost predicate KahnState(adj: map<string, seq<string>>, keys: seq<string>, indeg: map<string, nat>,
                            q: seq<string>, layer: map<string, nat>, done: map<string, nat>)
  {
    && PendingCounts(adj, keys, indeg, done.Keys)
    && ReadyQueue(adj, indeg, q, done.Keys)
    && Settled(adj, indeg, layer, done)
  }

  /** Each counter is the number of edges into its node from nodes not in `done`. */
  ghost predicate PendingCounts(adj: map<string, seq<string>>, keys: seq<string>, indeg: map<string, nat>,
                                done: set<string>)
  {
    && (forall k <- keys :: k in adj)
    && indeg.Keys == adj.Keys
    && forall v <- adj.Keys :: indeg[v] == EdgesInto(adj, keys, done, v)
  }

  /**
   * The queue holds unprocessed nodes with counter 0, each once; every other
   * unprocessed node has a positive counter.
   */
  ghost predicate ReadyQueue(adj: map<string, seq<string>>, indeg: map<string, nat>, q: seq<string>, done: set<string>) {
    && indeg.Keys == adj.Keys
    && (forall w :: multiset(q)[w] <= 1)
    && (forall x <- q :: x in adj && x !in done && indeg[x] == 0)
    && (forall v <- adj.Keys :: v !in done && v !in q ==> indeg[v] > 0)
  }

  /** Processed nodes have counter 0 and still the layer they were processed at. */
  ghost predicate Settled(adj: map<string, seq<string>>, indeg: map<string, nat>, layer: map<string, nat>,
                    done: map<string, nat>)
  {
    forall p <- done.Keys :: p in adj && p in indeg && indeg[p] == 0 && p in layer && layer[p] == done[p]
  }

  /** Some node outside `done` has `v` among its successors. */
  ghost predicate Blocked(adj: map<string, seq<string>>, done: set<string>, v: string) {
    exists p <- adj.Keys :: p !in done && v in adj[p]
  }

  /** The counters are the in-degrees and the queue holds every node of in-degree 0, once. */
  ghost predicate SourcesQueued(adj: map<string, seq<string>>, keys: seq<string>, indeg: map<string, nat>, q: seq<string>) {
    && (forall k <- keys :: k in adj)
    && indeg.Keys == adj.Keys
    && (forall v <- adj.Keys :: indeg[v] == EdgesInto(adj, keys, {}, v))
    && (forall w :: multiset(q)[w] <= 1)
    && (forall v <- adj.Keys :: v in q <==> indeg[v] == 0)
  }

  /** The counters after the inner loop over a successor multiset `m`, as `RelaxAllCounts` states them. */
  ghost predicate CountsDropped(indeg: map<string, nat>, m: multiset<string>, indeg': map<string, nat>) {
    indeg'.Keys == indeg.Keys && forall w <- indeg.Keys :: indeg'[w] == Dropped(indeg[w], m[w])
  }

  /** The queue after the inner loop, as `RelaxAllCounts` states it. */
  ghost predicate QueuedBehind(indeg: map<string, nat>, m: multiset<string>, q: seq<string>, q': seq<string>) {
    && |q| <= |q'| && q'[..|q|] == q
    && forall w :: multiset(q'[|q|..])[w] == if w in indeg && 0 < indeg[w] <= m[w] then 1 else 0
  }

  /** The layers after the inner loop, as far as `RelaxAllLayers` states them for non-successors. */
  ghost predicate LayersKept(layer: map<string, nat>, succ: seq<string>, layer': map<string, nat>) {
    && layer'.Keys == layer.Keys + (set w | w in succ)
    && forall w <- layer.Keys :: w !in succ ==> layer'[w] == layer[w]
  }

  /** No counter drops below zero: each one falls by exactly its number of edges from `u`. */
  ghost predicate ExactDrop(adj: map<string, seq<string>>, indeg: map<string, nat>, m: multiset<string>,
                            indeg': map<string, nat>)
  {
    forall v <- adj.Keys :: v in indeg && v in indeg' && m[v] <= indeg[v] && indeg'[v] == indeg[v] - m[v]
  }

  /** Processing `u`: each counter drops by the edges from `u`, to the count over the unprocessed rest. */
  lemma KahnCounts(adj: map<string, seq<string>>, keys: seq<string>, indeg: map<string, nat>, done: set<string>,
                   u: string, indeg': map<string, nat>)
    requires PendingCounts(adj, keys, indeg, done)
    requires Distinct(keys) && u in keys && u !in done
    requires CountsDropped(indeg, multiset(adj[u]), indeg')
    ensures ExactDrop(adj, indeg, multiset(adj[u]), indeg')
    ensures PendingCounts(adj, keys, indeg', done + {u})
  {
    forall v | v in adj.Keys
      ensures multiset(adj[u])[v] <= indeg[v] && indeg'[v] == EdgesInto(adj, keys, done + {u}, v)
    {
      EdgesIntoProcess(adj, keys, done, u, v);
    }
  }

  /** Processing `u`, the head of the queue: the queue stays ready. */
  lemma KahnQueue(adj: map<string, seq<string>>, indeg: map<string, nat>, q: seq<string>, done: set<string>,
                  m: multiset<string>, indeg': map<string, nat>, q': seq<string>)
    requires ReadyQueue(adj, indeg, q, done) && q != []
    requires forall p <- done :: p in indeg && indeg[p] == 0
    requires indeg'.Keys == adj.Keys && ExactDrop(adj, indeg, m, indeg')
    requires QueuedBehind(indeg, m, q[1..], q')
    ensures ReadyQueue(adj, indeg', q', done + {q[0]})
  {
    var u, q1 := q[0], q[1..];
    var added := q'[|q1|..];
    assert q == [u] + q1;
    assert q' == q1 + added;
    assert multiset(q') == multiset(q1) + multiset(added);
    assert u !in q1 by {
      assert multiset(q)[u] == 1 + multiset(q1)[u];
    }
    forall w ensures multiset(q')[w] <= 1 {
      if multiset(added)[w] > 0 {
        assert w !in q1;
      } else {
        assert multiset(q)[w] == multiset{u}[w] + multiset(q1)[w];
      }
    }
    forall x | x in q' ensures x in adj && x !in done + {u} && indeg'[x] == 0 {
      if x !in q1 {
        assert x in added;
        assert multiset(added)[x] > 0;
      }
    }
    forall v | v in adj.Keys && v !in done + {u} && v !in q' ensures indeg'[v] > 0 {
      assert v !in q;
      assert multiset(added)[v] == 0;
    }
  }

  /** Processing `u`: processed nodes keep their layer, and `u` keeps `lu`. */
  lemma KahnLayers(adj: map<string, seq<string>>, indeg: map<string, nat>, layer: map<string, nat>,
                   done: map<string, nat>, u: string, lu: nat, indeg': map<string, nat>, visited: map<string, nat>,
                   layer': map<string, nat>)
    requires Settled(adj, indeg, layer, done)
    requires u in adj && u in indeg && u !in done && indeg[u] == 0
    requires lu == if u in layer then layer[u] else 0
    requires ExactDrop(adj, indeg, multiset(adj[u]), indeg')
    requires LayersKept(layer, adj[u], visited)
    requires layer' == if u !in visited then visited[u := lu] else visited
    ensures Settled(adj, indeg', layer', done[u := lu])
  {
    assert u !in adj[u] by {
      assert multiset(adj[u])[u] <= indeg[u];
    }
    forall p | p in done.Keys ensures p !in adj[u] {
      assert multiset(adj[u])[p] <= indeg[p];
    }
  }

  /** One round of the queue loop keeps `KahnState`. */
  lemma KahnStep(adj: map<string, seq<string>>, keys: seq<string>, indeg: map<string, nat>, q: seq<string>,
                 layer: map<string, nat>, done: map<string, nat>, lu: nat, r: Relaxed, layer': map<string, nat>)
    requires KahnState(adj, keys, indeg, q, layer, done)
    requires Distinct(keys) && forall k :: k in keys <==> k in adj
    requires q != [] && lu == (if q[0] in layer then layer[q[0]] else 0)
    requires r == RelaxAll(Relaxed(indeg, layer, q[1..]), adj[q[0]], lu)
    requires layer' == if q[0] !in r.layer then r.layer[q[0] := lu] else r.layer
    ensures KahnState(adj, keys, r.indeg, r.q, layer', done[q[0] := lu])
  {
    assert q[0] in q;
    RelaxAllCounts(Relaxed(indeg, layer, q[1..]), adj[q[0]], lu);
    RelaxAllLayers(Relaxed(indeg, layer, q[1..]), adj[q[0]], lu);
    KahnNext(adj, keys, indeg, q, layer, done, lu, r.indeg, r.q, r.layer, layer');
  }

  /** `KahnStep` from what the inner loop does to the counts, the queue and the layers. */
  lemma KahnNext(adj: map<string, seq<string>>, keys: seq<string>, indeg: map<string, nat>, q: seq<string>,
                 layer: map<string, nat>, done: map<string, nat>, lu: nat,
                 indeg': map<string, nat>, q': seq<string>, visited: map<string, nat>, layer': map<string, nat>)
    requires KahnState(adj, keys, indeg, q, layer, done)
    requires Distinct(keys) && forall k :: k in keys <==> k in adj
    requires q != [] && q[0] in adj && lu == (if q[0] in layer then layer[q[0]] else 0)
    requires CountsDropped(indeg, multiset(adj[q[0]]), indeg')
    requires QueuedBehind(indeg, multiset(adj[q[0]]), q[1..], q')
    requires LayersKept(layer, adj[q[0]], visited)
    requires layer' == if q[0] !in visited then visited[q[0] := lu] else visited
    ensures KahnState(adj, keys, indeg', q', layer', done[q[0] := lu])
  {
    var u, m := q[0], multiset(adj[q[0]]);
    assert done[u := lu].Keys == done.Keys + {u};
    assert u in keys && u !in done && indeg[u] == 0;
    assert ExactDrop(adj, indeg, m, indeg') && PendingCounts(adj, keys, indeg', done.Keys + {u}) by {
      KahnCounts(adj, keys, indeg, done.Keys, u, indeg');
    }
    assert ReadyQueue(adj, indeg', q', done.Keys + {u}) by {
      KahnQueue(adj, indeg, q, done.Keys, m, indeg', q');
    }
    KahnLayers(adj, indeg, layer, done, u, lu, indeg', visited, layer');
  }

  /** A processed node has a zero counter, so every node with an edge into it is processed too. */
  lemma KahnClosed(adj: map<string, seq<string>>, keys: seq<string>, indeg: map<string, nat>, q: seq<string>,
                   layer: map<string, nat>, done: map<string, nat>)
    requires KahnState(adj, keys, indeg, q, layer, done)
    requires Distinct(keys) && forall k :: k in keys <==> k in adj
    ensures forall u <- done.Keys :: forall p <- adj.Keys :: u in adj[p] ==> p in done
  {
    forall u, p | u in done.Keys && p in adj.Keys && u in adj[p]
      ensures p in done
    {
      if p !in done {
        assert multiset(adj[p])[u] > 0;
        EdgesIntoProcess(adj, keys, done.Keys, p, u);
      }
    }
  }

  /**
   * The `while let` loop of `layered_positions`. Every node that was ever in
   * the queue is processed; processing `u` at layer `lu` leaves `u` at least
   * at `lu` and each successor at least at `lu + 1`; layers only grow, so
   * these bounds still hold at the end. In any queue order the layer map
   * stays exact (`LayerExact`).
   */
  method AssignLayers(adj: map<string, seq<string>>, indeg0: map<string, nat>, q0: seq<string>, ghost keys: seq<string>)
    returns (layer: map<string, nat>, ghost done: map<string, nat>)
    requires indeg0.Keys == adj.Keys
    requires forall u <- adj.Keys :: forall v <- adj[u] :: v in adj
    requires forall u <- q0 :: u in adj
    requires Distinct(keys) && forall k :: k in keys <==> k in indeg0
    ensures layer.Keys <= adj.Keys
    ensures forall u <- q0 :: u in done
    ensures forall u <- done.Keys :: Raised(adj, layer, u, done[u])
    ensures SourcesQueued(adj, keys, indeg0, q0) ==> forall u <- done.Keys :: u in layer && layer[u] == done[u]
    ensures SourcesQueued(adj, keys, indeg0, q0) ==>
              forall u <- done.Keys :: u in adj && u in layer && forall v <- adj[u] :: v in layer && layer[v] >= layer[u] + 1
    ensures SourcesQueued(adj, keys, indeg0, q0) ==>
              forall v {:trigger Blocked(adj, done.Keys, v)} :: v in adj && v !in done ==> Blocked(adj, done.Keys, v)
    ensures SourcesQueued(adj, keys, indeg0, q0) ==>
              forall u <- done.Keys :: forall p <- adj.Keys :: u in adj[p] ==> p in done
    ensures LayerExact(adj, layer, done)
  {
    var q := q0;
    var indeg := indeg0;
    layer := map[];
    done := map[];
    ghost var sources := SourcesQueued(adj, keys, indeg0, q0);
    assert done.Keys == {};
    while q != []
      invariant indeg.Keys == adj.Keys
      invariant forall u <- q :: u in adj
      invariant layer.Keys <= adj.Keys
      invariant forall u <- q0 :: u in done || u in q
      invariant forall u <- done.Keys :: Raised(adj, layer, u, done[u])
      invariant sources ==> KahnState(adj, keys, indeg, q, layer, done)
      invariant LayerExact(adj, layer, done)
      decreases SumOver(keys, indeg) + |q|
    {
      var u := q[0];
      ghost var qBefore, indegBefore := q, indeg;
      q := q[1..];
      var lu := if u in layer then layer[u] else 0;
      ghost var before := layer;
      indeg, layer, q := Visit(adj, u, lu, indeg, layer, q, keys);
      ghost var visited := layer;
      if u !in layer {
        layer := layer[u := lu];
      }
      ExactStep(adj, Relaxed(indegBefore, before, qBefore[1..]), done, u, lu, visited, layer);
      VisitedRaised(adj, before, visited, layer, u, lu);
      RaisedMonotone(adj, before, layer, done);
      DoneExtend(adj, layer, done, u, lu, done[u := lu]);
      if sources {
        KahnStep(adj, keys, indegBefore, qBefore, before, done, lu, Relaxed(indeg, visited, q), layer);
      }
      done := done[u := lu];
    }
    if sources {
      forall v | v in adj.Keys && v !in done
        ensures Blocked(adj, done.Keys, v)
      {
        var p := EdgesIntoPredecessor(adj, keys, done.Keys, v);
      }
      KahnClosed(adj, keys, indeg, q, layer, done);
    }
  }

  // ---------------------------------------------------------------------------
  // Buckets
  // ---------------------------------------------------------------------------

  /** A node's layer: the assigned one, or 0 when it has none. */
  function LayerOf(layer: map<string, nat>, id: string): nat {
    if id in layer then layer[id] else 0
  }

  /** The ids of the nodes whose layer is `l`, in document order. */
  function Bucket(nodes: seq<Node>, layer: map<string, nat>, l: nat): seq<string> {
    if nodes == [] then []
    else
      var n := nodes[|nodes| - 1];
      Bucket(nodes[..|nodes| - 1], layer, l) + if LayerOf(layer, n.id) == l then [n.id] else []
  }

  function LayersOf(nodes: seq<Node>, layer: map<string, nat>): set<nat> {
    set n | n in nodes :: LayerOf(layer, n.id)
  }

  /** Every declared node's id is in the bucket of its layer and in no other. */
  lemma {:induction false} OneBucketPerNode(nodes: seq<Node>, layer: map<string, nat>, i: nat, l: nat)
    requires i < |nodes|
    ensures nodes[i].id in Bucket(nodes, layer, LayerOf(layer, nodes[i].id))
    ensures nodes[i].id in Bucket(nodes, layer, l) ==> l == LayerOf(layer, nodes[i].id)
  {
    var init := nodes[..|nodes| - 1];
    if i < |nodes| - 1 {
      assert init[i] == nodes[i];
      OneBucketPerNode(init, layer, i, l);
    }
    BucketMembers(nodes, layer, l);
  }

  /** A bucket holds exactly the ids whose layer is its own. */
  lemma {:induction false} BucketMembers(nodes: seq<Node>, layer: map<string, nat>, l: nat)
    ensures forall y :: y in Bucket(nodes, layer, l) <==> y in Ids(nodes) && LayerOf(layer, y) == l
  {
    if nodes != [] {
      var init := nodes[..|nodes| - 1];
      BucketMembers(init, layer, l);
      IdsSnoc(nodes);
    }
  }

  /** The ids of a non-empty list: those before its last node, and the last node's. */
  lemma IdsSnoc(nodes: seq<Node>)
    requires nodes != []
    ensures Ids(nodes) == Ids(nodes[..|nodes| - 1]) + {nodes[|nodes| - 1].id}
  {
    assert nodes == nodes[..|nodes| - 1] + [nodes[|nodes| - 1]];
  }

  lemma BucketEmpty(nodes: seq<Node>, layer: map<string, nat>, l: nat)
    requires l !in LayersOf(nodes, layer)
    ensures Bucket(nodes, layer, l) == []
  {
    BucketMembers(nodes, layer, l);
  }

  lemma BucketAppend(nodes: seq<Node>, n: Node, layer: map<string, nat>)
    ensures LayersOf(nodes + [n], layer) == LayersOf(nodes, layer) + {LayerOf(layer, n.id)}
    ensures forall l :: (Bucket(nodes + [n], layer, l) ==
      Bucket(nodes, layer, l) + if LayerOf(layer, n.id) == l then [n.id] else [])
  {
    assert (nodes + [n])[..|nodes|] == nodes;
  }

  /** Adding node `n` to the buckets of `nodes` gives the buckets of `nodes + [n]`. */
  lemma BucketsExtend(nodes: seq<Node>, n: Node, layer: map<string, nat>, buckets: map<nat, seq<string>>)
    requires buckets.Keys == LayersOf(nodes, layer)
    requires forall l <- buckets.Keys :: buckets[l] == Bucket(nodes, layer, l)
    ensures var l := LayerOf(layer, n.id);
      var b := buckets[l := (if l in buckets then buckets[l] else []) + [n.id]];
      && b.Keys == LayersOf(nodes + [n], layer)
      && forall k <- b.Keys :: b[k] == Bucket(nodes + [n], layer, k)
  {
    var l := LayerOf(layer, n.id);
    BucketAppend(nodes, n, layer);
    if l !in buckets {
      BucketEmpty(nodes, layer, l);
    }
  }

  /** The bucket loop of `layered_positions`. */
  method Buckets(nodes: seq<Node>, layer: map<string, nat>) returns (buckets: map<nat, seq<string>>)
    ensures buckets.Keys == LayersOf(nodes, layer)
    ensures forall l <- buckets.Keys :: buckets[l] == Bucket(nodes, layer, l)
  {
    buckets := map[];
    for i := 0 to |nodes|
      invariant buckets.Keys == LayersOf(nodes[..i], layer)
      invariant forall l <- buckets.Keys :: buckets[l] == Bucket(nodes[..i], layer, l)
    {
      var n := nodes[i];
      var l := LayerOf(layer, n.id);
      BucketsExtend(nodes[..i], n, layer, buckets);
      assert nodes[..i + 1] == nodes[..i] + [n];
      var oldBucket := if l in buckets then buckets[l] else [];
      buckets := buckets[l := oldBucket + [n.id]];
    }
    assert nodes[..|nodes|] == nodes;
  }

  // ---------------------------------------------------------------------------
  // The whole layer computation
  // ---------------------------------------------------------------------------

  /**
   * Some declared node has no counted edge coming in (or there is no node):
   * the queue then starts with exactly the sources.
   */
  predicate HasSource(doc: Document) {
    doc.nodes == [] || exists v <- Ids(doc.nodes) :: InDegree(Ids(doc.nodes), doc.edges, v) == 0
  }

  /**
   * `order` lists every declared id, and every counted edge goes forward in
   * it: the counted edges have no cycle.
   */
  predicate Topological(ids: set<string>, edges: seq<Edge>, order: seq<string>) {
    && (forall v <- ids :: v in order)
    && forall i, j :: 0 <= i < |order| && 0 <= j < |order| && order[j] in Successors(ids, edges, order[i]) ==> i < j
  }

  /** `v` has a counted edge coming in from a declared node outside `done`. */
  predicate WaitsOn(ids: set<string>, edges: seq<Edge>, done: set<string>, v: string) {
    exists p <- ids :: p !in done && v in Successors(ids, edges, p)
  }

  /** Some processed node has a counted edge into `v`. */
  predicate Reached(ids: set<string>, edges: seq<Edge>, done: set<string>, v: string) {
    exists p <- done :: v in Successors(ids, edges, p)
  }

  /** `l` is 0, or one more than the layer some processed node with a counted edge into `v` was processed with. */
  predicate LayerFrom(ids: set<string>, edges: seq<Edge>, done: map<string, nat>, v: string, l: nat) {
    l == 0 || exists p <- done.Keys :: v in Successors(ids, edges, p) && l == done[p] + 1
  }

  /** A positive in-degree names a declared node with a counted edge into `v`. */
  lemma {:induction false} InDegreePredecessor(ids: set<string>, edges: seq<Edge>, v: string) returns (p: string)
    requires InDegree(ids, edges, v) > 0
    ensures p in ids && v in Successors(ids, edges, p)
    decreases |edges|
  {
    var init, e := edges[..|edges| - 1], edges[|edges| - 1];
    if InDegree(ids, init, v) > 0 {
      p := InDegreePredecessor(ids, init, v);
    } else {
      p := e.from;
    }
  }

  /** Walking back along counted edges from `order[j]` ends at a source, since each step goes back in `order`. */
  lemma {:induction false} SourceBefore(ids: set<string>, edges: seq<Edge>, order: seq<string>, j: nat)
    returns (s: string)
    requires Topological(ids, edges, order) && j < |order| && order[j] in ids
    ensures s in ids && InDegree(ids, edges, s) == 0
    decreases j
  {
    if InDegree(ids, edges, order[j]) == 0 {
      s := order[j];
    } else {
      var p := InDegreePredecessor(ids, edges, order[j]);
      var i :| 0 <= i < |order| && order[i] == p;
      s := SourceBefore(ids, edges, order, i);
    }
  }

  /** A graph with a topological order has a source. */
  lemma TopologicalHasSource(doc: Document, order: seq<string>)
    requires Topological(Ids(doc.nodes), doc.edges, order)
    ensures HasSource(doc)
  {
    if doc.nodes != [] {
      assert doc.nodes[0].id in Ids(doc.nodes);
      var j :| 0 <= j < |order| && order[j] == doc.nodes[0].id;
      var s := SourceBefore(Ids(doc.nodes), doc.edges, order, j);
    }
  }

  /**
   * When every unprocessed node has an unprocessed predecessor, a
   * topological order leaves none unprocessed: the first one in the order
   * would have its predecessor earlier still.
   */
  lemma {:induction false} ProcessedAt(ids: set<string>, edges: seq<Edge>, order: seq<string>, done: set<string>, j: nat)
    requires Topological(ids, edges, order) && j < |order|
    requires forall v {:trigger WaitsOn(ids, edges, done, v)} :: v in ids && v !in done ==> WaitsOn(ids, edges, done, v)
    ensures order[j] in ids ==> order[j] in done
    decreases j
  {
    if order[j] in ids && order[j] !in done {
      assert WaitsOn(ids, edges, done, order[j]);
      var p :| p in ids && p !in done && order[j] in Successors(ids, edges, p);
      var i :| 0 <= i < |order| && order[i] == p;
      ProcessedAt(ids, edges, order, done, i);
    }
  }

  /** When the graph has a source, the initial queue is exactly the sources and the counters count edges. */
  lemma SourcesStart(ids: set<string>, edges: seq<Edge>, adj: map<string, seq<string>>, indeg: map<string, nat>,
                     keys: seq<string>, q: seq<string>)
    requires adj.Keys == ids && indeg.Keys == ids
    requires forall u <- adj.Keys :: adj[u] == Successors(ids, edges, u)
    requires forall v <- indeg.Keys :: indeg[v] == InDegree(ids, edges, v)
    requires Sorted(keys) && forall y :: y in keys <==> y in ids
    requires q == ZeroIds(keys, indeg)
    ensures SourcesQueued(adj, keys, indeg, q)
  {
    SortedDistinct(keys);
    forall v | v in adj.Keys
      ensures indeg[v] == EdgesInto(adj, keys, {}, v)
    {
      InDegreeEdgesInto(ids, edges, keys, adj, v);
    }
    SortedDistinct(q);
    DistinctOnce(q);
  }

  /**
   * After the queue loop started from every source, each unprocessed node
   * waits on an unprocessed one; with a topological order, none is left.
   */
  lemma SourcesEnd(ids: set<string>, edges: seq<Edge>, adj: map<string, seq<string>>, done: set<string>)
    requires adj.Keys == ids
    requires forall u <- adj.Keys :: adj[u] == Successors(ids, edges, u)
    requires forall v {:trigger Blocked(adj, done, v)} :: v in adj && v !in done ==> Blocked(adj, done, v)
    ensures forall v {:trigger WaitsOn(ids, edges, done, v)} :: v in ids && v !in done ==> WaitsOn(ids, edges, done, v)
    ensures (exists order :: Topological(ids, edges, order)) ==> ids <= done
  {
    forall v | v in ids && v !in done
      ensures WaitsOn(ids, edges, done, v)
    {
      assert Blocked(adj, done, v);
      var p :| p in adj.Keys && p !in done && v in adj[p];
    }
    if exists order :: Topological(ids, edges, order) {
      var order :| Topological(ids, edges, order);
      forall v | v in ids ensures v in done {
        var j :| 0 <= j < |order| && order[j] == v;
        ProcessedAt(ids, edges, order, done, j);
      }
    }
  }

  /**
   * `LayerExact` in terms of the document: who has a layer and where each
   * layer comes from; an in-degree-0 node, once processed, stays at 0.
   */
  lemma ExactInDoc(ids: set<string>, edges: seq<Edge>, adj: map<string, seq<string>>, layer: map<string, nat>,
                   done: map<string, nat>)
    requires adj.Keys == ids && forall u <- adj.Keys :: adj[u] == Successors(ids, edges, u)
    requires done.Keys <= layer.Keys && layer.Keys <= ids
    requires LayerExact(adj, layer, done)
    ensures forall v <- ids :: v in layer <==> v in done || Reached(ids, edges, done.Keys, v)
    ensures forall v <- layer.Keys :: LayerFrom(ids, edges, done, v, layer[v])
    ensures forall v <- done.Keys :: InDegree(ids, edges, v) == 0 ==> layer[v] == 0
  {
    forall v | v in ids
      ensures v in layer <==> v in done || Reached(ids, edges, done.Keys, v)
    {
      if Fed(adj, done, v) {
        var p :| p in done.Keys && p in adj && v in adj[p];
      }
      if Reached(ids, edges, done.Keys, v) {
        var p :| p in done.Keys && v in Successors(ids, edges, p);
        assert p in adj;
      }
    }
    forall v | v in layer.Keys
      ensures LayerFrom(ids, edges, done, v, layer[v])
    {
      if layer[v] != 0 {
        var p :| p in done.Keys && p in adj && v in adj[p] && layer[v] == done[p] + 1;
      }
    }
    forall v | v in done.Keys && InDegree(ids, edges, v) == 0
      ensures layer[v] == 0
    {
      if layer[v] != 0 {
        var p :| p in done.Keys && p in adj && v in adj[p] && layer[v] == done[p] + 1;
        SuccessorsAreCounted(ids, edges, p, v);
      }
    }
  }

  /**
   * Lines 30-38 of `layered_positions`: the adjacency and in-degree maps and
   * the initial queue, which holds exactly the sources when there is one.
   */
  method Graph(doc: Document)
    returns (adj: map<string, seq<string>>, indeg: map<string, nat>, keys: seq<string>, q: seq<string>)
    ensures adj.Keys == Ids(doc.nodes) && indeg.Keys == adj.Keys
    ensures forall u <- adj.Keys :: adj[u] == Successors(Ids(doc.nodes), doc.edges, u)
    ensures forall v <- indeg.Keys :: indeg[v] == InDegree(Ids(doc.nodes), doc.edges, v)
    ensures forall u <- adj.Keys :: forall v <- adj[u] :: v in adj
    ensures Distinct(keys) && forall k :: k in keys <==> k in indeg
    ensures q == if ZeroIds(keys, indeg) != [] then ZeroIds(keys, indeg)
                 else if doc.nodes != [] then [doc.nodes[0].id] else []
    ensures forall u <- q :: u in adj
    ensures doc.nodes != [] ==> q != []
    ensures HasSource(doc) ==> SourcesQueued(adj, keys, indeg, q)
  {
    adj, indeg := BuildGraph(doc.nodes, doc.edges);
    keys := SortedIds(doc.nodes);
    SortedDistinct(keys);
    forall u <- adj.Keys, v <- adj[u]
      ensures v in adj
    {
      SuccessorsAreCounted(Ids(doc.nodes), doc.edges, u, v);
    }
    q := InitialQueue(keys, indeg, doc.nodes);
    assert forall u <- q :: u in adj by {
      if doc.nodes != [] {
        assert doc.nodes[0] in doc.nodes;
      }
    }
    if HasSource(doc) {
      assert q == ZeroIds(keys, indeg) by {
        if doc.nodes != [] {
          var v :| v in Ids(doc.nodes) && InDegree(Ids(doc.nodes), doc.edges, v) == 0;
          assert v in ZeroIds(keys, indeg);
        }
      }
      SourcesStart(Ids(doc.nodes), doc.edges, adj, indeg, keys, q);
    }
  }

  /**
   * Lines 30-42 of `layered_positions`: the layer map. Only declared ids get
   * a layer; every node processed at layer `lu` pushes each of its
   * successors to at least `lu + 1`; every in-degree-0 node (or the first
   * node, when there is none) is processed. When the graph has a source,
   * each node is processed once and keeps its layer from then on, so every
   * counted edge from a processed node ends at least one layer deeper, and
   * a node left unprocessed waits on another one; a graph without a cycle
   * leaves none unprocessed. In every case each layer is the largest of 0
   * and one more than the processing layers of the node's processed
   * predecessors, so an in-degree-0 node ends at 0.
   */
  method LayerMap(doc: Document) returns (layer: map<string, nat>, ghost done: map<string, nat>)
    ensures layer.Keys <= Ids(doc.nodes)
    ensures forall u <- done.Keys :: u in Ids(doc.nodes) && u in layer && layer[u] >= done[u]
    ensures forall u <- done.Keys :: forall v <- Successors(Ids(doc.nodes), doc.edges, u) ::
              v in layer && layer[v] >= done[u] + 1
    ensures forall v <- Ids(doc.nodes) :: InDegree(Ids(doc.nodes), doc.edges, v) == 0 ==> v in done
    ensures doc.nodes != [] ==> done.Keys != {}
    ensures HasSource(doc) ==> forall u <- done.Keys :: u in layer && layer[u] == done[u]
    ensures HasSource(doc) ==> forall u <- done.Keys :: forall v <- Successors(Ids(doc.nodes), doc.edges, u) ::
              u in layer && v in layer && layer[v] >= layer[u] + 1
    ensures HasSource(doc) ==> forall v {:trigger WaitsOn(Ids(doc.nodes), doc.edges, done.Keys, v)} ::
              v in Ids(doc.nodes) && v !in done ==> WaitsOn(Ids(doc.nodes), doc.edges, done.Keys, v)
    ensures (exists order :: Topological(Ids(doc.nodes), doc.edges, order)) ==> Ids(doc.nodes) <= done.Keys
    ensures forall v <- Ids(doc.nodes) :: InDegree(Ids(doc.nodes), doc.edges, v) == 0 ==> v in layer && layer[v] == 0
    ensures forall v <- Ids(doc.nodes) :: v in layer <==> v in done || Reached(Ids(doc.nodes), doc.edges, done.Keys, v)
    ensures forall v <- layer.Keys :: LayerFrom(Ids(doc.nodes), doc.edges, done, v, layer[v])
    ensures HasSource(doc) ==> forall u <- done.Keys :: forall p <- Ids(doc.nodes) ::
              u in Successors(Ids(doc.nodes), doc.edges, p) ==> p in done
  {
    var adj, indeg, keys, q := Graph(doc);
    layer, done := AssignLayers(adj, indeg, q, keys);
    if exists order :: Topological(Ids(doc.nodes), doc.edges, order) {
      var order :| Topological(Ids(doc.nodes), doc.edges, order);
      TopologicalHasSource(doc, order);
    }
    if HasSource(doc) {
      SourcesEnd(Ids(doc.nodes), doc.edges, adj, done.Keys);
    }
    if doc.nodes != [] {
      assert q[0] in done;
    }
    ExactInDoc(Ids(doc.nodes), doc.edges, adj, layer, done);
  }

  /**
   * Lines 30-44 of `layered_positions`: the layer map, then the buckets,
   * each node in exactly the bucket of its layer.
   */
  method Layers(doc: Document) returns (layer: map<string, nat>, buckets: map<nat, seq<string>>, ghost done: map<string, nat>)
    ensures layer.Keys <= Ids(doc.nodes)
    ensures forall u <- done.Keys :: u in Ids(doc.nodes) && u in layer && layer[u] >= done[u]
    ensures forall u <- done.Keys :: forall v <- Successors(Ids(doc.nodes), doc.edges, u) ::
              v in layer && layer[v] >= done[u] + 1
    ensures forall v <- Ids(doc.nodes) :: InDegree(Ids(doc.nodes), doc.edges, v) == 0 ==> v in done
    ensures doc.nodes != [] ==> done.Keys != {}
    ensures HasSource(doc) ==> forall u <- done.Keys :: u in layer && layer[u] == done[u]
    ensures HasSource(doc) ==> forall u <- done.Keys :: forall v <- Successors(Ids(doc.nodes), doc.edges, u) ::
              u in layer && v in layer && layer[v] >= layer[u] + 1
    ensures HasSource(doc) ==> forall v {:trigger WaitsOn(Ids(doc.nodes), doc.edges, done.Keys, v)} ::
              v in Ids(doc.nodes) && v !in done ==> WaitsOn(Ids(doc.nodes), doc.edges, done.Keys, v)
    ensures (exists order :: Topological(Ids(doc.nodes), doc.edges, order)) ==> Ids(doc.nodes) <= done.Keys
    ensures forall v <- Ids(doc.nodes) :: InDegree(Ids(doc.nodes), doc.edges, v) == 0 ==> v in layer && layer[v] == 0
    ensures forall v <- Ids(doc.nodes) :: v in layer <==> v in done || Reached(Ids(doc.nodes), doc.edges, done.Keys, v)
    ensures forall v <- layer.Keys :: LayerFrom(Ids(doc.nodes), doc.edges, done, v, layer[v])
    ensures HasSource(doc) ==> forall u <- done.Keys :: forall p <- Ids(doc.nodes) ::
              u in Successors(Ids(doc.nodes), doc.edges, p) ==> p in done
    ensures buckets.Keys == LayersOf(doc.nodes, layer)
    ensures forall l <- buckets.Keys :: buckets[l] == Bucket(doc.nodes, layer, l)
  {
    layer, done := LayerMap(doc);
    buckets := Buckets(doc.nodes, layer);
  }
}
