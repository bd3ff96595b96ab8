/** The task dependency graph: an index from artifacts to the tasks that name
    them, the producer-to-consumer edges with a synthetic `root` above every task
    nothing produces, pruning of requested nodes, and the filtering of task records
    together with the records that depend on them. A graph is only a set of nodes
    and a set of edges; a task node is identified by its position in the task list,
    because nodes compare by identity. */
module Dag {
  import opened Wrappers

  // ---------------------------------------------------------------------------
  // Graphs

  datatype Graph<V> = Graph(nodes: set<V>, edges: set<(V, V)>)

  /** Every edge joins two nodes of the graph. */
  predicate Closed<V>(g: Graph<V>) {
    forall e :: e in g.edges ==> e.0 in g.nodes && e.1 in g.nodes
  }

  /** `dag.predecessors(v)`. */
  function Preds<V>(g: Graph<V>, v: V): set<V> {
    set e | e in g.edges && e.1 == v :: e.0
  }

  /** `dag.successors(v)`. */
  function Succs<V>(g: Graph<V>, v: V): set<V> {
    set e | e in g.edges && e.0 == v :: e.1
  }

  /** An edge `(u, v)` makes u a predecessor of v and v a successor of u, and
      in a closed graph both are nodes. */
  lemma PredsSuccs<V>(g: Graph<V>, u: V, v: V)
    ensures u in Preds(g, v) <==> (u, v) in g.edges
    ensures v in Succs(g, u) <==> (u, v) in g.edges
    ensures Closed(g) ==> Preds(g, v) <= g.nodes && Succs(g, u) <= g.nodes
  {
    if (u, v) in g.edges {
      assert (u, v).0 == u && (u, v).1 == v;
    }
  }

  /** After removing `s`, a remaining node's predecessors and successors are
      its old ones outside `s`. */
  lemma NeighboursAfterRemove<V>(g: Graph<V>, s: set<V>, v: V)
    requires v !in s
    ensures Preds(RemoveNodes(g, s), v) == Preds(g, v) - s
    ensures Succs(RemoveNodes(g, s), v) == Succs(g, v) - s
  {
    var h := RemoveNodes(g, s);
    forall u ensures u in Preds(h, v) <==> u in Preds(g, v) - s {
      PredsSuccs(h, u, v);
      PredsSuccs(g, u, v);
    }
    forall w ensures w in Succs(h, v) <==> w in Succs(g, v) - s {
      PredsSuccs(h, v, w);
      PredsSuccs(g, v, w);
    }
  }

  /** `dag.remove_nodes_from(s)`: the nodes go, and every edge touching one of them. */
  function RemoveNodes<V>(g: Graph<V>, s: set<V>): (r: Graph<V>)
    ensures Closed(g) ==> Closed(r)
  {
    Graph(g.nodes - s, set e | e in g.edges && e.0 !in s && e.1 !in s)
  }

  /** The graph `add_edges_from` builds in an empty `DiGraph`: its nodes are the endpoints. */
  function FromEdges<V>(edges: set<(V, V)>): (g: Graph<V>)
    ensures Closed(g)
  {
    Graph((set e | e in edges :: e.0) + (set e | e in edges :: e.1), edges)
  }

  // ---------------------------------------------------------------------------
  // indexby

  /** How many times `k` occurs in `row`. */
  function Count<K(==)>(row: seq<K>, k: K): (n: nat)
    ensures n > 0 <==> k in row
  {
    if row == [] then 0 else Count(row[..|row| - 1], k) + (if row[|row| - 1] == k then 1 else 0)
  }

  /** `c` copies of `i`. */
  function Repeat(i: nat, c: nat): (r: seq<nat>)
    ensures |r| == c && forall m :: 0 <= m < c ==> r[m] == i
  {
    seq(c, _ => i)
  }

  /** The list `idx[k]` ends up holding: the position of each task once per
      occurrence of `k` among its keys, tasks in input order. */
  function Hits<K(==)>(keys: seq<seq<K>>, k: K): seq<nat> {
    if keys == [] then []
    else Hits(keys[..|keys| - 1], k) + Repeat(|keys| - 1, Count(keys[|keys| - 1], k))
  }

  /** `idx.get(k, [])`, and reading a `defaultdict(list)`. */
  function Get<K, T>(idx: map<K, seq<T>>, k: K): seq<T> {
    if k in idx then idx[k] else []
  }

  /** A key just stored reads back as what was stored, other keys as before,
      and a key never stored as the empty list. */
  lemma GetStored<K, T>(idx: map<K, seq<T>>, k: K, v: seq<T>, k': K)
    ensures Get(idx[k := v], k) == v
    ensures k' != k ==> Get(idx[k := v], k') == Get(idx, k')
    ensures k' !in idx ==> Get(idx, k') == []
  {
  }

  /** A position is listed under `k` exactly when that task has `k` among its keys. */
  lemma {:induction false} HitsMember<K>(keys: seq<seq<K>>, k: K, i: int)
    ensures i in Hits(keys, k) <==> 0 <= i < |keys| && k in keys[i]
  {
    if keys != [] {
      var n := |keys| - 1;
      HitsMember(keys[..n], k, i);
      var c := Count(keys[n], k);
      assert i in Repeat(n, c) <==> i == n && c > 0 by {
        if i in Repeat(n, c) {
          var m :| 0 <= m < c && Repeat(n, c)[m] == i;
        }
        if i == n && c > 0 {
          assert Repeat(n, c)[0] == i;
        }
      }
      if 0 <= i < n {
        assert keys[..n][i] == keys[i];
      }
    }
  }

  lemma {:induction false} HitsBelow<K>(keys: seq<seq<K>>, k: K)
    ensures forall m :: 0 <= m < |Hits(keys, k)| ==> Hits(keys, k)[m] < |keys|
  {
    if keys != [] {
      HitsBelow(keys[..|keys| - 1], k);
    }
  }

  /** Positions come in input order; when no task repeats a key (its keys are a
      set), each position comes once, so the order is strict. */
  lemma {:induction false} HitsOrdered<K>(keys: seq<seq<K>>, k: K)
    ensures forall a, b :: 0 <= a < b < |Hits(keys, k)| ==> Hits(keys, k)[a] <= Hits(keys, k)[b]
    ensures (forall i :: 0 <= i < |keys| ==> Count(keys[i], k) <= 1) ==>
      forall a, b :: 0 <= a < b < |Hits(keys, k)| ==> Hits(keys, k)[a] < Hits(keys, k)[b]
  {
    if keys != [] {
      var n := |keys| - 1;
      HitsOrdered(keys[..n], k);
      HitsBelow(keys[..n], k);
      assert forall i :: 0 <= i < n ==> keys[..n][i] == keys[i];
    }
  }

  /** A key nobody has gets no entry. */
  lemma HitsEmpty<K>(keys: seq<seq<K>>, k: K)
    ensures Hits(keys, k) == [] <==> forall i :: 0 <= i < |keys| ==> k !in keys[i]
  {
    if Hits(keys, k) != [] {
      HitsMember(keys, k, Hits(keys, k)[0]);
    }
    forall i | 0 <= i < |keys| && k in keys[i] ensures Hits(keys, k) != [] {
      HitsMember(keys, k, i);
    }
  }

  lemma HitsStep<K>(keys: seq<seq<K>>, i: nat, k: K)
    requires i < |keys|
    ensures Hits(keys[..i + 1], k) == Hits(keys[..i], k) + Repeat(i, Count(keys[i], k))
  {
    assert keys[..i + 1][..i] == keys[..i];
  }

  /** One more occurrence of `k` in a row adds one more copy of the position. */
  lemma AddStep<K>(row: seq<K>, j: nat, i: nat, k: K)
    requires j < |row|
    ensures Repeat(i, Count(row[..j + 1], k)) ==
      Repeat(i, Count(row[..j], k)) + (if row[j] == k then [i] else [])
  {
    assert row[..j + 1][..j] == row[..j];
  }

  /** One step of `indexby`'s inner loop keeps its invariant. */
  lemma IndexAdd<K>(idx: map<K, seq<nat>>, done: seq<seq<K>>, row: seq<K>, i: nat, j: nat)
    requires j < |row|
    requires forall k :: Get(idx, k) == Hits(done, k) + Repeat(i, Count(row[..j], k))
    ensures var after := idx[row[j] := Get(idx, row[j]) + [i]];
      forall k :: Get(after, k) == Hits(done, k) + Repeat(i, Count(row[..j + 1], k))
  {
    var after := idx[row[j] := Get(idx, row[j]) + [i]];
    forall k ensures Get(after, k) == Hits(done, k) + Repeat(i, Count(row[..j + 1], k)) {
      AddStep(row, j, i, k);
      GetStored(idx, row[j], Get(idx, row[j]) + [i], k);
    }
  }

  /** After the whole row of task `i`, the index covers the first `i + 1` tasks. */
  lemma IndexRowDone<K>(idx: map<K, seq<nat>>, keys: seq<seq<K>>, i: nat)
    requires i < |keys|
    requires forall k :: Get(idx, k) == Hits(keys[..i], k) + Repeat(i, Count(keys[i][..|keys[i]|], k))
    ensures forall k :: Get(idx, k) == Hits(keys[..i + 1], k)
  {
    assert keys[i][..|keys[i]|] == keys[i];
    forall k ensures Get(idx, k) == Hits(keys[..i + 1], k) {
      HitsStep(keys, i, k);
    }
  }

  /** `indexby`: for each task in order and each of its keys, appends the task's
      position to `idx[key]`. `keys[i]` is the keys of task `i` in iteration order. */
  method IndexBy<K(==)>(keys: seq<seq<K>>) returns (idx: map<K, seq<nat>>)
    ensures forall k :: Get(idx, k) == Hits(keys, k)
    ensures forall k :: k in idx <==> exists i :: 0 <= i < |keys| && k in keys[i]
  {
    idx := map[];
    var i := 0;
    while i < |keys|
      invariant 0 <= i <= |keys|
      invariant forall k :: Get(idx, k) == Hits(keys[..i], k)
      invariant forall k :: k in idx ==> idx[k] != []
    {
      var row := keys[i];
      var j := 0;
      while j < |row|
        invariant 0 <= j <= |row|
        invariant forall k :: Get(idx, k) == Hits(keys[..i], k) + Repeat(i, Count(row[..j], k))
        invariant forall k :: k in idx ==> idx[k] != []
      {
        var item := row[j];
        IndexAdd(idx, keys[..i], row, i, j);
        idx := idx[item := Get(idx, item) + [i]];
        j := j + 1;
      }
      IndexRowDone(idx, keys, i);
      i := i + 1;
    }
    assert keys[..i] == keys;
    forall k ensures k in idx <==> exists i :: 0 <= i < |keys| && k in keys[i] {
      HitsEmpty(keys, k);
    }
  }

  // ---------------------------------------------------------------------------
  // _search, taskiter, assemble

  /** `_search`: every position listed under one of the keys in `using`, deduplicated. */
  function Search<K(==)>(using: set<K>, idx: map<K, seq<nat>>): (r: set<nat>)
    ensures forall i :: i in r <==> exists x :: x in using && i in Get(idx, x)
  {
    set x, i | x in using && i in Get(idx, x) :: i
  }

  /** Searching an index built by `indexby` finds the tasks whose keys meet `using`. */
  lemma SearchIndex<K>(using: set<K>, keys: seq<seq<K>>, idx: map<K, seq<nat>>)
    requires forall k :: Get(idx, k) == Hits(keys, k)
    ensures forall i :: i in Search(using, idx) <==> 0 <= i < |keys| && exists x :: x in using && x in keys[i]
  {
    forall i ensures i in Search(using, idx) <==> 0 <= i < |keys| && exists x :: x in using && x in keys[i] {
      forall x ensures i in Get(idx, x) <==> 0 <= i < |keys| && x in keys[i] {
        HitsMember(keys, x, i);
      }
    }
  }

  /** A task seen by the graph code. */
  datatype DoitTask = DoitTask(name: string, targets: seq<string>, fileDep: seq<string>)

  /** `DagNode` reduced to its name and its artifact sets. */
  datatype DagNode = DagNode(name: string, targets: set<string>, deps: set<string>)

  /** The name `assemble` gives the synthetic node above every unproduced task. */
  const RootName: string := "root"

  /** `DagNode.from_doit_task`. */
  function FromDoitTask(t: DoitTask): (n: DagNode)
    ensures n.name == t.name
    ensures forall x :: x in n.targets <==> x in t.targets
    ensures forall x :: x in n.deps <==> x in t.fileDep
  {
    DagNode(t.name, set x | x in t.targets, set x | x in t.fileDep)
  }

  /** A graph vertex: the root node or the task node at a position. */
  datatype Vertex = Root | Node(i: nat)

  /** The root node: no targets, no dependencies. */
  function RootNode(): (n: DagNode)
    ensures n.name == RootName && n.targets == {} && n.deps == {}
  {
    DagNode(RootName, {}, {})
  }

  /** The task at `p` produces something the task at `c` depends on. */
  predicate Feeds(nodes: seq<DagNode>, p: nat, c: nat)
    requires p < |nodes| && c < |nodes|
  {
    exists x :: x in nodes[p].targets && x in nodes[c].deps
  }

  /** Between nodes made from tasks, one feeds another exactly when a target
      the first task lists is a file dependency the second lists. */
  lemma FeedsOfTasks(tasks: seq<DoitTask>, nodes: seq<DagNode>, p: nat, c: nat)
    requires |nodes| == |tasks| && forall i :: 0 <= i < |tasks| ==> nodes[i] == FromDoitTask(tasks[i])
    requires p < |nodes| && c < |nodes|
    ensures Feeds(nodes, p, c) <==> exists x :: x in tasks[p].targets && x in tasks[c].fileDep
  {
    assert nodes[p] == FromDoitTask(tasks[p]) && nodes[c] == FromDoitTask(tasks[c]);
  }

  /** No task produces anything the task at `t` depends on. */
  predicate Unproduced(nodes: seq<DagNode>, t: nat)
    requires t < |nodes|
  {
    forall p :: 0 <= p < |nodes| ==> !Feeds(nodes, p, t)
  }

  /** What `taskiter` yields for the node at `n`: an edge to each child found by
      its targets, then an edge from each parent found by its dependencies, or
      from the root when there is none. */
  function NodeEdges(n: nat, nodes: seq<DagNode>, byDep: map<string, seq<nat>>, byTgt: map<string, seq<nat>>): set<(Vertex, Vertex)>
    requires n < |nodes|
  {
    var children := Search(nodes[n].targets, byDep);
    var parents := Search(nodes[n].deps, byTgt);
    (set c | c in children :: (Node(n), Node(c)))
      + (if parents != {} then (set p | p in parents :: (Node(p), Node(n))) else {(Root, Node(n))})
  }

  /** Everything `taskiter` yields for the first `n` nodes. */
  function TaskIter(n: nat, nodes: seq<DagNode>, byDep: map<string, seq<nat>>, byTgt: map<string, seq<nat>>): set<(Vertex, Vertex)>
    requires n <= |nodes|
  {
    if n == 0 then {} else TaskIter(n - 1, nodes, byDep, byTgt) + NodeEdges(n - 1, nodes, byDep, byTgt)
  }

  /** `enums[i]` lists the dependencies of node `i`. */
  ghost predicate DepLists(nodes: seq<DagNode>, enums: seq<seq<string>>) {
    |enums| == |nodes| && forall i :: 0 <= i < |nodes| ==> forall x :: x in enums[i] <==> x in nodes[i].deps
  }

  /** `enums[i]` lists the targets of node `i`. */
  ghost predicate TargetLists(nodes: seq<DagNode>, enums: seq<seq<string>>) {
    |enums| == |nodes| && forall i :: 0 <= i < |nodes| ==> forall x :: x in enums[i] <==> x in nodes[i].targets
  }

  /** Searching the two indexes finds each node's consumers and producers. */
  ghost predicate Searchable(nodes: seq<DagNode>, byDep: map<string, seq<nat>>, byTgt: map<string, seq<nat>>) {
    forall m :: 0 <= m < |nodes| ==>
      && (forall c :: c in Search(nodes[m].targets, byDep) <==> 0 <= c < |nodes| && Feeds(nodes, m, c))
      && (forall p :: p in Search(nodes[m].deps, byTgt) <==> 0 <= p < |nodes| && Feeds(nodes, p, m))
  }

  /** Searching the dependency index with a node's targets finds its consumers. */
  lemma ChildrenFound(m: nat, nodes: seq<DagNode>, deps: seq<seq<string>>, byDep: map<string, seq<nat>>)
    requires m < |nodes| && DepLists(nodes, deps)
    requires forall k :: Get(byDep, k) == Hits(deps, k)
    ensures forall c :: c in Search(nodes[m].targets, byDep) <==> 0 <= c < |nodes| && Feeds(nodes, m, c)
  {
    forall c ensures c in Search(nodes[m].targets, byDep) <==> 0 <= c < |nodes| && Feeds(nodes, m, c) {
      if c in Search(nodes[m].targets, byDep) {
        var x :| x in nodes[m].targets && c in Get(byDep, x);
        HitsMember(deps, x, c);
      }
      if 0 <= c < |nodes| && Feeds(nodes, m, c) {
        var x :| x in nodes[m].targets && x in nodes[c].deps;
        HitsMember(deps, x, c);
        assert c in Get(byDep, x);
      }
    }
  }

  /** Searching the target index with a node's dependencies finds its producers. */
  lemma ParentsFound(m: nat, nodes: seq<DagNode>, tgts: seq<seq<string>>, byTgt: map<string, seq<nat>>)
    requires m < |nodes| && TargetLists(nodes, tgts)
    requires forall k :: Get(byTgt, k) == Hits(tgts, k)
    ensures forall p :: p in Search(nodes[m].deps, byTgt) <==> 0 <= p < |nodes| && Feeds(nodes, p, m)
  {
    forall p ensures p in Search(nodes[m].deps, byTgt) <==> 0 <= p < |nodes| && Feeds(nodes, p, m) {
      if p in Search(nodes[m].deps, byTgt) {
        var x :| x in nodes[m].deps && p in Get(byTgt, x);
        HitsMember(tgts, x, p);
      }
      if 0 <= p < |nodes| && Feeds(nodes, p, m) {
        var x :| x in nodes[p].targets && x in nodes[m].deps;
        HitsMember(tgts, x, p);
        assert p in Get(byTgt, x);
      }
    }
  }

  /** Indexes built by `indexby` over the nodes' own keys can be searched. */
  lemma IndexesSearchable(nodes: seq<DagNode>, deps: seq<seq<string>>, tgts: seq<seq<string>>,
                          byDep: map<string, seq<nat>>, byTgt: map<string, seq<nat>>)
    requires DepLists(nodes, deps) && TargetLists(nodes, tgts)
    requires forall k :: Get(byDep, k) == Hits(deps, k)
    requires forall k :: Get(byTgt, k) == Hits(tgts, k)
    ensures Searchable(nodes, byDep, byTgt)
  {
    forall m | 0 <= m < |nodes|
      ensures forall c :: c in Search(nodes[m].targets, byDep) <==> 0 <= c < |nodes| && Feeds(nodes, m, c)
      ensures forall p :: p in Search(nodes[m].deps, byTgt) <==> 0 <= p < |nodes| && Feeds(nodes, p, m)
    {
      ChildrenFound(m, nodes, deps, byDep);
      ParentsFound(m, nodes, tgts, byTgt);
    }
  }

  /** `edges` are exactly those `taskiter` yields for the first `n` nodes: an
      edge between two tasks when one of them is among the first `n` and the
      first feeds the second, an edge from root to each of the first `n` that
      nothing feeds, and no edge into root. */
  ghost predicate IterEdges(edges: set<(Vertex, Vertex)>, nodes: seq<DagNode>, n: nat) {
    && (forall p: nat, c: nat :: (Node(p), Node(c)) in edges <==>
         p < |nodes| && c < |nodes| && (p < n || c < n) && Feeds(nodes, p, c))
    && (forall t: nat :: (Root, Node(t)) in edges <==> t < n && t < |nodes| && Unproduced(nodes, t))
    && (forall v :: (v, Root) !in edges)
  }

  /** `edges` are exactly what node `m` contributes: its edges to its
      consumers, the edges from its producers, and the root edge when it has
      none. */
  ghost predicate OwnEdges(edges: set<(Vertex, Vertex)>, nodes: seq<DagNode>, m: nat) {
    && (forall p: nat, c: nat :: (Node(p), Node(c)) in edges <==>
         p < |nodes| && c < |nodes| && (p == m || c == m) && Feeds(nodes, p, c))
    && (forall t: nat :: (Root, Node(t)) in edges <==> t == m && t < |nodes| && Unproduced(nodes, m))
    && (forall v :: (v, Root) !in edges)
  }

  /** What one node contributes. */
  lemma NodeEdgesSpec(m: nat, nodes: seq<DagNode>, byDep: map<string, seq<nat>>, byTgt: map<string, seq<nat>>)
    requires m < |nodes| && Searchable(nodes, byDep, byTgt)
    ensures OwnEdges(NodeEdges(m, nodes, byDep, byTgt), nodes, m)
  {
    var parents := Search(nodes[m].deps, byTgt);
    assert parents == {} <==> Unproduced(nodes, m) by {
      if !Unproduced(nodes, m) {
        var p :| 0 <= p < |nodes| && Feeds(nodes, p, m);
        assert p in parents;
      }
    }
  }

  /** The edges of `taskiter` over the first `n` nodes. */
  lemma TaskIterEdges(n: nat, nodes: seq<DagNode>, byDep: map<string, seq<nat>>, byTgt: map<string, seq<nat>>)
    requires n <= |nodes| && Searchable(nodes, byDep, byTgt)
    ensures IterEdges(TaskIter(n, nodes, byDep, byTgt), nodes, n)
  {
    var parts := seq(|nodes|, m requires 0 <= m < |nodes| => NodeEdges(m, nodes, byDep, byTgt));
    forall m | 0 <= m < |nodes|
      ensures OwnEdges(parts[m], nodes, m)
    {
      NodeEdgesSpec(m, nodes, byDep, byTgt);
    }
    TaskIterIsUnion(n, nodes, byDep, byTgt, parts);
    UnionCollects(n, nodes, parts);
  }

  /** The union of the first `n` of a sequence of edge sets. */
  ghost function UnionUpTo(parts: seq<set<(Vertex, Vertex)>>, n: nat): set<(Vertex, Vertex)>
    requires n <= |parts|
  {
    if n == 0 then {} else UnionUpTo(parts, n - 1) + parts[n - 1]
  }

  /** `taskiter` yields the union of what each node contributes. */
  lemma {:induction false} TaskIterIsUnion(n: nat, nodes: seq<DagNode>, byDep: map<string, seq<nat>>, byTgt: map<string, seq<nat>>,
                                           parts: seq<set<(Vertex, Vertex)>>)
    requires n <= |nodes| == |parts|
    requires forall m :: 0 <= m < |nodes| ==> parts[m] == NodeEdges(m, nodes, byDep, byTgt)
    ensures TaskIter(n, nodes, byDep, byTgt) == UnionUpTo(parts, n)
  {
    if n > 0 {
      TaskIterIsUnion(n - 1, nodes, byDep, byTgt, parts);
    }
  }

  /** Collecting what each node contributes gives the edges over the first `n`. */
  lemma {:induction false} UnionCollects(n: nat, nodes: seq<DagNode>, parts: seq<set<(Vertex, Vertex)>>)
    requires n <= |nodes| == |parts|
    requires forall m :: 0 <= m < |parts| ==> OwnEdges(parts[m], nodes, m)
    ensures IterEdges(UnionUpTo(parts, n), nodes, n)
  {
    if n > 0 {
      UnionCollects(n - 1, nodes, parts);
      EdgesUnion(n, nodes, UnionUpTo(parts, n - 1), parts[n - 1]);
    }
  }

  /** The step of `TaskIterEdges`, on the two sets alone. */
  lemma EdgesUnion(n: nat, nodes: seq<DagNode>, before: set<(Vertex, Vertex)>, added: set<(Vertex, Vertex)>)
    requires 0 < n <= |nodes|
    requires IterEdges(before, nodes, n - 1) && OwnEdges(added, nodes, n - 1)
    ensures IterEdges(before + added, nodes, n)
  {
  }

  /** An iteration order of a set: each element once. */
  method Enumerate<K(==)>(s: set<K>) returns (xs: seq<K>)
    ensures forall x :: x in xs <==> x in s
    ensures forall a, b :: 0 <= a < b < |xs| ==> xs[a] != xs[b]
  {
    xs := [];
    var rest := s;
    while rest != {}
      invariant forall x :: x in s <==> x in xs || x in rest
      invariant forall x :: x in xs ==> x !in rest
      invariant forall a, b :: 0 <= a < b < |xs| ==> xs[a] != xs[b]
      decreases rest
    {
      var x :| x in rest;
      xs := xs + [x];
      rest := rest - {x};
    }
  }

  /** In the assembled graph every task has an incoming edge, and the root is a
      node exactly when some task has no producer. */
  lemma AssembledReached(dag: Graph<Vertex>, nodes: seq<DagNode>)
    requires dag == FromEdges(dag.edges)
    requires forall p: nat, c: nat :: (Node(p), Node(c)) in dag.edges <==>
      p < |nodes| && c < |nodes| && Feeds(nodes, p, c)
    requires forall t: nat :: (Root, Node(t)) in dag.edges <==> t < |nodes| && Unproduced(nodes, t)
    requires forall v :: (v, Root) !in dag.edges
    ensures forall t :: 0 <= t < |nodes| ==> Node(t) in dag.nodes && Preds(dag, Node(t)) != {}
    ensures Root in dag.nodes <==> exists t :: 0 <= t < |nodes| && Unproduced(nodes, t)
  {
    forall t | 0 <= t < |nodes| ensures Node(t) in dag.nodes && Preds(dag, Node(t)) != {} {
      if Unproduced(nodes, t) {
        assert (Root, Node(t)) in dag.edges;
        assert Root in Preds(dag, Node(t));
      } else {
        var p :| 0 <= p < |nodes| && Feeds(nodes, p, t);
        assert (Node(p), Node(t)) in dag.edges;
        assert Node(p) in Preds(dag, Node(t));
      }
    }
    if Root in dag.nodes {
      var e :| e in dag.edges && (e.0 == Root || e.1 == Root);
      assert e.1 != Root;
      assert e.1.Node? && e.1.i < |nodes| && Unproduced(nodes, e.1.i);
    }
    if t :| 0 <= t < |nodes| && Unproduced(nodes, t) {
      assert (Root, Node(t)) in dag.edges;
    }
  }

  /** `assemble(tasks)`: one node per task, an edge from every producer to every
      consumer of one of its targets, and an edge from the root to every task that
      nothing produces. */
  method Assemble(tasks: seq<DoitTask>) returns (dag: Graph<Vertex>, nodes: seq<DagNode>)
    ensures |nodes| == |tasks| && forall i :: 0 <= i < |tasks| ==> nodes[i] == FromDoitTask(tasks[i])
    ensures Closed(dag)
    ensures forall p: nat, c: nat :: (Node(p), Node(c)) in dag.edges <==>
      p < |tasks| && c < |tasks| && Feeds(nodes, p, c)
    ensures forall t: nat :: (Root, Node(t)) in dag.edges <==> t < |tasks| && Unproduced(nodes, t)
    ensures forall v :: (v, Root) !in dag.edges
    ensures dag == FromEdges(dag.edges)
    ensures forall t :: 0 <= t < |tasks| ==> Node(t) in dag.nodes && Preds(dag, Node(t)) != {}
    ensures Root in dag.nodes <==> exists t :: 0 <= t < |tasks| && Unproduced(nodes, t)
  {
    nodes := [];
    var deps: seq<seq<string>> := [];
    var tgts: seq<seq<string>> := [];
    for i := 0 to |tasks|
      invariant |nodes| == i && forall m :: 0 <= m < i ==> nodes[m] == FromDoitTask(tasks[m])
      invariant DepLists(nodes, deps) && TargetLists(nodes, tgts)
    {
      var node := FromDoitTask(tasks[i]);
      var d := Enumerate(node.deps);
      var t := Enumerate(node.targets);
      nodes := nodes + [node];
      deps := deps + [d];
      tgts := tgts + [t];
    }
    var byDep := IndexBy(deps);
    var byTgt := IndexBy(tgts);
    var edges := TaskIter(|nodes|, nodes, byDep, byTgt);
    IndexesSearchable(nodes, deps, tgts, byDep, byTgt);
    TaskIterEdges(|nodes|, nodes, byDep, byTgt);
    dag := FromEdges(edges);
    AssembledReached(dag, nodes);
  }

  // ---------------------------------------------------------------------------
  // prune

  /** The subgraph of `g` on the nodes `s`. */
  function Induced<V>(g: Graph<V>, s: set<V>): Graph<V> {
    Graph(s, set e | e in g.edges && e.0 in s && e.1 in s)
  }

  /** A requested node that `prune` always keeps, whatever order it pops in: it
      has a predecessor that is never popped before it is examined (one outside the
      prune set, or itself through a self-loop), and it is no predecessor of any
      other requested node. */
  ghost predicate Sheltered<V>(dag: Graph<V>, toPrune: set<V>, v: V) {
    && v in dag.nodes
    && (exists u :: u in Preds(dag, v) && (u !in toPrune || u == v))
    && (forall w :: w in Succs(dag, v) && w != v ==> w !in toPrune)
  }

  /** `prune(dag, nodes_to_prune)`: pops requested nodes in an arbitrary order; a
      popped node whose predecessors are all still waiting in the prune set is
      removed together with them. `missing` is the requested node that was not in
      the graph when `predecessors` was asked about it (a NetworkXError); the graph
      is returned as it was left. */
  method Prune<V>(dag: Graph<V>, toPrune: set<V>) returns (g: Graph<V>, missing: Option<V>)
    requires Closed(dag)
    ensures Closed(g) && g == Induced(dag, g.nodes)
    ensures dag.nodes - toPrune <= g.nodes <= dag.nodes
    ensures missing.None? <==> toPrune <= dag.nodes
    ensures missing.Some? ==> missing.value in toPrune && missing.value !in dag.nodes
    ensures missing.None? ==> forall v :: v in toPrune && Preds(dag, v) == {} ==> v !in g.nodes
    ensures forall v :: v in toPrune && Sheltered(dag, toPrune, v) ==> v in g.nodes
  {
    var pset := toPrune;
    g := dag;
    assert g == Induced(dag, g.nodes);
    while pset != {}
      invariant Closed(g) && g == Induced(dag, g.nodes)
      invariant dag.nodes - toPrune <= g.nodes <= dag.nodes
      invariant pset <= toPrune
      invariant forall x :: x in pset && x in dag.nodes ==> x in g.nodes
      invariant forall x :: x in toPrune && x !in dag.nodes ==> x in pset
      invariant forall v :: v in toPrune && Preds(dag, v) == {} && v in g.nodes ==> v in pset
      invariant forall v :: v in toPrune && Sheltered(dag, toPrune, v) ==> v in g.nodes
      decreases pset
    {
      var node :| node in pset;
      pset := pset - {node};
      if node !in g.nodes {
        return g, Some(node);
      }
      var parents := Preds(g, node);
      assert parents <= Preds(dag, node);
      // a sheltered node is neither the node popped nor one of its predecessors
      // once the node is removed
      forall v | v in toPrune && Sheltered(dag, toPrune, v)
        ensures v == node ==> exists n :: n in parents && n !in pset
        ensures v != node ==> v !in parents
      {
        var u :| u in Preds(dag, v) && (u !in toPrune || u == v);
        assert (u, v) in dag.edges;
        assert v == node ==> u in parents && u !in pset;
        assert v in parents ==> node in Succs(dag, v);
      }
      if forall n :: n in parents ==> n in pset {
        var toRemove := {node} + parents;
        pset := pset - toRemove;
        g := RemoveNodes(g, toRemove);
        assert g == Induced(dag, g.nodes);
      }
    }
    missing := None;
  }

  // ---------------------------------------------------------------------------
  // Task records: _normalize, _assemble_task_dicts, filter_tree

  /** A task record: the value of its hash key (by default its name), and its
      list-valued fields. Two records with the same key are the same record to
      `filter_tree`. */
  datatype TaskDict = TaskDict(key: string, lists: map<string, seq<string>>)

  const FileDep: string := "file_dep"
  const Targets: string := "targets"

  /** `item_or_list(field)(d)`: the field, or an empty list when it is missing. */
  function ItemOrList(field: string, d: TaskDict): seq<string> {
    if field in d.lists then d.lists[field] else []
  }

  /** Storing a field and reading it back gives what was stored; other fields
      read as before; a missing field reads as the empty list. */
  lemma ItemOrListStored(d: TaskDict, field: string, v: seq<string>, other: string)
    ensures ItemOrList(field, d.(lists := d.lists[field := v])) == v
    ensures other != field ==> ItemOrList(other, d.(lists := d.lists[field := v])) == ItemOrList(other, d)
    ensures other !in d.lists ==> ItemOrList(other, d) == []
  {
  }

  /** Python 2 `map(f, xs)`. */
  function MapAll(f: string -> string, xs: seq<string>): (r: seq<string>)
    ensures |r| == |xs| && forall i :: 0 <= i < |xs| ==> r[i] == f(xs[i])
  {
    seq(|xs|, i requires 0 <= i < |xs| => f(xs[i]))
  }

  /** `_normalize(d)`: `file_dep` and `targets` become lists of absolute paths,
      missing ones empty lists; `abspath` stands for `os.path.abspath`. */
  function Normalize(d: TaskDict, abspath: string -> string): (r: TaskDict)
    ensures r.key == d.key
    ensures r.lists.Keys == d.lists.Keys + {FileDep, Targets}
    ensures forall f :: f in d.lists && f != FileDep && f != Targets ==> r.lists[f] == d.lists[f]
    ensures |ItemOrList(FileDep, r)| == |ItemOrList(FileDep, d)|
    ensures |ItemOrList(Targets, r)| == |ItemOrList(Targets, d)|
    ensures forall i :: 0 <= i < |ItemOrList(FileDep, d)| ==> ItemOrList(FileDep, r)[i] == abspath(ItemOrList(FileDep, d)[i])
    ensures forall i :: 0 <= i < |ItemOrList(Targets, d)| ==> ItemOrList(Targets, r)[i] == abspath(ItemOrList(Targets, d)[i])
    ensures forall x :: x in ItemOrList(FileDep, r) <==> exists y :: y in ItemOrList(FileDep, d) && x == abspath(y)
    ensures forall x :: x in ItemOrList(Targets, r) <==> exists y :: y in ItemOrList(Targets, d) && x == abspath(y)
  {
    var r := d.(lists := d.lists[FileDep := MapAll(abspath, ItemOrList(FileDep, d))]
                                [Targets := MapAll(abspath, ItemOrList(Targets, d))]);
    assert forall x :: x in ItemOrList(FileDep, r) <==> exists y :: y in ItemOrList(FileDep, d) && x == abspath(y) by {
      forall x | x in ItemOrList(FileDep, r) ensures exists y :: y in ItemOrList(FileDep, d) && x == abspath(y) {
        var i :| 0 <= i < |ItemOrList(FileDep, r)| && ItemOrList(FileDep, r)[i] == x;
        assert ItemOrList(FileDep, d)[i] in ItemOrList(FileDep, d);
      }
      forall x, y | y in ItemOrList(FileDep, d) && x == abspath(y) ensures x in ItemOrList(FileDep, r) {
        var i :| 0 <= i < |ItemOrList(FileDep, d)| && ItemOrList(FileDep, d)[i] == y;
        assert ItemOrList(FileDep, r)[i] == x;
      }
    }
    assert forall x :: x in ItemOrList(Targets, r) <==> exists y :: y in ItemOrList(Targets, d) && x == abspath(y) by {
      forall x | x in ItemOrList(Targets, r) ensures exists y :: y in ItemOrList(Targets, d) && x == abspath(y) {
        var i :| 0 <= i < |ItemOrList(Targets, r)| && ItemOrList(Targets, r)[i] == x;
        assert ItemOrList(Targets, d)[i] in ItemOrList(Targets, d);
      }
      forall x, y | y in ItemOrList(Targets, d) && x == abspath(y) ensures x in ItemOrList(Targets, r) {
        var i :| 0 <= i < |ItemOrList(Targets, d)| && ItemOrList(Targets, d)[i] == y;
        assert ItemOrList(Targets, r)[i] == x;
      }
    }
    r
  }

  /** Normalizing twice is normalizing once, since `abspath` of an absolute path is that path. */
  lemma NormalizeIdempotent(d: TaskDict, abspath: string -> string)
    requires forall x :: abspath(abspath(x)) == abspath(x)
    ensures Normalize(Normalize(d, abspath), abspath) == Normalize(d, abspath)
  {
    var once := Normalize(d, abspath);
    var twice := Normalize(once, abspath);
    assert MapAll(abspath, ItemOrList(FileDep, once)) == ItemOrList(FileDep, once);
    assert MapAll(abspath, ItemOrList(Targets, once)) == ItemOrList(Targets, once);
    assert twice.lists == once.lists;
  }

  function NormalizeAll(ts: seq<TaskDict>, abspath: string -> string): (r: seq<TaskDict>)
    ensures |r| == |ts| && forall i :: 0 <= i < |ts| ==> r[i] == Normalize(ts[i], abspath)
  {
    seq(|ts|, i requires 0 <= i < |ts| => Normalize(ts[i], abspath))
  }

  /** The record at `i` produces something the record at `c` depends on. */
  predicate Supplies(ds: seq<TaskDict>, i: nat, c: nat)
    requires i < |ds| && c < |ds|
  {
    exists x :: x in ItemOrList(Targets, ds[i]) && x in ItemOrList(FileDep, ds[c])
  }

  /** The edges `_assemble_task_dicts` adds, between the records' keys. */
  function TaskDictEdges(ds: seq<TaskDict>): set<(string, string)> {
    set i, c | 0 <= i < |ds| && 0 <= c < |ds| && Supplies(ds, i, c) :: (ds[i].key, ds[c].key)
  }

  /** The elements of a list, as a set. */
  function Elements(xs: seq<string>): (r: set<string>)
    ensures forall x :: x in r <==> x in xs
  {
    set x | x in xs
  }

  /** The edges added for the first `n` records. */
  function EdgesUpTo(ds: seq<TaskDict>, n: nat): set<(string, string)>
    requires n <= |ds|
  {
    set i, c | 0 <= i < n && 0 <= c < |ds| && Supplies(ds, i, c) :: (ds[i].key, ds[c].key)
  }

  /** Searching the `file_dep` index with a record's targets finds its consumers. */
  lemma DictChildren(ds: seq<TaskDict>, depLists: seq<seq<string>>, byDep: map<string, seq<nat>>, i: nat)
    requires i < |ds| && |depLists| == |ds|
    requires forall c :: 0 <= c < |ds| ==> depLists[c] == ItemOrList(FileDep, ds[c])
    requires forall k :: Get(byDep, k) == Hits(depLists, k)
    ensures forall c :: c in Search(Elements(ItemOrList(Targets, ds[i])), byDep) <==> 0 <= c < |ds| && Supplies(ds, i, c)
  {
    var using := Elements(ItemOrList(Targets, ds[i]));
    SearchIndex(using, depLists, byDep);
    forall c ensures c in Search(using, byDep) <==> 0 <= c < |ds| && Supplies(ds, i, c) {
      if 0 <= c < |ds| && Supplies(ds, i, c) {
        var x :| x in ItemOrList(Targets, ds[i]) && x in ItemOrList(FileDep, ds[c]);
        assert x in using && x in depLists[c];
      }
    }
  }

  lemma EdgesStep(ds: seq<TaskDict>, i: nat, children: set<nat>)
    requires i < |ds|
    requires forall c :: c in children <==> 0 <= c < |ds| && Supplies(ds, i, c)
    ensures EdgesUpTo(ds, i + 1) == EdgesUpTo(ds, i) + set c | c in children :: (ds[i].key, ds[c].key)
  {
  }

  /** `_assemble_task_dicts(ds)`: indexes the records by `file_dep` and adds an
      edge from every record to each record depending on one of its `targets`.
      A record that has no such edge is not in the graph. */
  method AssembleTaskDicts(ds: seq<TaskDict>) returns (dag: Graph<string>)
    requires forall i :: 0 <= i < |ds| ==> Targets in ds[i].lists
    ensures dag == FromEdges(TaskDictEdges(ds))
  {
    var depLists := seq(|ds|, i requires 0 <= i < |ds| => ItemOrList(FileDep, ds[i]));
    var byDep := IndexBy(depLists);
    var edges: set<(string, string)> := {};
    for i := 0 to |ds|
      invariant edges == EdgesUpTo(ds, i)
    {
      assert ItemOrList(Targets, ds[i]) == ds[i].lists[Targets];
      var children := Search(Elements(ds[i].lists[Targets]), byDep);
      DictChildren(ds, depLists, byDep, i);
      EdgesStep(ds, i, children);
      edges := edges + set c | c in children :: (ds[i].key, ds[c].key);
    }
    dag := FromEdges(edges);
  }

  /** `set(ds)` on records hashed and compared by key: the first record of each key. */
  function FirstByKey(ds: seq<TaskDict>): (m: map<string, TaskDict>)
    ensures forall k :: k in m <==> exists i :: 0 <= i < |ds| && ds[i].key == k
    ensures forall k :: k in m ==> m[k].key == k && exists i :: 0 <= i < |ds| && ds[i] == m[k] && forall j :: 0 <= j < i ==> ds[j].key != k
  {
    if ds == [] then map[]
    else
      var n := |ds| - 1;
      var m := FirstByKey(ds[..n]);
      FirstByKeyStep(ds, ds[..n], m);
      if ds[n].key in m then m else m[ds[n].key := ds[n]]
  }

  /** The step of `FirstByKey`: a record whose key is new is added, any other
      is ignored. */
  lemma FirstByKeyStep(ds: seq<TaskDict>, p: seq<TaskDict>, m: map<string, TaskDict>)
    requires ds != [] && p == ds[..|ds| - 1]
    requires forall k :: k in m <==> exists i :: 0 <= i < |p| && p[i].key == k
    requires forall k :: k in m ==> m[k].key == k && exists i :: 0 <= i < |p| && p[i] == m[k] && forall j :: 0 <= j < i ==> p[j].key != k
    ensures var d := ds[|ds| - 1]; var r := if d.key in m then m else m[d.key := d];
      && (forall k :: k in r <==> exists i :: 0 <= i < |ds| && ds[i].key == k)
      && (forall k :: k in r ==> r[k].key == k && exists i :: 0 <= i < |ds| && ds[i] == r[k] && forall j :: 0 <= j < i ==> ds[j].key != k)
  {
    var n := |ds| - 1;
    var d := ds[n];
    var r := if d.key in m then m else m[d.key := d];
    assert forall i :: 0 <= i < n ==> p[i] == ds[i];
    forall k | k in r
      ensures r[k].key == k && exists i :: 0 <= i < |ds| && ds[i] == r[k] && forall j :: 0 <= j < i ==> ds[j].key != k
    {
      if k in m {
        var i :| 0 <= i < |p| && p[i] == m[k] && forall j :: 0 <= j < i ==> p[j].key != k;
        assert ds[i] == r[k];
      } else {
        assert k == d.key && r[k] == d;
        forall j | 0 <= j < n ensures ds[j].key != k {
          assert p[j].key != k;
        }
      }
    }
  }

  /** Some filter accepts the record (`any(f(d) for f in filters)`). */
  predicate Matches(filters: seq<TaskDict -> bool>, d: TaskDict) {
    exists i :: 0 <= i < |filters| && filters[i](d)
  }

  /** The keys of the records yielded so far. */
  function KeysOf(ds: seq<TaskDict>): (r: set<string>)
    ensures forall k :: k in r <==> exists i :: 0 <= i < |ds| && ds[i].key == k
  {
    set d | d in ds :: d.key
  }

  /** What holds between two pops of `filter_tree`: `u` is the distinct records,
      `full` the graph of all records and `dag` what is left of it, `popped` the
      keys popped so far and `dropped` those taken out as successors. */
  ghost predicate FilterInv(u: map<string, TaskDict>, full: Graph<string>, filters: seq<TaskDict -> bool>, dag: Graph<string>,
                            pending: map<string, TaskDict>, popped: set<string>, dropped: set<string>, yielded: seq<TaskDict>)
  {
    && FilterShape(u, full, dag)
    && FilterParts(u, pending, popped, dropped)
    && FilterGone(u, full, filters, dag, popped, dropped)
    && FilterYielded(u, filters, popped, yielded)
    && FilterDropped(u, full, filters, popped, dropped)
    && FilterCleared(u, full, filters, pending, popped, yielded)
    && FilterOut(u, filters, dag, popped, dropped)
  }

  /** The graph left is the full graph on fewer nodes, all of them records. */
  ghost predicate FilterShape(u: map<string, TaskDict>, full: Graph<string>, dag: Graph<string>) {
    && Closed(full) && Closed(dag) && dag == Induced(full, dag.nodes) && dag.nodes <= full.nodes
    && full.nodes <= u.Keys && (forall k :: k in u ==> u[k].key == k)
  }

  /** Every record is pending, popped or dropped, and only one of them. */
  ghost predicate FilterParts(u: map<string, TaskDict>, pending: map<string, TaskDict>, popped: set<string>, dropped: set<string>) {
    && pending.Keys !! popped && pending.Keys !! dropped && popped !! dropped
    && pending.Keys + popped + dropped == u.Keys
    && (forall k :: k in pending ==> pending[k] == u[k])
  }

  /** A node has left the graph only as a successor, or as an accepted record. */
  ghost predicate FilterGone(u: map<string, TaskDict>, full: Graph<string>, filters: seq<TaskDict -> bool>, dag: Graph<string>,
                             popped: set<string>, dropped: set<string>)
  {
    forall k :: k in full.nodes && k !in dag.nodes ==> k in dropped || (k in popped && k in u && Matches(filters, u[k]))
  }

  /** The yielded records are distinct popped records no filter accepts, and
      every such popped record is among them. */
  ghost predicate FilterYielded(u: map<string, TaskDict>, filters: seq<TaskDict -> bool>, popped: set<string>, yielded: seq<TaskDict>) {
    && (forall i :: 0 <= i < |yielded| ==>
         yielded[i].key in popped && yielded[i].key in u && u[yielded[i].key] == yielded[i] && !Matches(filters, yielded[i]))
    && (forall i, j :: 0 <= i < j < |yielded| ==> yielded[i].key != yielded[j].key)
    && (forall k :: k in popped && k in u && !Matches(filters, u[k]) ==> k in KeysOf(yielded))
  }

  /** Each dropped record is a successor of a popped, accepted one. */
  ghost predicate FilterDropped(u: map<string, TaskDict>, full: Graph<string>, filters: seq<TaskDict -> bool>,
                                popped: set<string>, dropped: set<string>)
  {
    forall k :: k in dropped ==> exists m :: m in popped && m in u && Matches(filters, u[m]) && (m, k) in full.edges
  }

  /** The successors of a popped, accepted record are neither pending nor
      yielded, and it is not its own successor. */
  ghost predicate FilterCleared(u: map<string, TaskDict>, full: Graph<string>, filters: seq<TaskDict -> bool>,
                                pending: map<string, TaskDict>, popped: set<string>, yielded: seq<TaskDict>)
  {
    && (forall m, k :: m in popped && m in u && Matches(filters, u[m]) && (m, k) in full.edges ==> k !in pending && k !in KeysOf(yielded))
    && (forall m :: m in popped && m in u && Matches(filters, u[m]) ==> (m, m) !in full.edges)
  }

  /** The graph keeps no dropped record and no popped, accepted one. */
  ghost predicate FilterOut(u: map<string, TaskDict>, filters: seq<TaskDict -> bool>, dag: Graph<string>,
                            popped: set<string>, dropped: set<string>)
  {
    && dag.nodes !! dropped
    && (forall k :: k in dag.nodes && k in popped && k in u ==> !Matches(filters, u[k]))
  }

  lemma FilterStart(u: map<string, TaskDict>, full: Graph<string>, filters: seq<TaskDict -> bool>)
    requires Closed(full) && full.nodes <= u.Keys && forall k :: k in u ==> u[k].key == k
    ensures FilterInv(u, full, filters, full, u, {}, {}, [])
  {
    assert full == Induced(full, full.nodes);
  }

  /** A record no filter accepts is yielded. */
  lemma FilterYield(u: map<string, TaskDict>, full: Graph<string>, filters: seq<TaskDict -> bool>, dag: Graph<string>,
                    pending: map<string, TaskDict>, popped: set<string>, dropped: set<string>, yielded: seq<TaskDict>, k: string)
    requires FilterInv(u, full, filters, dag, pending, popped, dropped, yielded)
    requires k in pending && !Matches(filters, pending[k])
    ensures FilterInv(u, full, filters, dag, pending - {k}, popped + {k}, dropped, yielded + [pending[k]])
  {
    YieldParts(u, pending, popped, dropped, k);
    YieldYielded(u, filters, pending, popped, dropped, yielded, k);
    YieldCleared(u, full, filters, pending, popped, yielded, k);
    assert FilterOut(u, filters, dag, popped + {k}, dropped);
  }

  lemma YieldParts(u: map<string, TaskDict>, pending: map<string, TaskDict>, popped: set<string>, dropped: set<string>, k: string)
    requires FilterParts(u, pending, popped, dropped) && k in pending
    ensures FilterParts(u, pending - {k}, popped + {k}, dropped)
  {
  }

  lemma YieldYielded(u: map<string, TaskDict>, filters: seq<TaskDict -> bool>, pending: map<string, TaskDict>,
                     popped: set<string>, dropped: set<string>, yielded: seq<TaskDict>, k: string)
    requires FilterYielded(u, filters, popped, yielded) && FilterParts(u, pending, popped, dropped)
    requires forall x :: x in u ==> u[x].key == x
    requires k in pending && !Matches(filters, pending[k])
    ensures FilterYielded(u, filters, popped + {k}, yielded + [pending[k]])
  {
    var y := yielded + [pending[k]];
    assert KeysOf(y) == KeysOf(yielded) + {k};
    forall i, j | 0 <= i < j < |y| ensures y[i].key != y[j].key {
      if j == |yielded| {
        assert y[i].key in popped;
      }
    }
  }

  lemma YieldCleared(u: map<string, TaskDict>, full: Graph<string>, filters: seq<TaskDict -> bool>,
                     pending: map<string, TaskDict>, popped: set<string>, yielded: seq<TaskDict>, k: string)
    requires FilterCleared(u, full, filters, pending, popped, yielded)
    requires forall x :: x in u ==> u[x].key == x
    requires k in pending && k in u && pending[k] == u[k] && !Matches(filters, pending[k])
    ensures FilterCleared(u, full, filters, pending - {k}, popped + {k}, yielded + [pending[k]])
  {
    assert KeysOf(yielded + [pending[k]]) == KeysOf(yielded) + {k};
  }

  /** An accepted record outside the graph is just dropped. */
  lemma FilterSkip(u: map<string, TaskDict>, full: Graph<string>, filters: seq<TaskDict -> bool>, dag: Graph<string>,
                   pending: map<string, TaskDict>, popped: set<string>, dropped: set<string>, yielded: seq<TaskDict>, k: string)
    requires FilterInv(u, full, filters, dag, pending, popped, dropped, yielded)
    requires k in pending && Matches(filters, pending[k]) && k !in dag.nodes
    ensures FilterInv(u, full, filters, dag, pending - {k}, popped + {k}, dropped, yielded)
  {
    YieldParts(u, pending, popped, dropped, k);
    SkipYielded(u, filters, pending, popped, dropped, yielded, k);
    SkipCleared(u, full, filters, dag, pending, popped, dropped, yielded, k);
    assert FilterOut(u, filters, dag, popped + {k}, dropped);
  }

  lemma SkipYielded(u: map<string, TaskDict>, filters: seq<TaskDict -> bool>, pending: map<string, TaskDict>,
                    popped: set<string>, dropped: set<string>, yielded: seq<TaskDict>, k: string)
    requires FilterYielded(u, filters, popped, yielded) && FilterParts(u, pending, popped, dropped)
    requires k in pending && Matches(filters, pending[k])
    ensures FilterYielded(u, filters, popped + {k}, yielded)
  {
  }

  lemma SkipCleared(u: map<string, TaskDict>, full: Graph<string>, filters: seq<TaskDict -> bool>, dag: Graph<string>,
                    pending: map<string, TaskDict>, popped: set<string>, dropped: set<string>, yielded: seq<TaskDict>, k: string)
    requires FilterCleared(u, full, filters, pending, popped, yielded) && FilterShape(u, full, dag)
    requires FilterGone(u, full, filters, dag, popped, dropped) && FilterParts(u, pending, popped, dropped)
    requires k in pending && k !in dag.nodes
    ensures FilterCleared(u, full, filters, pending - {k}, popped + {k}, yielded)
  {
    assert k !in full.nodes;
    forall m, c | (m == k || m in popped) && m in u && Matches(filters, u[m]) && (m, c) in full.edges
      ensures c !in pending - {k} && c !in KeysOf(yielded)
    {
      assert m != k;
    }
  }

  /** An accepted record in the graph takes its successors out with it, when they
      are all still pending. */
  lemma FilterDrop(u: map<string, TaskDict>, full: Graph<string>, filters: seq<TaskDict -> bool>, dag: Graph<string>,
                   pending: map<string, TaskDict>, popped: set<string>, dropped: set<string>, yielded: seq<TaskDict>, k: string)
    requires FilterInv(u, full, filters, dag, pending, popped, dropped, yielded)
    requires k in pending && Matches(filters, pending[k]) && k in dag.nodes
    requires Succs(dag, k) <= (pending - {k}).Keys
    ensures FilterInv(u, full, filters, RemoveNodes(dag, {k} + Succs(dag, k)), pending - {k} - Succs(dag, k),
                      popped + {k}, dropped + Succs(dag, k), yielded)
  {
    var succ := Succs(dag, k);
    DropShape(u, full, dag, k);
    DropParts(u, pending, popped, dropped, k, succ);
    DropGone(u, full, filters, dag, pending, popped, dropped, k);
    SkipYielded(u, filters, pending, popped, dropped, yielded, k);
    DropDropped(u, full, filters, dag, pending, popped, dropped, k);
    DropCleared(u, full, filters, dag, pending, popped, dropped, yielded, k);
    DropOut(u, filters, dag, popped, dropped, k);
  }

  lemma DropOut(u: map<string, TaskDict>, filters: seq<TaskDict -> bool>, dag: Graph<string>,
                popped: set<string>, dropped: set<string>, k: string)
    requires FilterOut(u, filters, dag, popped, dropped)
    ensures FilterOut(u, filters, RemoveNodes(dag, {k} + Succs(dag, k)), popped + {k}, dropped + Succs(dag, k))
  {
  }

  lemma DropShape(u: map<string, TaskDict>, full: Graph<string>, dag: Graph<string>, k: string)
    requires FilterShape(u, full, dag)
    ensures FilterShape(u, full, RemoveNodes(dag, {k} + Succs(dag, k)))
  {
    var dag' := RemoveNodes(dag, {k} + Succs(dag, k));
    assert dag' == Induced(full, dag'.nodes);
  }

  lemma DropParts(u: map<string, TaskDict>, pending: map<string, TaskDict>, popped: set<string>, dropped: set<string>,
                  k: string, succ: set<string>)
    requires FilterParts(u, pending, popped, dropped) && k in pending && succ <= (pending - {k}).Keys
    ensures FilterParts(u, pending - {k} - succ, popped + {k}, dropped + succ)
  {
  }

  lemma DropGone(u: map<string, TaskDict>, full: Graph<string>, filters: seq<TaskDict -> bool>, dag: Graph<string>,
                 pending: map<string, TaskDict>, popped: set<string>, dropped: set<string>, k: string)
    requires FilterGone(u, full, filters, dag, popped, dropped) && FilterParts(u, pending, popped, dropped)
    requires k in pending && Matches(filters, pending[k])
    ensures FilterGone(u, full, filters, RemoveNodes(dag, {k} + Succs(dag, k)), popped + {k}, dropped + Succs(dag, k))
  {
  }

  lemma DropDropped(u: map<string, TaskDict>, full: Graph<string>, filters: seq<TaskDict -> bool>, dag: Graph<string>,
                    pending: map<string, TaskDict>, popped: set<string>, dropped: set<string>, k: string)
    requires FilterDropped(u, full, filters, popped, dropped) && FilterShape(u, full, dag) && FilterParts(u, pending, popped, dropped)
    requires k in pending && Matches(filters, pending[k])
    ensures FilterDropped(u, full, filters, popped + {k}, dropped + Succs(dag, k))
  {
    forall c | c in Succs(dag, k) ensures exists m :: m in popped + {k} && m in u && Matches(filters, u[m]) && (m, c) in full.edges {
      assert (k, c) in dag.edges;
      assert (k, c) in full.edges;
    }
  }

  lemma DropCleared(u: map<string, TaskDict>, full: Graph<string>, filters: seq<TaskDict -> bool>, dag: Graph<string>,
                    pending: map<string, TaskDict>, popped: set<string>, dropped: set<string>, yielded: seq<TaskDict>, k: string)
    requires FilterCleared(u, full, filters, pending, popped, yielded) && FilterShape(u, full, dag)
    requires FilterGone(u, full, filters, dag, popped, dropped) && FilterParts(u, pending, popped, dropped)
    requires FilterYielded(u, filters, popped, yielded)
    requires k in pending && Matches(filters, pending[k]) && k in dag.nodes
    requires Succs(dag, k) <= (pending - {k}).Keys
    ensures FilterCleared(u, full, filters, pending - {k} - Succs(dag, k), popped + {k}, yielded)
  {
    var succ := Succs(dag, k);
    assert (k, k) in full.edges ==> k in succ;
    forall c | (k, c) in full.edges ensures c !in pending - {k} - succ && c !in KeysOf(yielded) {
      if c in dag.nodes {
        assert (k, c) in dag.edges;
        assert c in succ;
      } else {
        assert c in full.nodes;
      }
    }
  }

  /** A successor that is no longer pending: the step raises KeyError. */
  lemma FilterRaise(u: map<string, TaskDict>, full: Graph<string>, filters: seq<TaskDict -> bool>, dag: Graph<string>,
                    pending: map<string, TaskDict>, popped: set<string>, dropped: set<string>, yielded: seq<TaskDict>, k: string)
    requires FilterInv(u, full, filters, dag, pending, popped, dropped, yielded)
    requires k in pending && Matches(filters, pending[k]) && k in dag.nodes
    requires !(Succs(dag, k) <= (pending - {k}).Keys)
    ensures exists m, c :: m in u && Matches(filters, u[m]) && m !in dropped && (m, c) in full.edges &&
                           (c == m || c in KeysOf(yielded))
  {
    var c :| c in Succs(dag, k) && c !in (pending - {k}).Keys;
    assert (k, c) in dag.edges;
    assert c in dag.nodes && c in u;
    if c != k {
      assert c in popped;
      assert !Matches(filters, u[c]);
      assert c in KeysOf(yielded);
    }
  }

  /** When nothing is pending any more, every distinct record left is accounted for. */
  lemma FilterEnd(u: map<string, TaskDict>, full: Graph<string>, filters: seq<TaskDict -> bool>, dag: Graph<string>,
                  popped: set<string>, dropped: set<string>, yielded: seq<TaskDict>)
    requires FilterInv(u, full, filters, dag, map[], popped, dropped, yielded)
    ensures forall k :: k in u && !Matches(filters, u[k]) && k !in dropped ==> k in KeysOf(yielded)
    ensures forall m, k :: m in u && Matches(filters, u[m]) && m !in dropped && (m, k) in full.edges ==> k !in KeysOf(yielded)
    ensures forall m :: m in u && Matches(filters, u[m]) && (m, m) in full.edges ==> m in dropped
  {
  }

  /** The graph of the records names only their keys. */
  lemma TaskDictNodes(ds: seq<TaskDict>)
    ensures FromEdges(TaskDictEdges(ds)).nodes <= FirstByKey(ds).Keys
  {
    forall e | e in TaskDictEdges(ds) ensures e.0 in FirstByKey(ds) && e.1 in FirstByKey(ds) {
      var i, c :| 0 <= i < |ds| && 0 <= c < |ds| && Supplies(ds, i, c) && e == (ds[i].key, ds[c].key);
    }
  }

  /** `filter_tree(task_dicts, filters)`: normalizes the records and builds their
      graph, then pops the distinct records in an arbitrary order. A record some
      filter accepts is dropped, and when it is in the graph its direct successors
      leave the graph and the pending set with it; a successor no longer pending
      raises KeyError, which ends the generator. Any other record is yielded.
      `dropped` is the keys taken out as successors. */
  method FilterTree(taskDicts: seq<TaskDict>, filters: seq<TaskDict -> bool>, abspath: string -> string)
    returns (yielded: seq<TaskDict>, keyError: bool, ghost dropped: set<string>)
    ensures var u := FirstByKey(NormalizeAll(taskDicts, abspath));
      forall i :: 0 <= i < |yielded| ==> yielded[i].key in u && u[yielded[i].key] == yielded[i] && !Matches(filters, yielded[i])
    ensures forall i, j :: 0 <= i < j < |yielded| ==> yielded[i].key != yielded[j].key
    ensures var ds := NormalizeAll(taskDicts, abspath); var u := FirstByKey(ds);
      forall k :: k in dropped ==> k in u && exists m :: m in u && Matches(filters, u[m]) && (m, k) in TaskDictEdges(ds)
    ensures dropped !! KeysOf(yielded)
    ensures var u := FirstByKey(NormalizeAll(taskDicts, abspath));
      !keyError ==> forall k :: k in u && !Matches(filters, u[k]) && k !in dropped ==> k in KeysOf(yielded)
    ensures var ds := NormalizeAll(taskDicts, abspath); var u := FirstByKey(ds);
      !keyError ==> forall m, k :: m in u && Matches(filters, u[m]) && m !in dropped && (m, k) in TaskDictEdges(ds) ==> k !in KeysOf(yielded)
    ensures var ds := NormalizeAll(taskDicts, abspath); var u := FirstByKey(ds);
      !keyError ==> forall m :: m in u && Matches(filters, u[m]) && (m, m) in TaskDictEdges(ds) ==> m in dropped
    ensures var ds := NormalizeAll(taskDicts, abspath); var u := FirstByKey(ds);
      keyError ==> exists m, k :: m in u && Matches(filters, u[m]) && m !in dropped && (m, k) in TaskDictEdges(ds) &&
                                  (k == m || k in KeysOf(yielded))
  {
    var ds := NormalizeAll(taskDicts, abspath);
    var dag := AssembleTaskDicts(ds);
    ghost var full := dag;
    var u := FirstByKey(ds);
    TaskDictNodes(ds);
    FilterStart(u, full, filters);
    var pending := u;
    ghost var popped: set<string> := {};
    yielded, keyError, dropped := [], false, {};
    while pending != map[]
      invariant FilterInv(u, full, filters, dag, pending, popped, dropped, yielded)
      decreases |pending|
    {
      var k :| k in pending;
      var d := pending[k];
      if Matches(filters, d) {
        if k in dag.nodes {
          var successors := Succs(dag, k);
          if !(successors <= (pending - {k}).Keys) {
            FilterRaise(u, full, filters, dag, pending, popped, dropped, yielded, k);
            keyError := true;
            return;
          }
          FilterDrop(u, full, filters, dag, pending, popped, dropped, yielded, k);
          dag := RemoveNodes(dag, {k} + successors);
          pending := pending - {k} - successors;
          dropped := dropped + successors;
        } else {
          FilterSkip(u, full, filters, dag, pending, popped, dropped, yielded, k);
          pending := pending - {k};
        }
      } else {
        FilterYield(u, full, filters, dag, pending, popped, dropped, yielded, k);
        pending := pending - {k};
        yielded := yielded + [d];
      }
      popped := popped + {k};
    }
    FilterEnd(u, full, filters, dag, popped, dropped, yielded);
  }
}
