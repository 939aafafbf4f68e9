/** The foreign-key graph of src/tools/model_graph.py: which tables lie on a cycle of
    foreign keys, found by a depth-first search over simple paths. */
module FkGraph {
  import opened Paths
  import opened Orders

  /** A catalog row; the fields are the texts that the row's values format to. */
  datatype FkRow = FkRow(parentSchema: string, parentTable: string,
                         referencedSchema: string, referencedTable: string, fkName: string)

  datatype FkEdge = FkEdge(from: string, to: string, fkName: string)

  datatype Graph = Graph(nodeCount: nat, edgeCount: nat, circularDependencyTables: seq<string>, edges: seq<FkEdge>)

  function Parent(row: FkRow): string {
    row.parentSchema + "." + row.parentTable
  }

  function Referenced(row: FkRow): string {
    row.referencedSchema + "." + row.referencedTable
  }

  ghost function EdgesOf(rows: seq<FkRow>): set<(string, string)> {
    set row | row in rows :: (Parent(row), Referenced(row))
  }

  function Successors(adjacency: map<string, set<string>>, node: string): set<string> {
    if node in adjacency then adjacency[node] else {}
  }

  ghost predicate Represents(adjacency: map<string, set<string>>, edges: set<(string, string)>) {
    forall a, b :: b in Successors(adjacency, a) <==> (a, b) in edges
  }

  /** A path from `current` back to `start` whose inner nodes all avoid `seen`. */
  ghost predicate ClosingPath(edges: set<(string, string)>, p: seq<string>, start: string, current: string,
                              seen: set<string>)
  {
    && |p| >= 2 && IsPathFromTo(edges, p, current, start)
    && forall i :: 0 < i < |p| - 1 ==> p[i] !in seen
  }

  ghost predicate Closes(edges: set<(string, string)>, start: string, current: string, seen: set<string>) {
    exists p :: ClosingPath(edges, p, start, current, seen)
  }

  /** What the search finds by stepping to `next`. */
  ghost predicate ClosesVia(edges: set<(string, string)>, start: string, next: string, seen: set<string>) {
    next == start || (next !in seen && Closes(edges, start, next, seen + {next}))
  }

  /** A closing path can be cut so that it does not come back to where it starts. */
  lemma {:induction false} CutReturns(edges: set<(string, string)>, p: seq<string>, start: string, current: string,
                                      seen: set<string>)
    requires ClosingPath(edges, p, start, current, seen)
    ensures Closes(edges, start, current, seen + {current})
    decreases |p|
  {
    if j :| 0 < j < |p| - 1 && p[j] == current {
      SubPath(edges, p, j, |p|);
      assert forall i :: 0 < i < |p[j..]| - 1 ==> p[j..][i] == p[i + j];
      CutReturns(edges, p[j..], start, current, seen);
    } else {
      assert ClosingPath(edges, p, start, current, seen + {current});
    }
  }

  lemma ClosesByStep(edges: set<(string, string)>, start: string, current: string, seen: set<string>)
    ensures Closes(edges, start, current, seen) <==>
            exists next :: (current, next) in edges && ClosesVia(edges, start, next, seen)
  {
    if Closes(edges, start, current, seen) {
      var p :| ClosingPath(edges, p, start, current, seen);
      assert (p[0], p[1]) in edges;
      if |p| > 2 {
        SubPath(edges, p, 1, |p|);
        assert forall i :: 0 < i < |p[1..]| - 1 ==> p[1..][i] == p[i + 1];
        CutReturns(edges, p[1..], start, p[1], seen);
      }
      assert ClosesVia(edges, start, p[1], seen);
    }
    if next :| (current, next) in edges && ClosesVia(edges, start, next, seen) {
      if next == start {
        assert ClosingPath(edges, [current, next], start, current, seen);
      } else {
        var q :| ClosingPath(edges, q, start, next, seen + {next});
        JoinPaths(edges, [current, next], q);
        assert [current, next] + q[1..] == [current] + q;
        assert forall i :: 0 < i < |[current] + q| - 1 ==> ([current] + q)[i] == q[i - 1];
        assert ClosingPath(edges, [current] + q, start, current, seen);
      }
    }
  }

  lemma ClosesIffReaches(edges: set<(string, string)>, node: string)
    ensures Closes(edges, node, node, {node}) <==> Reaches(edges, node, node)
  {
    if Reaches(edges, node, node) {
      var p :| |p| >= 2 && IsPathFromTo(edges, p, node, node);
      assert ClosingPath(edges, p, node, node, {});
      CutReturns(edges, p, node, node, {});
      assert {} + {node} == {node};
    }
  }

  /** The search with its shared set of hits. */
  class CycleSearch {
    const adjacency: map<string, set<string>>
    var cycleHits: set<string>

    constructor (adjacency: map<string, set<string>>)
      ensures this.adjacency == adjacency && cycleHits == {}
    {
      this.adjacency := adjacency;
      cycleHits := {};
    }

    method Dfs(start: string, current: string, seen: set<string>, ghost edges: set<(string, string)>)
      requires Represents(adjacency, edges)
      modifies this
      ensures cycleHits == old(cycleHits) + if Closes(edges, start, current, seen) then {start} else {}
      decreases Nodes(edges) - seen
    {
      ClosesByStep(edges, start, current, seen);
      var todo := Successors(adjacency, current);
      ghost var done: set<string> := {};
      while todo != {}
        invariant todo + done == Successors(adjacency, current)
        invariant cycleHits == old(cycleHits)
          + if exists next :: next in done && ClosesVia(edges, start, next, seen) then {start} else {}
        decreases todo
      {
        var next :| next in todo;
        todo, done := todo - {next}, done + {next};
        assert (current, next) in edges;
        if next == start {
          cycleHits := cycleHits + {start};
        }
        if next !in seen {
          Dfs(start, next, seen + {next}, edges);
        }
      }
    }
  }

  ghost predicate ListsEdges(rows: seq<FkRow>, edges: seq<FkEdge>) {
    edges == seq(|rows|, i requires 0 <= i < |rows| => FkEdge(Parent(rows[i]), Referenced(rows[i]), rows[i].fkName))
  }

  method CollectEdges(rows: seq<FkRow>) returns (nodes: set<string>, edges: seq<FkEdge>)
    ensures ListsEdges(rows, edges) && nodes == Nodes(EdgesOf(rows))
  {
    edges, nodes := [], {};
    for n := 0 to |rows|
      invariant |edges| == n
      invariant forall i :: 0 <= i < n ==> edges[i] == FkEdge(Parent(rows[i]), Referenced(rows[i]), rows[i].fkName)
      invariant forall v :: v in nodes <==> exists i :: 0 <= i < n && (v == edges[i].from || v == edges[i].to)
    {
      var parent, referenced := Parent(rows[n]), Referenced(rows[n]);
      nodes := nodes + {parent} + {referenced};
      edges := edges + [FkEdge(parent, referenced, rows[n].fkName)];
    }
    NodesListed(rows, edges, nodes);
  }

  ghost function Pairs(edges: seq<FkEdge>): set<(string, string)> {
    set e | e in edges :: (e.from, e.to)
  }

  method BuildAdjacency(edges: seq<FkEdge>) returns (adjacency: map<string, set<string>>)
    ensures Represents(adjacency, Pairs(edges))
  {
    adjacency := map[];
    for k := 0 to |edges|
      invariant Represents(adjacency, Pairs(edges[..k]))
    {
      var edge := edges[k];
      assert edges[..k + 1] == edges[..k] + [edge];
      assert Pairs(edges[..k + 1]) == Pairs(edges[..k]) + {(edge.from, edge.to)};
      adjacency := adjacency[edge.from := Successors(adjacency, edge.from) + {edge.to}];
    }
    assert edges[..|edges|] == edges;
  }

  method FindCycles(nodes: set<string>, adjacency: map<string, set<string>>, ghost relation: set<(string, string)>)
    returns (hits: set<string>)
    requires nodes == Nodes(relation) && Represents(adjacency, relation)
    ensures forall t :: t in hits <==> Reaches(relation, t, t)
  {
    var search := new CycleSearch(adjacency);
    var todo := nodes;
    while todo != {}
      invariant todo <= nodes
      invariant forall t :: t in search.cycleHits <==> t in nodes - todo && Reaches(relation, t, t)
      decreases todo
    {
      var node :| node in todo;
      todo := todo - {node};
      ClosesIffReaches(relation, node);
      search.Dfs(node, node, {node}, relation);
    }
    forall t | Reaches(relation, t, t) ensures t in nodes {
      ReachesNodes(relation, t, t);
    }
    hits := search.cycleHits;
  }

  method BuildFkGraph(rows: seq<FkRow>) returns (g: Graph)
    ensures g.nodeCount == |Nodes(EdgesOf(rows))| && g.edgeCount == |rows|
    ensures ListsEdges(rows, g.edges)
    ensures IsCircularList(rows, g.circularDependencyTables)
  {
    ghost var relation := EdgesOf(rows);
    var nodes, edges := CollectEdges(rows);
    var adjacency := BuildAdjacency(edges);
    PairsOfRows(rows, edges);
    var hits := FindCycles(nodes, adjacency, relation);
    OrdersAreTotal();
    var circular := Sorted(hits, StringLess);
    g := Graph(|nodes|, |edges|, circular, edges);
  }

  lemma NodesListed(rows: seq<FkRow>, edges: seq<FkEdge>, nodes: set<string>)
    requires ListsEdges(rows, edges)
    requires forall v :: v in nodes <==> exists i :: 0 <= i < |edges| && (v == edges[i].from || v == edges[i].to)
    ensures nodes == Nodes(EdgesOf(rows))
  {
    forall v ensures v in nodes <==> v in Nodes(EdgesOf(rows)) {
      if v in nodes {
        var i :| 0 <= i < |edges| && (v == edges[i].from || v == edges[i].to);
        assert rows[i] in rows;
        assert (Parent(rows[i]), Referenced(rows[i])) in EdgesOf(rows);
      }
      if v in Nodes(EdgesOf(rows)) {
        var e :| e in EdgesOf(rows) && (v == e.0 || v == e.1);
        var row :| row in rows && e == (Parent(row), Referenced(row));
        var i :| 0 <= i < |rows| && rows[i] == row;
        assert v == edges[i].from || v == edges[i].to;
      }
    }
  }

  lemma PairsOfRows(rows: seq<FkRow>, edges: seq<FkEdge>)
    requires ListsEdges(rows, edges)
    ensures Pairs(edges) == EdgesOf(rows)
  {
    forall i | 0 <= i < |rows| ensures (edges[i].from, edges[i].to) in EdgesOf(rows)
      ensures (Parent(rows[i]), Referenced(rows[i])) in Pairs(edges)
    {
      assert rows[i] in rows && edges[i] in edges;
    }
  }

  /** What `circular_dependency_tables` of some rows is: the ascending list of the tables
      that reach themselves. */
  ghost predicate IsCircularList(rows: seq<FkRow>, tables: seq<string>) {
    Ascending(tables, StringLess) && forall t :: t in tables <==> Reaches(EdgesOf(rows), t, t)
  }

  /** The answer depends neither on the order of the rows nor on duplicates, nor on the
      names of the constraints. */
  lemma CircularListIgnoresRowOrder(rows: seq<FkRow>, others: seq<FkRow>, tables: seq<string>, otherTables: seq<string>)
    requires forall e :: e in EdgesOf(rows) <==> e in EdgesOf(others)
    requires IsCircularList(rows, tables) && IsCircularList(others, otherTables)
    ensures tables == otherTables
  {
    assert EdgesOf(rows) == EdgesOf(others);
    OrdersAreTotal();
    SortedIsUnique(tables, otherTables, StringLess);
  }

  /** No table is reported exactly when the tables can be ranked so that every foreign key
      leads to a strictly lower rank. */
  lemma NoneCircularIffRanked(rows: seq<FkRow>, tables: seq<string>)
    requires IsCircularList(rows, tables)
    ensures tables == [] <==> exists rank :: Ranks(EdgesOf(rows), rank)
  {
    AcyclicIffRanked(EdgesOf(rows));
    if tables != [] {
      assert tables[0] in tables;
    }
  }

  /** A reported table lies on a cycle all of whose tables are reported. */
  lemma ReportedCycle(rows: seq<FkRow>, tables: seq<string>, t: string) returns (cycle: seq<string>)
    requires IsCircularList(rows, tables) && t in tables
    ensures |cycle| >= 2 && IsPathFromTo(EdgesOf(rows), cycle, t, t)
    ensures forall i :: 0 <= i < |cycle| ==> cycle[i] in tables
  {
    cycle :| |cycle| >= 2 && IsPathFromTo(EdgesOf(rows), cycle, t, t);
    forall i | 0 <= i < |cycle| ensures cycle[i] in tables {
      CycleMembers(EdgesOf(rows), cycle, i);
    }
  }

  // ------------------------------------------------------------ names and tables

  type Table = (string, string)  // schema and table name

  function NodeName(t: Table): string {
    t.0 + "." + t.1
  }

  ghost function TableEdges(rows: seq<FkRow>): set<(Table, Table)> {
    set row | row in rows :: ((row.parentSchema, row.parentTable), (row.referencedSchema, row.referencedTable))
  }

  /** No two of the tables share a node name. */
  ghost predicate NamesApart(tables: set<Table>) {
    forall t, u :: t in tables && u in tables && NodeName(t) == NodeName(u) ==> t == u
  }

  lemma {:induction false} PathOfNames(rows: seq<FkRow>, p: seq<Table>) returns (q: seq<string>)
    requires IsPath(TableEdges(rows), p)
    ensures |q| == |p| && IsPathFromTo(EdgesOf(rows), q, NodeName(p[0]), NodeName(p[|p| - 1]))
  {
    q := seq(|p|, i requires 0 <= i < |p| => NodeName(p[i]));
    forall i | 0 < i < |q| ensures (q[i - 1], q[i]) in EdgesOf(rows) {
      assert (p[i - 1], p[i]) in TableEdges(rows);
      var row :| row in rows &&
        (p[i - 1], p[i]) == ((row.parentSchema, row.parentTable), (row.referencedSchema, row.referencedTable));
      assert q[i - 1] == Parent(row) && q[i] == Referenced(row);
    }
  }

  /** Some row behind an edge between nodes. */
  lemma RowOfEdge(rows: seq<FkRow>, a: string, b: string) returns (t: Table, u: Table)
    requires (a, b) in EdgesOf(rows)
    ensures (t, u) in TableEdges(rows) && NodeName(t) == a && NodeName(u) == b
  {
    var row :| row in rows && (a, b) == (Parent(row), Referenced(row));
    t, u := (row.parentSchema, row.parentTable), (row.referencedSchema, row.referencedTable);
  }

  lemma PathEndsInNodes(edges: set<(Table, Table)>, p: seq<Table>)
    requires IsPath(edges, p) && |p| >= 2
    ensures p[0] in Nodes(edges) && p[|p| - 1] in Nodes(edges)
  {
    assert (p[0], p[1]) in edges && (p[|p| - 2], p[|p| - 1]) in edges;
  }

  /** The tables p stand behind the nodes q, at both ends. */
  ghost predicate StandsFor(rows: seq<FkRow>, p: seq<Table>, q: seq<string>) {
    && |p| == |q| >= 2 && IsPath(TableEdges(rows), p)
    && NodeName(p[0]) == q[0] && NodeName(p[|p| - 1]) == q[|q| - 1]
  }

  lemma {:induction false} PathOfTables(rows: seq<FkRow>, q: seq<string>) returns (p: seq<Table>)
    requires NamesApart(Nodes(TableEdges(rows))) && IsPath(EdgesOf(rows), q) && |q| >= 2
    ensures StandsFor(rows, p, q)
    decreases |q|
  {
    var last := |q| - 1;
    assert (q[last - 1], q[last]) in EdgesOf(rows);
    if |q| == 2 {
      var t, u := RowOfEdge(rows, q[0], q[1]);
      p := [t, u];
    } else {
      SubPath(EdgesOf(rows), q, 0, last);
      var front := PathOfTables(rows, q[..last]);
      p := OneTableMore(rows, front, q[..last], q[last]);
      assert q == q[..last] + [q[last]];
    }
  }

  lemma OneTableMore(rows: seq<FkRow>, front: seq<Table>, q: seq<string>, node: string) returns (p: seq<Table>)
    requires NamesApart(Nodes(TableEdges(rows))) && StandsFor(rows, front, q)
    requires (q[|q| - 1], node) in EdgesOf(rows)
    ensures StandsFor(rows, p, q + [node])
  {
    var t, u := RowOfEdge(rows, q[|q| - 1], node);
    SameTable(rows, front, t, u);
    ExtendPath(TableEdges(rows), front, u);
    p := front + [u];
  }

  /** A path of tables that ends at the node from which a key leads on ends at its table. */
  lemma SameTable(rows: seq<FkRow>, front: seq<Table>, t: Table, u: Table)
    requires NamesApart(Nodes(TableEdges(rows))) && IsPath(TableEdges(rows), front) && |front| >= 2
    requires (t, u) in TableEdges(rows) && NodeName(front[|front| - 1]) == NodeName(t)
    ensures front[|front| - 1] == t
  {
    PathEndsInNodes(TableEdges(rows), front);
  }

  /** The report is exact for these rows: a table's node is reported exactly when the table
      lies on a cycle of foreign keys. */
  ghost predicate ReportIsExact(rows: seq<FkRow>, reported: seq<string>) {
    forall t :: t in Nodes(TableEdges(rows)) ==> (NodeName(t) in reported <==> Reaches(TableEdges(rows), t, t))
  }

  /** A cycle of foreign keys between tables is always reported. */
  lemma CyclesAreReported(rows: seq<FkRow>, reported: seq<string>, t: Table)
    requires IsCircularList(rows, reported) && Reaches(TableEdges(rows), t, t)
    ensures NodeName(t) in reported
  {
    var p :| |p| >= 2 && IsPathFromTo(TableEdges(rows), p, t, t);
    var q := PathOfNames(rows, p);
  }

  lemma ReportsMeanCycles(rows: seq<FkRow>, reported: seq<string>, t: Table)
    requires IsCircularList(rows, reported) && NamesApart(Nodes(TableEdges(rows)))
    requires t in Nodes(TableEdges(rows)) && NodeName(t) in reported
    ensures Reaches(TableEdges(rows), t, t)
  {
    var q :| |q| >= 2 && IsPathFromTo(EdgesOf(rows), q, NodeName(t), NodeName(t));
    var p := PathOfTables(rows, q);
    PathEndsInNodes(TableEdges(rows), p);
    assert IsPathFromTo(TableEdges(rows), p, t, t);
  }

  ghost predicate AlwaysExact(tables: set<Table>) {
    forall rows, reported :: Nodes(TableEdges(rows)) <= tables && IsCircularList(rows, reported) ==>
      ReportIsExact(rows, reported)
  }

  /** The report is exact for all foreign keys between some tables if and only if no two of
      the tables share a node name. */
  lemma ExactIffNamesApart(tables: set<Table>)
    ensures AlwaysExact(tables) <==> NamesApart(tables)
  {
    if NamesApart(tables) {
      forall rows, reported | Nodes(TableEdges(rows)) <= tables && IsCircularList(rows, reported)
        ensures ReportIsExact(rows, reported)
      {
        forall t | t in Nodes(TableEdges(rows))
          ensures NodeName(t) in reported <==> Reaches(TableEdges(rows), t, t)
        {
          if Reaches(TableEdges(rows), t, t) {
            CyclesAreReported(rows, reported, t);
          } else if NodeName(t) in reported {
            ReportsMeanCycles(rows, reported, t);
          }
        }
      }
    } else {
      var t, u :| t in tables && u in tables && NodeName(t) == NodeName(u) && t != u;
      var rows, reported := SharedNameSelfLoop(t, u);
      assert Nodes(TableEdges(rows)) <= tables;
    }
  }

  lemma SelfLoopReaches(edges: set<(string, string)>, node: string, x: string)
    requires edges == {(node, node)}
    ensures Reaches(edges, x, x) <==> x == node
  {
    EdgeReaches(edges, node, node);
    if Reaches(edges, x, x) {
      ReachesEnters(edges, x, x);
    }
  }

  /** One key between two tables of the same node name looks like a table that references
      itself. */
  lemma SharedNameSelfLoop(t: Table, u: Table) returns (rows: seq<FkRow>, reported: seq<string>)
    requires NodeName(t) == NodeName(u) && t != u
    ensures Nodes(TableEdges(rows)) == {t, u} && IsCircularList(rows, reported) && !ReportIsExact(rows, reported)
  {
    var row := FkRow(t.0, t.1, u.0, u.1, "fk");
    rows, reported := [row], [NodeName(t)];
    assert row in rows;
    assert TableEdges(rows) == {(t, u)};
    assert EdgesOf(rows) == {(NodeName(t), NodeName(t))};
    forall x ensures x in reported <==> Reaches(EdgesOf(rows), x, x) {
      SelfLoopReaches(EdgesOf(rows), NodeName(t), x);
    }
    if Reaches(TableEdges(rows), t, t) {
      ReachesEnters(TableEdges(rows), t, t);
      assert false;
    }
    assert t in Nodes(TableEdges(rows)) && NodeName(t) in reported;
  }

  /** No schema continues another one after a dot. */
  ghost predicate SchemasApart(schemas: set<string>) {
    forall s, r :: s in schemas && r in schemas ==> !(s + "." <= r)
  }

  /** Whatever the tables are called, their nodes are different. */
  ghost predicate SchemasNameApart(schemas: set<string>) {
    forall t: Table, u: Table :: t.0 in schemas && u.0 in schemas && NodeName(t) == NodeName(u) ==> t == u
  }

  lemma ContinuedSchema(t: Table, u: Table)
    requires NodeName(t) == NodeName(u) && |t.0| < |u.0|
    ensures t.0 + "." <= u.0
  {
    var s := NodeName(t);
    assert s[..|t.0| + 1] == t.0 + ".";
    assert s[..|u.0|] == u.0;
    assert s[..|u.0|][..|t.0| + 1] == s[..|t.0| + 1];
  }

  lemma SameSchemaLength(t: Table, u: Table)
    requires NodeName(t) == NodeName(u) && |t.0| == |u.0|
    ensures t == u
  {
    var s := NodeName(t);
    assert t.0 == s[..|t.0|] == u.0;
    assert t.1 == s[|t.0| + 1..] == u.1;
  }

  /** Node names are different for every choice of table names if and only if no schema
      continues another one after a dot. */
  lemma NamesApartIffSchemasApart(schemas: set<string>)
    ensures SchemasNameApart(schemas) <==> SchemasApart(schemas)
  {
    if SchemasApart(schemas) {
      forall t: Table, u: Table | t.0 in schemas && u.0 in schemas && NodeName(t) == NodeName(u) ensures t == u {
        if |t.0| < |u.0| {
          ContinuedSchema(t, u);
        } else if |u.0| < |t.0| {
          ContinuedSchema(u, t);
        } else {
          SameSchemaLength(t, u);
        }
      }
    } else {
      var s, r :| s in schemas && r in schemas && s + "." <= r;
      var rest := r[|s| + 1..];
      assert r == s + "." + rest;
      var t: Table, u: Table := (s, rest + ".t"), (r, "t");
      assert NodeName(t) == s + "." + rest + "." + "t" == NodeName(u);
      assert t != u;
    }
  }

  ghost predicate OverSchemas(rows: seq<FkRow>, schemas: set<string>) {
    forall t :: t in Nodes(TableEdges(rows)) ==> t.0 in schemas
  }

  ghost predicate AlwaysExactOver(schemas: set<string>) {
    forall rows, reported :: OverSchemas(rows, schemas) && IsCircularList(rows, reported) ==>
      ReportIsExact(rows, reported)
  }

  /** The report is exact for all foreign keys between tables of some schemas if and only if
      none of the schemas continues another one after a dot. */
  lemma ExactIffSchemasApart(schemas: set<string>)
    ensures AlwaysExactOver(schemas) <==> SchemasApart(schemas)
  {
    NamesApartIffSchemasApart(schemas);
    if SchemasNameApart(schemas) {
      forall rows, reported | OverSchemas(rows, schemas) && IsCircularList(rows, reported)
        ensures ReportIsExact(rows, reported)
      {
        ExactIffNamesApart(Nodes(TableEdges(rows)));
      }
    } else {
      var t: Table, u: Table :| t.0 in schemas && u.0 in schemas && NodeName(t) == NodeName(u) && t != u;
      var rows, reported := SharedNameSelfLoop(t, u);
      assert OverSchemas(rows, schemas);
    }
  }

  /** In particular when no schema has a dot. */
  lemma DotFreeSchemasAreDistinct(t: Table, u: Table)
    requires '.' !in t.0 && '.' !in u.0 && NodeName(t) == NodeName(u)
    ensures t == u
  {
    var schemas := {t.0, u.0};
    forall s, r | s in schemas && r in schemas ensures !(s + "." <= r) {
      ContinuationHasDot(s, r);
    }
    NamesApartIffSchemasApart(schemas);
  }

  lemma ContinuationHasDot(s: string, r: string)
    ensures s + "." <= r ==> '.' in r
  {
    if s + "." <= r {
      assert r[|s|] == '.';
    }
  }

  /** With a dot in a schema name two tables can share a node, and a table that is on no
      cycle is reported. */
  lemma SharedNameIsReported()
    ensures var rows := [FkRow("a.b", "c", "x", "y", "f"), FkRow("x", "y", "a", "b.c", "g")];
      Reaches(EdgesOf(rows), "a.b.c", "a.b.c") && Acyclic(TableEdges(rows))
  {
    var rows := [FkRow("a.b", "c", "x", "y", "f"), FkRow("x", "y", "a", "b.c", "g")];
    var first: Table, middle: Table, last: Table := ("a.b", "c"), ("x", "y"), ("a", "b.c");
    assert rows[0] in rows && rows[1] in rows;
    assert NodeName(first) == NodeName(last) == "a.b.c";
    assert Parent(rows[0]) == "a.b.c" && Referenced(rows[1]) == "a.b.c" && Referenced(rows[0]) == Parent(rows[1]);
    EdgeReaches(EdgesOf(rows), "a.b.c", Referenced(rows[0]));
    EdgeReaches(EdgesOf(rows), Parent(rows[1]), "a.b.c");
    ReachesTransitive(EdgesOf(rows), "a.b.c", Referenced(rows[0]), "a.b.c");
    assert TableEdges(rows) == {(first, middle), (middle, last)};
    assert first.1 != middle.1 && middle.1 != last.1 && |first.1| != |last.1|;
    ChainIsAcyclic(first, middle, last);
  }
}
