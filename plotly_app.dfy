/**
 * The Plotly page's passes over the ledger, whose rows carry `Creator` and
 * `Date`: a directed graph of every row's child and parent, a record per
 * drawing (the last child row's parent, creator and date; ROOT for a root),
 * the tooltip of each graph node and the list offered in the selector.
 */
module PlotlyApp {
  import opened Table
  import Ordering

  /** The two dynamic columns the page reads, in the order a row's `vals` holds them. */
  const PlotColumns: seq<string> := ["Creator", "Date"]

  /** A drawing's record: its parent, creator and date. */
  datatype Record = Record(parent: string, creator: string, date: string)

  /** The record of a drawing nothing is known about. */
  const EmptyRecord := Record("", "", "")

  /** The record of a root. */
  const RootRecord := Record("ROOT", "ROOT", "ROOT")

  /** The record a row gives its child: the trimmed parent, creator and date. */
  function RowRecord(r: Row): Record
    requires |r.vals| == 2
  {
    Record(ParentId(r), Trim(r.vals[0]), Trim(r.vals[1]))
  }

  /**
   * Everything the second pass builds: the graph's nodes in insertion order,
   * its edges, the set of drawings and their records.
   */
  datatype PlotState = PlotState(nodes: seq<string>, edges: set<(string, string)>, drawings: set<string>, details: map<string, Record>)

  const EmptyState := PlotState([], {}, {}, map[])

  /** `G.add_node(n)`: appended unless already present. */
  function AddNode(nodes: seq<string>, n: string): seq<string>
  {
    if n in nodes then nodes else nodes + [n]
  }

  /** The nodes after one row: its child, even when empty, then its parent when not blank. */
  function NodesStep(nodes: seq<string>, r: Row): seq<string>
  {
    var c, p := ChildId(r), ParentId(r);
    if p != "" then AddNode(AddNode(nodes, c), p) else AddNode(nodes, c)
  }

  /** The nodes after all rows, from `nodes`. */
  function NodesPass(nodes: seq<string>, rows: seq<Row>): seq<string>
  {
    if rows == [] then nodes else NodesStep(NodesPass(nodes, rows[..|rows| - 1]), rows[|rows| - 1])
  }

  /**
   * One row of the second pass. The child is always a graph node, even when
   * empty; a non-empty parent is a node with an edge to the child. A
   * non-empty child becomes a drawing and its record is replaced by the
   * row's; a non-empty parent becomes a drawing and, when it has no record
   * yet, gets ROOT (for a root) or the empty record.
   */
  function PlotStep(s: PlotState, r: Row, roots: set<string>): PlotState
    requires |r.vals| == 2
  {
    var c, p := ChildId(r), ParentId(r);
    var nodes := NodesStep(s.nodes, r);
    var edges := if p != "" then s.edges + {(p, c)} else s.edges;
    var drawings := s.drawings + (if c != "" then {c} else {}) + (if p != "" then {p} else {});
    var d1 := if c != "" then s.details[c := RowRecord(r)] else s.details;
    var details := if p != "" && p !in d1 then d1[p := if p in roots then RootRecord else EmptyRecord] else d1;
    PlotState(nodes, edges, drawings, details)
  }

  function PlotPass(s: PlotState, rows: seq<Row>, roots: set<string>): PlotState
    requires Aligned(rows, PlotColumns)
  {
    if rows == [] then s
    else
      var k := |rows| - 1;
      PlotStep(PlotPass(s, rows[..k], roots), rows[k], roots)
  }

  /** What the page builds for a table. */
  function PlotGraph(rows: seq<Row>): PlotState
    requires Aligned(rows, PlotColumns)
  {
    PlotPass(EmptyState, rows, Roots(rows))
  }

  /** The record a drawing should end with, given the records `d` held before the pass. */
  function RecordOf(d: map<string, Record>, rows: seq<Row>, roots: set<string>, n: string): Record
    requires Aligned(rows, PlotColumns)
  {
    match LastChild(rows, n)
    case Some(i) => RowRecord(rows[i])
    case None => if n in d then d[n] else if n in roots then RootRecord else EmptyRecord
  }

  /** Row `i` has a non-empty parent and gives the edge `e`. */
  predicate PlotEdgeAt(rows: seq<Row>, i: int, e: (string, string))
  {
    0 <= i < |rows| && ParentId(rows[i]) != "" && e == (ParentId(rows[i]), ChildId(rows[i]))
  }

  // ---------------------------------------------------------------------------
  // Lemmas
  // ---------------------------------------------------------------------------

  lemma PlotPassSnoc(s: PlotState, rows: seq<Row>, roots: set<string>, i: nat)
    requires Aligned(rows, PlotColumns) && i < |rows|
    ensures Aligned(rows[..i], PlotColumns) && Aligned(rows[..i + 1], PlotColumns)
    ensures PlotPass(s, rows[..i + 1], roots) == PlotStep(PlotPass(s, rows[..i], roots), rows[i], roots)
  {
    AlignedPrefix(rows, PlotColumns, i);
    AlignedPrefix(rows, PlotColumns, i + 1);
    assert rows[..i + 1][..i] == rows[..i];
  }

  /** The drawings are the non-empty children and parents. */
  lemma {:induction false} DrawingsAre(s: PlotState, rows: seq<Row>, roots: set<string>)
    requires Aligned(rows, PlotColumns)
    ensures PlotPass(s, rows, roots).drawings == s.drawings + Children(rows) + Parents(rows)
  {
    if rows != [] {
      AlignedPrefix(rows, PlotColumns, |rows| - 1);
      DrawingsAre(s, rows[..|rows| - 1], roots);
    }
  }

  /** One row adds its child, and its parent when not blank, to the nodes. */
  lemma NodesStepAt(nodes: seq<string>, r: Row, n: string)
    ensures n in NodesStep(nodes, r) <==> n in nodes || ChildId(r) == n || (ParentId(r) != "" && ParentId(r) == n)
  {
  }

  /** No id listed twice. */
  ghost predicate Distinct(nodes: seq<string>)
  {
    forall i, j :: 0 <= i < j < |nodes| ==> nodes[i] != nodes[j]
  }

  /** Adding nodes never lists an id twice. */
  lemma NodesStepDistinct(nodes: seq<string>, r: Row)
    requires Distinct(nodes)
    ensures Distinct(NodesStep(nodes, r))
  {
  }

  /** The pass's nodes are `NodesPass`. */
  lemma {:induction false} NodesOfPass(s: PlotState, rows: seq<Row>, roots: set<string>)
    requires Aligned(rows, PlotColumns)
    ensures PlotPass(s, rows, roots).nodes == NodesPass(s.nodes, rows)
  {
    if rows != [] {
      AlignedPrefix(rows, PlotColumns, |rows| - 1);
      NodesOfPass(s, rows[..|rows| - 1], roots);
    }
  }

  /** The graph never lists a node twice. */
  lemma {:induction false} NodesDistinct(nodes: seq<string>, rows: seq<Row>)
    requires Distinct(nodes)
    ensures Distinct(NodesPass(nodes, rows))
  {
    if rows != [] {
      NodesDistinct(nodes, rows[..|rows| - 1]);
      NodesStepDistinct(NodesPass(nodes, rows[..|rows| - 1]), rows[|rows| - 1]);
    }
  }

  /** Every trimmed `Child` value of the rows, the empty one included. */
  function ChildCells(rows: seq<Row>): set<string>
  {
    if rows == [] then {} else ChildCells(rows[..|rows| - 1]) + {ChildId(rows[|rows| - 1])}
  }

  /** An id is a child cell exactly when some row names it as child. */
  lemma {:induction false} ChildCellsIff(rows: seq<Row>, n: string)
    ensures n in ChildCells(rows) <==> exists i :: ChildAt(rows, i, n)
  {
    if rows != [] {
      var k := |rows| - 1;
      ChildCellsIff(rows[..k], n);
      if ChildId(rows[k]) == n {
        assert ChildAt(rows, k, n);
      }
      if exists i :: ChildAt(rows[..k], i, n) {
        var i :| ChildAt(rows[..k], i, n);
        assert ChildAt(rows, i, n);
      }
      if exists i :: ChildAt(rows, i, n) {
        var i :| ChildAt(rows, i, n);
        if i < k {
          assert ChildAt(rows[..k], i, n);
        }
      }
    }
  }

  /** The nodes the pass adds: every child cell, the empty one included, and every non-empty parent. */
  lemma {:induction false} NodesMembers(nodes: seq<string>, rows: seq<Row>, n: string)
    ensures n in NodesPass(nodes, rows) <==> n in nodes || n in ChildCells(rows) || n in Parents(rows)
  {
    if rows != [] {
      var k := |rows| - 1;
      NodesMembers(nodes, rows[..k], n);
      NodesStepAt(NodesPass(nodes, rows[..k]), rows[k], n);
    }
  }

  /**
   * The graph's nodes: an id is a node exactly when it was a node before,
   * some row names it (possibly empty) as child, or some row names it,
   * non-empty, as parent.
   */
  lemma NodesAre(nodes: seq<string>, rows: seq<Row>, n: string)
    ensures n in NodesPass(nodes, rows) <==> n in nodes || (exists i :: ChildAt(rows, i, n)) || n in Parents(rows)
  {
    NodesMembers(nodes, rows, n);
    ChildCellsIff(rows, n);
  }

  /** The graph's edge set of a table: (parent, child) for every row with a non-blank parent. */
  function PlotEdges(rows: seq<Row>): set<(string, string)>
  {
    if rows == [] then {}
    else
      var r := rows[|rows| - 1];
      PlotEdges(rows[..|rows| - 1]) + if ParentId(r) != "" then {(ParentId(r), ChildId(r))} else {}
  }

  /** The pass adds exactly `PlotEdges` to the edges. */
  lemma {:induction false} EdgesOfPass(s: PlotState, rows: seq<Row>, roots: set<string>)
    requires Aligned(rows, PlotColumns)
    ensures PlotPass(s, rows, roots).edges == s.edges + PlotEdges(rows)
  {
    if rows != [] {
      AlignedPrefix(rows, PlotColumns, |rows| - 1);
      EdgesOfPass(s, rows[..|rows| - 1], roots);
    }
  }

  /** The graph's edges: one (parent, child) pair per row with a non-empty parent, even when the child is empty. */
  lemma {:induction false} EdgesAre(rows: seq<Row>, e: (string, string))
    ensures e in PlotEdges(rows) <==> exists i :: PlotEdgeAt(rows, i, e)
  {
    if rows != [] {
      var k := |rows| - 1;
      EdgesAre(rows[..k], e);
      if exists i :: PlotEdgeAt(rows[..k], i, e) {
        var i :| PlotEdgeAt(rows[..k], i, e);
        assert PlotEdgeAt(rows, i, e);
      }
      if PlotEdgeAt(rows, k, e) {
        assert e in PlotEdges(rows);
      }
      if exists i :: PlotEdgeAt(rows, i, e) {
        var i :| PlotEdgeAt(rows, i, e);
        if i < k {
          assert PlotEdgeAt(rows[..k], i, e);
        }
      }
    }
  }

  /** The pass never gives the empty id a record. */
  lemma {:induction false} NoEmptyRecord(s: PlotState, rows: seq<Row>, roots: set<string>)
    requires Aligned(rows, PlotColumns)
    ensures "" in PlotPass(s, rows, roots).details <==> "" in s.details
  {
    if rows != [] {
      AlignedPrefix(rows, PlotColumns, |rows| - 1);
      NoEmptyRecord(s, rows[..|rows| - 1], roots);
    }
  }

  /** One row, seen from a non-empty id `n`. */
  lemma PlotStepAt(s: PlotState, r: Row, roots: set<string>, n: string)
    requires |r.vals| == 2 && n != ""
    ensures var d := PlotStep(s, r, roots).details;
            && (n in d <==> n in s.details || ChildId(r) == n || ParentId(r) == n)
            && (n in d ==> d[n] == if ChildId(r) == n then RowRecord(r)
                                   else if n in s.details then s.details[n]
                                   else if n in roots then RootRecord else EmptyRecord)
  {
  }

  lemma RecordOfPrefix(d: map<string, Record>, rows: seq<Row>, roots: set<string>, n: string)
    requires Aligned(rows, PlotColumns) && rows != []
    requires LastChild(rows, n) == LastChild(rows[..|rows| - 1], n)
    ensures Aligned(rows[..|rows| - 1], PlotColumns)
    ensures RecordOf(d, rows, roots, n) == RecordOf(d, rows[..|rows| - 1], roots, n)
  {
    AlignedPrefix(rows, PlotColumns, |rows| - 1);
    match LastChild(rows, n)
    case None =>
    case Some(i) =>
      assert rows[..|rows| - 1][i] == rows[i];
  }

  /**
   * What the pass leaves for a non-empty id `n`: a record exactly when `n`
   * had one or some row names it, and that record is `RecordOf`.
   */
  lemma {:induction false} DetailsAt(s: PlotState, rows: seq<Row>, roots: set<string>, n: string)
    requires Aligned(rows, PlotColumns) && n != ""
    ensures var d := PlotPass(s, rows, roots).details;
            && (n in d <==> n in s.details || n in Children(rows) || n in Parents(rows))
            && (n in d ==> d[n] == RecordOf(s.details, rows, roots, n))
  {
    if rows != [] {
      var k := |rows| - 1;
      AlignedPrefix(rows, PlotColumns, k);
      DetailsAt(s, rows[..k], roots, n);
      LastChildIff(rows[..k], n);
      var before := PlotPass(s, rows[..k], roots);
      PlotStepAt(before, rows[k], roots, n);
      if ChildId(rows[k]) != n {
        assert LastChild(rows, n) == LastChild(rows[..k], n);
        RecordOfPrefix(s.details, rows, roots, n);
      }
    }
  }

  /**
   * The records the page builds: one for every drawing, where the drawings
   * are exactly the non-empty children and parents; a root's record is
   * ROOT in every field; any other drawing's is the record of the last row
   * naming it as child, even when it was first met as a parent.
   */
  lemma PlotGraphRecords(rows: seq<Row>, n: string)
    requires Aligned(rows, PlotColumns)
    ensures PlotGraph(rows).drawings == Children(rows) + Parents(rows)
    ensures n in PlotGraph(rows).details <==> n in PlotGraph(rows).drawings
    ensures n in Roots(rows) ==> PlotGraph(rows).details[n] == RootRecord
    ensures n in Children(rows) ==>
              LastChild(rows, n).Some? && PlotGraph(rows).details[n] == RowRecord(rows[LastChild(rows, n).value])
  {
    DrawingsAre(EmptyState, rows, Roots(rows));
    if n == "" {
      NoEmptyRecord(EmptyState, rows, Roots(rows));
      ChildrenIff(rows, n);
      ParentsIff(rows, n);
    } else {
      DetailsAt(EmptyState, rows, Roots(rows), n);
      LastChildIff(rows, n);
    }
  }

  /**
   * The graph the page builds: no node twice; the nodes are every trimmed
   * child cell, blank included, and every non-empty parent; the edges are
   * the (parent, child) pairs of the rows with a non-empty parent.
   */
  lemma PlotGraphShape(rows: seq<Row>, n: string, e: (string, string))
    requires Aligned(rows, PlotColumns)
    ensures Distinct(PlotGraph(rows).nodes)
    ensures n in PlotGraph(rows).nodes <==> (exists i :: ChildAt(rows, i, n)) || n in Parents(rows)
    ensures e in PlotGraph(rows).edges <==> exists i :: PlotEdgeAt(rows, i, e)
  {
    NodesOfPass(EmptyState, rows, Roots(rows));
    NodesDistinct([], rows);
    NodesAre([], rows, n);
    EdgesOfPass(EmptyState, rows, Roots(rows));
    EdgesAre(rows, e);
  }

  /**
   * A row whose child cell is blank still adds the empty id as a graph node,
   * and, when its parent is not blank, an edge from that parent to it; the
   * empty id never becomes a drawing.
   */
  lemma BlankChildQuirk(rows: seq<Row>, i: nat)
    requires Aligned(rows, PlotColumns) && i < |rows| && ChildId(rows[i]) == ""
    ensures "" in PlotGraph(rows).nodes
    ensures ParentId(rows[i]) != "" ==> (ParentId(rows[i]), "") in PlotGraph(rows).edges
    ensures "" !in PlotGraph(rows).drawings && "" !in PlotGraph(rows).details
  {
    assert ChildAt(rows, i, "");
    assert PlotEdgeAt(rows, i, (ParentId(rows[i]), "")) <== ParentId(rows[i]) != "";
    PlotGraphShape(rows, "", (ParentId(rows[i]), ""));
    PlotGraphRecords(rows, "");
    ChildrenIff(rows, "");
    ParentsIff(rows, "");
  }

  // ---------------------------------------------------------------------------
  // The passes as the page runs them
  // ---------------------------------------------------------------------------

  /** The second pass, row by row. */
  method BuildGraph(rows: seq<Row>, roots: set<string>) returns (g: PlotState)
    requires Aligned(rows, PlotColumns)
    ensures g == PlotPass(EmptyState, rows, roots)
  {
    var nodes: seq<string> := [];
    var edges: set<(string, string)> := {};
    var allDrawings: set<string> := {};
    var drawingDetails: map<string, Record> := map[];
    for i := 0 to |rows|
      invariant Aligned(rows[..i], PlotColumns)
      invariant PlotState(nodes, edges, allDrawings, drawingDetails) == PlotPass(EmptyState, rows[..i], roots)
    {
      PlotPassSnoc(EmptyState, rows, roots, i);
      var child := Trim(rows[i].child);
      var parent := Trim(rows[i].parent);
      var creator := Trim(rows[i].vals[0]);
      var date := Trim(rows[i].vals[1]);
      if child !in nodes {
        nodes := nodes + [child];
      }
      if parent != "" {
        if parent !in nodes {
          nodes := nodes + [parent];
        }
        edges := edges + {(parent, child)};
      }
      if child != "" {
        allDrawings := allDrawings + {child};
        drawingDetails := drawingDetails[child := Record(parent, creator, date)];
      }
      if parent != "" {
        allDrawings := allDrawings + {parent};
        if parent !in drawingDetails {
          if parent in roots {
            drawingDetails := drawingDetails[parent := RootRecord];
          } else {
            drawingDetails := drawingDetails[parent := EmptyRecord];
          }
        }
      }
    }
    assert rows[..|rows|] == rows;
    g := PlotState(nodes, edges, allDrawings, drawingDetails);
  }

  /** `drawing_details.get(node, {...})`: the node's record, or the empty record. */
  function Lookup(details: map<string, Record>, n: string): Record
  {
    if n in details then details[n] else EmptyRecord
  }

  /** A field as shown: its value, or `fallback` when it is empty. */
  function Shown(value: string, fallback: string): (shown: string)
    ensures shown != "" <== value != "" || fallback != ""
    ensures value != "" ==> shown == value
    ensures value == "" ==> shown == fallback
  {
    if value != "" then value else fallback
  }

  /** One line of a tooltip: the caption in bold, a colon and the value. */
  function HoverLine(caption: string, value: string): string
  {
    "<b>" + caption + "</b>: " + value
  }

  /** The tooltip of a graph node: id, parent (なし when none), creator and date (不明 when blank). */
  function HoverText(node: string, rec: Record): string
  {
    HoverLine("図番", node) + "<br>"
    + HoverLine("流用元図面", Shown(rec.parent, "なし")) + "<br>"
    + HoverLine("作成者", Shown(rec.creator, "不明")) + "<br>"
    + HoverLine("作成日", Shown(rec.date, "不明"))
  }

  /** One tooltip per graph node, in node order. */
  method NodeHoverInfo(nodes: seq<string>, details: map<string, Record>) returns (info: seq<string>)
    ensures |info| == |nodes|
    ensures forall i :: 0 <= i < |nodes| ==> info[i] == HoverText(nodes[i], Lookup(details, nodes[i]))
  {
    info := [];
    for i := 0 to |nodes|
      invariant |info| == i
      invariant forall j :: 0 <= j < i ==> info[j] == HoverText(nodes[j], Lookup(details, nodes[j]))
    {
      var d := if nodes[i] in details then details[nodes[i]] else EmptyRecord;
      info := info + [HoverText(nodes[i], d)];
    }
  }

  /**
   * The records the tooltips of the page's nodes read: a root's is ROOT in
   * every field; the empty node a blank child cell creates has none, so it
   * reads the empty record; a drawing named as child reads the record of the
   * last row naming it.
   */
  lemma LookupOfGraph(rows: seq<Row>, n: string)
    requires Aligned(rows, PlotColumns)
    ensures n in Roots(rows) ==> Lookup(PlotGraph(rows).details, n) == RootRecord
    ensures n == "" ==> Lookup(PlotGraph(rows).details, n) == EmptyRecord
    ensures n in Children(rows) ==>
              LastChild(rows, n).Some? && Lookup(PlotGraph(rows).details, n) == RowRecord(rows[LastChild(rows, n).value])
  {
    PlotGraphRecords(rows, n);
    ChildrenIff(rows, "");
    ParentsIff(rows, "");
  }

  /** A root's tooltip shows ROOT in every field. */
  lemma RootHover(n: string)
    ensures HoverText(n, RootRecord)
            == HoverLine("図番", n) + "<br>" + HoverLine("流用元図面", "ROOT") + "<br>"
               + HoverLine("作成者", "ROOT") + "<br>" + HoverLine("作成日", "ROOT")
  {
  }

  /** A node without a record shows なし for the parent and 不明 for creator and date. */
  lemma EmptyHover(n: string)
    ensures HoverText(n, EmptyRecord)
            == HoverLine("図番", n) + "<br>" + HoverLine("流用元図面", "なし") + "<br>"
               + HoverLine("作成者", "不明") + "<br>" + HoverLine("作成日", "不明")
  {
  }

  /** The selector's choices: a blank entry, then every drawing in ascending order. */
  method SelectorOptions(drawings: set<string>) returns (options: seq<string>)
    ensures |options| == 1 + |drawings| && options[0] == ""
    ensures Ordering.StrictlySorted(options[1..])
    ensures forall x :: x in options[1..] <==> x in drawings
  {
    var sortedDrawings := Ordering.SortedList(drawings);
    options := [""] + sortedDrawings;
    assert options[1..] == sortedDrawings;
  }

  /** For the page's own drawings the blank entry is never also a drawing, so no choice is listed twice. */
  lemma SelectorDistinct(rows: seq<Row>, options: seq<string>)
    requires Aligned(rows, PlotColumns)
    requires |options| >= 1 && options[0] == "" && Ordering.StrictlySorted(options[1..])
    requires forall x :: x in options[1..] <==> x in PlotGraph(rows).drawings
    ensures forall i, j :: 0 <= i < j < |options| ==> options[i] != options[j]
  {
    PlotGraphRecords(rows, "");
    ChildrenIff(rows, "");
    ParentsIff(rows, "");
    forall i, j | 0 <= i < j < |options|
      ensures options[i] != options[j]
    {
      if i == 0 {
        assert options[j] == options[1..][j - 1];
      } else {
        assert Ordering.Less(options[1..][i - 1], options[1..][j - 1]);
        Ordering.LessIrreflexive(options[i]);
      }
    }
  }

  /**
   * The page's passes for a non-empty table: the roots, the graph with its
   * records, one tooltip per graph node and the selector's choices.
   */
  method DrawPlotlyTree(rows: seq<Row>) returns (g: PlotState, hover: seq<string>, options: seq<string>)
    requires Aligned(rows, PlotColumns)
    ensures g == PlotGraph(rows)
    ensures |hover| == |g.nodes|
    ensures forall i :: 0 <= i < |g.nodes| ==> hover[i] == HoverText(g.nodes[i], Lookup(g.details, g.nodes[i]))
    ensures |options| == 1 + |g.drawings| && options[0] == ""
    ensures Ordering.StrictlySorted(options[1..])
    ensures forall x :: x in options[1..] <==> x in Children(rows) || x in Parents(rows)
    ensures forall i, j :: 0 <= i < j < |options| ==> options[i] != options[j]
  {
    var allChildren, allParents := CollectEndpoints(rows);
    var rootNodes := allParents - allChildren;
    g := BuildGraph(rows, rootNodes);
    hover := NodeHoverInfo(g.nodes, g.details);
    options := SelectorOptions(g.drawings);
    PlotGraphRecords(rows, "");
    SelectorDistinct(rows, options);
  }
}
