/**
 * The Graphviz page's own passes over the ledger: it collects children and
 * parents, derives the roots, gives every node a map over the display
 * columns (a root's holds ROOT in every column), then emits one box per
 * node in sorted order and one edge per row with both ends.
 */
module GraphvizApp {
  import opened Table
  import Ordering
  import Formatters
  import GraphBuilding  // the page's own fill colour has the same value as the builder's default

  /** The columns shown in a label: every column of the sheet except `Child` and `Parent`, in order. */
  function DisplayColumns(columns: seq<string>): (cols: seq<string>)
    ensures forall c :: c in cols <==> c in columns && c != "Child" && c != "Parent"
    ensures |cols| <= |columns|
  {
    if columns == [] then []
    else
      var k := |columns| - 1;
      var c := columns[k];
      DisplayColumns(columns[..k]) + (if c == "Child" || c == "Parent" then [] else [c])
  }

  /**
   * The filter keeps the sheet's order: the display columns of two runs of
   * columns are those of the first run followed by those of the second.
   */
  lemma {:induction false} DisplayColumnsAppend(a: seq<string>, b: seq<string>)
    ensures DisplayColumns(a + b) == DisplayColumns(a) + DisplayColumns(b)
  {
    if b == [] {
      assert a + b == a;
    } else {
      var k := |b| - 1;
      var c := b[k];
      var tail := if c == "Child" || c == "Parent" then [] else [c];
      DisplayColumnsAppend(a, b[..k]);
      assert (a + b)[..|a + b| - 1] == a + b[..k] && (a + b)[|a + b| - 1] == c;
      calc {
        DisplayColumns(a + b);
        DisplayColumns(a + b[..k]) + tail;
        (DisplayColumns(a) + DisplayColumns(b[..k])) + tail;
        DisplayColumns(a) + (DisplayColumns(b[..k]) + tail);
        DisplayColumns(a) + DisplayColumns(b);
      }
    }
  }

  /** A root's indicators: ROOT in every display column. */
  function AllRoot(cols: seq<string>): Details
  {
    map c | c in ColumnSet(cols) :: "ROOT"
  }

  /** The loop that builds a root's indicators, one column at a time. */
  method RootIndicators(cols: seq<string>) returns (rootDetails: Details)
    ensures rootDetails == AllRoot(cols)
  {
    rootDetails := map[];
    for i := 0 to |cols|
      invariant rootDetails == AllRoot(cols[..i])
    {
      assert ColumnSet(cols[..i + 1]) == ColumnSet(cols[..i]) + {cols[i]} by {
        assert cols[..i + 1] == cols[..i] + [cols[i]];
      }
      rootDetails := rootDetails[cols[i] := "ROOT"];
    }
    assert cols[..|cols|] == cols;
  }

  // ---------------------------------------------------------------------------
  // The second pass
  // ---------------------------------------------------------------------------

  /**
   * One row: a non-empty child is updated with the row's columns; then a
   * non-empty parent is updated with the row's columns, or with the ROOT
   * indicators when it is a root.
   */
  function AppStep(m: map<string, Details>, r: Row, cols: seq<string>, roots: set<string>): map<string, Details>
    requires |r.vals| == |cols|
  {
    var c, p := ChildId(r), ParentId(r);
    var cur := RowDetails(cols, r.vals);
    var m1 := if c != "" then m[c := Base(m, c) + cur] else m;
    if p != "" then m1[p := Base(m1, p) + (if p in roots then AllRoot(cols) else cur)] else m1
  }

  /** The second pass over all rows, from the maps `m`. */
  function AppPass(m: map<string, Details>, rows: seq<Row>, cols: seq<string>, roots: set<string>): map<string, Details>
    requires Aligned(rows, cols)
  {
    if rows == [] then m
    else
      var k := |rows| - 1;
      AppStep(AppPass(m, rows[..k], cols, roots), rows[k], cols, roots)
  }

  /** The maps the page builds for a table. */
  function AppNodeDetails(rows: seq<Row>, cols: seq<string>): map<string, Details>
    requires Aligned(rows, cols)
  {
    AppPass(map[], rows, cols, Roots(rows))
  }

  /** Row `i` names `n` as child or as parent. */
  predicate TouchAt(rows: seq<Row>, i: int, n: string)
  {
    0 <= i < |rows| && (ChildId(rows[i]) == n || ParentId(rows[i]) == n)
  }

  /** The last row that names `n` as child or as parent, if any. */
  function LastTouch(rows: seq<Row>, n: string): (r: Option<nat>)
    ensures r.Some? ==> TouchAt(rows, r.value, n) && forall j :: r.value < j < |rows| ==> !TouchAt(rows, j, n)
    ensures r.None? ==> forall j :: !TouchAt(rows, j, n)
  {
    if rows == [] then None
    else
      var k := |rows| - 1;
      if ChildId(rows[k]) == n || ParentId(rows[k]) == n then Some(k)
      else
        assert forall j :: TouchAt(rows, j, n) && j < k ==> TouchAt(rows[..k], j, n);
        LastTouch(rows[..k], n)
  }

  /** What a row that names `n` contributes: the ROOT indicators when `n` is a root named as parent, else the row's columns. */
  function Contribution(r: Row, cols: seq<string>, roots: set<string>, n: string): Details
    requires |r.vals| == |cols|
  {
    if ParentId(r) == n && n in roots then AllRoot(cols) else RowDetails(cols, r.vals)
  }

  /** The map the pass should leave for `n`: its old map updated with the last contribution. */
  function AppValue(m: map<string, Details>, rows: seq<Row>, cols: seq<string>, roots: set<string>, n: string): Details
    requires Aligned(rows, cols)
  {
    match LastTouch(rows, n)
    case None => Base(m, n)
    case Some(i) => Base(m, n) + Contribution(rows[i], cols, roots, n)
  }

  // ---------------------------------------------------------------------------
  // Lemmas
  // ---------------------------------------------------------------------------

  /** Every contribution has exactly the display columns as keys. */
  lemma ContributionKeys(r: Row, cols: seq<string>, roots: set<string>, n: string)
    requires |r.vals| == |cols|
    ensures Contribution(r, cols, roots, n).Keys == ColumnSet(cols)
  {
    RowDetailsKeys(cols, r.vals);
  }

  /** A later contribution hides an earlier one. */
  lemma ContributionAbsorbs(x: Details, a: Details, b: Details, cols: seq<string>)
    requires a.Keys == ColumnSet(cols) && b.Keys == ColumnSet(cols)
    ensures (x + a) + b == x + b
  {
  }

  /** One row of the pass, seen from a non-empty id `n`. */
  lemma AppStepAt(m: map<string, Details>, r: Row, cols: seq<string>, roots: set<string>, n: string)
    requires |r.vals| == |cols| && n != ""
    ensures n in AppStep(m, r, cols, roots) <==> n in m || ChildId(r) == n || ParentId(r) == n
    ensures n in AppStep(m, r, cols, roots) ==>
              AppStep(m, r, cols, roots)[n] ==
                if ChildId(r) == n || ParentId(r) == n
                then
                  if ChildId(r) == n && ParentId(r) == n
                  then (Base(m, n) + RowDetails(cols, r.vals)) + Contribution(r, cols, roots, n)
                  else Base(m, n) + Contribution(r, cols, roots, n)
                else Base(m, n)
  {
  }

  /** The pass leaves the empty id as it found it. */
  lemma {:induction false} AppPassEmptyId(m: map<string, Details>, rows: seq<Row>, cols: seq<string>, roots: set<string>)
    requires Aligned(rows, cols)
    ensures "" in AppPass(m, rows, cols, roots) <==> "" in m
  {
    if rows != [] {
      var k := |rows| - 1;
      AlignedPrefix(rows, cols, k);
      AppPassEmptyId(m, rows[..k], cols, roots);
    }
  }

  lemma AppValuePrefix(m: map<string, Details>, rows: seq<Row>, cols: seq<string>, roots: set<string>, n: string)
    requires Aligned(rows, cols) && rows != []
    requires LastTouch(rows, n) == LastTouch(rows[..|rows| - 1], n)
    ensures Aligned(rows[..|rows| - 1], cols)
    ensures AppValue(m, rows, cols, roots, n) == AppValue(m, rows[..|rows| - 1], cols, roots, n)
  {
    AlignedPrefix(rows, cols, |rows| - 1);
    match LastTouch(rows, n)
    case None =>
    case Some(i) =>
      assert rows[..|rows| - 1][i] == rows[i];
  }

  /** `LastTouch` finds a row exactly for the children and parents of the table. */
  lemma LastTouchIff(rows: seq<Row>, n: string)
    requires n != ""
    ensures LastTouch(rows, n).Some? <==> n in Children(rows) || n in Parents(rows)
  {
    ChildrenIff(rows, n);
    ParentsIff(rows, n);
    if LastTouch(rows, n).Some? {
      var i := LastTouch(rows, n).value;
      if ChildId(rows[i]) == n {
        assert ChildAt(rows, i, n);
      } else {
        assert ParentAt(rows, i, n);
      }
    } else {
      forall j
        ensures !ChildAt(rows, j, n) && !ParentAt(rows, j, n)
      {
        assert !TouchAt(rows, j, n);
      }
    }
  }

  /**
   * What the pass leaves for a non-empty id `n`: a map exactly when `n` had
   * one or some row names it, and that map is `AppValue`.
   */
  lemma {:induction false} AppPassAt(m: map<string, Details>, rows: seq<Row>, cols: seq<string>, roots: set<string>, n: string)
    requires Aligned(rows, cols) && n != ""
    ensures n in AppPass(m, rows, cols, roots) <==> n in m || n in Children(rows) || n in Parents(rows)
    ensures n in AppPass(m, rows, cols, roots) ==> AppPass(m, rows, cols, roots)[n] == AppValue(m, rows, cols, roots, n)
  {
    if rows != [] {
      var k := |rows| - 1;
      AlignedPrefix(rows, cols, k);
      AppPassAt(m, rows[..k], cols, roots, n);
      LastTouchIff(rows[..k], n);
      LastTouchIff(rows, n);
      var before := AppPass(m, rows[..k], cols, roots);
      AppStepAt(before, rows[k], cols, roots, n);
      assert Base(before, n) == AppValue(m, rows[..k], cols, roots, n);
      if ChildId(rows[k]) != n && ParentId(rows[k]) != n {
        assert LastTouch(rows, n) == LastTouch(rows[..k], n);
        AppValuePrefix(m, rows, cols, roots, n);
      } else {
        var last := Contribution(rows[k], cols, roots, n);
        ContributionKeys(rows[k], cols, roots, n);
        if ChildId(rows[k]) == n && ParentId(rows[k]) == n {
          RowDetailsKeys(cols, rows[k].vals);
          ContributionAbsorbs(Base(before, n), RowDetails(cols, rows[k].vals), last, cols);
        }
        if LastTouch(rows[..k], n).Some? {
          var i := LastTouch(rows[..k], n).value;
          ContributionKeys(rows[..k][i], cols, roots, n);
          ContributionAbsorbs(Base(m, n), Contribution(rows[..k][i], cols, roots, n), last, cols);
        }
      }
    }
  }

  /**
   * The maps the page builds: one for every non-empty child or parent and no
   * other; each has exactly the display columns as keys (so a label never
   * falls back to 不明); a root's holds ROOT in every column; any other
   * node's holds the columns of the last row naming it, as child or parent.
   */
  lemma AppNodeDetailsAt(rows: seq<Row>, cols: seq<string>, n: string)
    requires Aligned(rows, cols)
    ensures n in AppNodeDetails(rows, cols) <==> n in Children(rows) || n in Parents(rows)
    ensures n in AppNodeDetails(rows, cols) ==> AppNodeDetails(rows, cols)[n].Keys == ColumnSet(cols)
    ensures n in Roots(rows) ==> AppNodeDetails(rows, cols)[n] == AllRoot(cols)
    ensures n in AppNodeDetails(rows, cols) && n !in Roots(rows) ==>
              LastTouch(rows, n).Some?
              && AppNodeDetails(rows, cols)[n] == RowDetails(cols, rows[LastTouch(rows, n).value].vals)
  {
    var roots := Roots(rows);
    if n == "" {
      AppPassEmptyId(map[], rows, cols, roots);
      ChildrenIff(rows, n);
      ParentsIff(rows, n);
    } else {
      AppPassAt(map[], rows, cols, roots, n);
      LastTouchIff(rows, n);
      if LastTouch(rows, n).Some? {
        var i := LastTouch(rows, n).value;
        var c := Contribution(rows[i], cols, roots, n);
        ContributionKeys(rows[i], cols, roots, n);
        assert map[] + c == c;
        if n in roots {
          RootsIff(rows, n);
          assert !ChildAt(rows, i, n);
        }
      }
    }
  }

  /** Both ends of every edge the page draws are nodes with a map, so every edge joins two boxes. */
  lemma AppEdgeEndsAreNodes(rows: seq<Row>, cols: seq<string>, e: (string, string))
    requires Aligned(rows, cols)
    requires e in Edges(rows)
    ensures e.0 in AppNodeDetails(rows, cols) && e.1 in AppNodeDetails(rows, cols)
  {
    EdgesIff(rows, e);
    var i :| EdgeAt(rows, i, e);
    assert ParentAt(rows, i, e.0) && ChildAt(rows, i, e.1);
    ParentsIff(rows, e.0);
    ChildrenIff(rows, e.1);
    AppNodeDetailsAt(rows, cols, e.0);
    AppNodeDetailsAt(rows, cols, e.1);
  }

  // ---------------------------------------------------------------------------
  // The passes as the page runs them
  // ---------------------------------------------------------------------------

  /** The second pass, row by row. */
  method BuildNodeDetails(rows: seq<Row>, cols: seq<string>, roots: set<string>) returns (details: map<string, Details>)
    requires Aligned(rows, cols)
    ensures details == AppPass(map[], rows, cols, roots)
  {
    details := map[];
    for i := 0 to |rows|
      invariant Aligned(rows[..i], cols)
      invariant details == AppPass(map[], rows[..i], cols, roots)
    {
      AlignedPrefix(rows, cols, i + 1);
      assert rows[..i + 1][..i] == rows[..i];
      details := AddRow(details, rows[i], cols, roots);
    }
    assert rows[..|rows|] == rows;
  }

  /** The body of the second pass for one row. */
  method AddRow(details: map<string, Details>, row: Row, cols: seq<string>, roots: set<string>) returns (after: map<string, Details>)
    requires |row.vals| == |cols|
    ensures after == AppStep(details, row, cols, roots)
  {
    var child := Trim(row.child);
    var parent := Trim(row.parent);
    var current := ExtractDetails(cols, row.vals);
    after := details;
    if child != "" {
      if child !in after {
        after := after[child := map[]];
      }
      after := after[child := after[child] + current];
    }
    ghost var afterChild := after;
    assert afterChild == if child != "" then details[child := Base(details, child) + current] else details;
    if parent != "" {
      if parent !in after {
        after := after[parent := map[]];
      }
      if parent !in roots {
        after := after[parent := after[parent] + current];
      } else {
        var rootDetails := RootIndicators(cols);
        after := after[parent := after[parent] + rootDetails];
      }
    }
    assert after == if parent != "" then afterChild[parent := Base(afterChild, parent) + (if parent in roots then AllRoot(cols) else current)] else afterChild;
  }

  /** A box in the drawing: its id, the title it shows, one text line per display column, its fill colour. */
  datatype DotNode = DotNode(name: string, title: string, lines: seq<string>, fillColor: string)

  /** The text of one label line. */
  function LabelLine(col: string, value: string): string
  {
    col + ": " + value
  }

  /** A label's column lines, in display-column order; a missing value shows as 不明. */
  method LabelLines(details: Details, cols: seq<string>) returns (lines: seq<string>)
    ensures |lines| == |cols|
    ensures forall i :: 0 <= i < |cols| ==> lines[i] == LabelLine(cols[i], Formatters.Get(details, cols[i], Formatters.Unknown))
  {
    lines := [];
    for i := 0 to |cols|
      invariant |lines| == i
      invariant forall j :: 0 <= j < i ==> lines[j] == LabelLine(cols[j], Formatters.Get(details, cols[j], Formatters.Unknown))
    {
      var value := if cols[i] in details then details[cols[i]] else Formatters.Unknown;
      lines := lines + [LabelLine(cols[i], value)];
    }
  }

  /** The ids of a list of boxes. */
  function Names(nodes: seq<DotNode>): (names: seq<string>)
    ensures |names| == |nodes| && forall i :: 0 <= i < |nodes| ==> names[i] == nodes[i].name
  {
    seq(|nodes|, i requires 0 <= i < |nodes| => nodes[i].name)
  }

  /** `node` is the box drawn for its id: title, colour and one line per display column. */
  ghost predicate DrawnFrom(details: map<string, Details>, cols: seq<string>, normalize: string -> string, node: DotNode)
  {
    node.name in details
    && node.title == normalize(node.name)
    && node.fillColor == GraphBuilding.NodeFillColor
    && |node.lines| == |cols|
    && forall j :: 0 <= j < |cols| ==>
         node.lines[j] == LabelLine(cols[j], Formatters.Get(details[node.name], cols[j], Formatters.Unknown))
  }

  /**
   * One box per node, in ascending order of id. `normalize` stands for the
   * NFKC normalisation the title goes through.
   */
  method EmitNodes(details: map<string, Details>, cols: seq<string>, normalize: string -> string) returns (nodes: seq<DotNode>)
    ensures |nodes| == |details.Keys|
    ensures Ordering.StrictlySorted(Names(nodes))
    ensures forall n :: n in details <==> n in Names(nodes)
    ensures forall i :: 0 <= i < |nodes| ==> DrawnFrom(details, cols, normalize, nodes[i])
  {
    var ids := Ordering.SortedList(details.Keys);
    nodes := [];
    for i := 0 to |ids|
      invariant Names(nodes) == ids[..i]
      invariant forall k :: 0 <= k < i ==> DrawnFrom(details, cols, normalize, nodes[k])
    {
      var id := ids[i];
      var lines := LabelLines(details[id], cols);
      nodes := nodes + [DotNode(id, normalize(id), lines, GraphBuilding.NodeFillColor)];
      assert DrawnFrom(details, cols, normalize, nodes[i]);
      assert Names(nodes) == ids[..i + 1];
    }
    assert ids[..|ids|] == ids;
  }

  /** One edge per row whose trimmed ends are both non-empty, in row order. */
  method EmitEdges(rows: seq<Row>) returns (edges: seq<(string, string)>)
    ensures edges == Edges(rows)
  {
    edges := [];
    for i := 0 to |rows|
      invariant edges == Edges(rows[..i])
    {
      assert rows[..i + 1][..i] == rows[..i];
      var child := Trim(rows[i].child);
      var parent := Trim(rows[i].parent);
      if parent != "" && child != "" {
        edges := edges + [(parent, child)];
      }
    }
    assert rows[..|rows|] == rows;
  }

  /**
   * The whole page for a non-empty table: its node maps, its boxes and its
   * edges. Every box shows each display column with the value the node's map
   * holds for it.
   */
  method DrawFamilyTree(rows: seq<Row>, columns: seq<string>, normalize: string -> string)
    returns (cols: seq<string>, details: map<string, Details>, nodes: seq<DotNode>, edges: seq<(string, string)>)
    requires Aligned(rows, DisplayColumns(columns))
    ensures cols == DisplayColumns(columns)
    ensures details == AppNodeDetails(rows, cols)
    ensures forall n :: n in details <==> n in Names(nodes)
    ensures Ordering.StrictlySorted(Names(nodes))
    ensures forall i :: 0 <= i < |nodes| ==>
              nodes[i].title == normalize(nodes[i].name) && nodes[i].fillColor == GraphBuilding.NodeFillColor
    ensures forall i :: 0 <= i < |nodes| ==>
              nodes[i].name in details && |nodes[i].lines| == |cols|
              && forall j :: 0 <= j < |cols| ==>
                   cols[j] in details[nodes[i].name]
                   && nodes[i].lines[j] == LabelLine(cols[j], details[nodes[i].name][cols[j]])
    ensures edges == Edges(rows)
    ensures forall e :: e in edges ==> e.0 in Names(nodes) && e.1 in Names(nodes)
  {
    cols := DisplayColumns(columns);
    var allChildren, allParents := CollectEndpoints(rows);
    var rootNodes := allParents - allChildren;
    details := BuildNodeDetails(rows, cols, rootNodes);
    nodes := EmitNodes(details, cols, normalize);
    forall i | 0 <= i < |nodes|
      ensures nodes[i].title == normalize(nodes[i].name) && nodes[i].fillColor == GraphBuilding.NodeFillColor
      ensures forall j :: 0 <= j < |cols| ==>
                cols[j] in details[nodes[i].name]
                && nodes[i].lines[j] == LabelLine(cols[j], details[nodes[i].name][cols[j]])
    {
      assert DrawnFrom(details, cols, normalize, nodes[i]);
      AppNodeDetailsAt(rows, cols, nodes[i].name);
    }
    edges := EmitEdges(rows);
    forall e | e in edges
      ensures e.0 in Names(nodes) && e.1 in Names(nodes)
    {
      AppEdgeEndsAreNodes(rows, cols, e);
    }
  }
}
