/**
 * The shared graph engine: `GraphBuilder` reads the ledger table once for
 * its children and parents, derives the roots, gives every node an
 * attribute map (the dynamic columns of the last row that names it as
 * child, or `{Relation: ROOT}` for a root) and lists the edges.
 */
module GraphBuilding {
  import opened Table

  /** The attribute map every root ends up with. */
  const RootDetails: Details := map["Relation" := "ROOT"]

  // ---------------------------------------------------------------------------
  // What `_build_node_details` computes
  // ---------------------------------------------------------------------------

  /**
   * One row of the second pass: a non-empty child gets its map updated with
   * the row's columns (created empty first when missing); a non-empty parent
   * gets an empty map when it has none.
   */
  function DetailsStep(m: map<string, Details>, r: Row, cols: seq<string>): map<string, Details>
    requires |r.vals| == |cols|
  {
    var c, p := ChildId(r), ParentId(r);
    var m1 := if c != "" then m[c := Base(m, c) + RowDetails(cols, r.vals)] else m;
    if p != "" && p !in m1 then m1[p := map[]] else m1
  }

  /** The second pass over all rows, starting from the maps `m` the builder already holds. */
  function DetailsPass(m: map<string, Details>, rows: seq<Row>, cols: seq<string>): map<string, Details>
    requires Aligned(rows, cols)
  {
    if rows == [] then m
    else
      var k := |rows| - 1;
      DetailsStep(DetailsPass(m, rows[..k], cols), rows[k], cols)
  }

  /** Every root that has a map gets `{Relation: ROOT}` instead; other maps are kept. */
  function OverrideRoots(m: map<string, Details>, roots: set<string>): map<string, Details>
  {
    map n | n in m :: if n in roots then RootDetails else m[n]
  }

  /** The attribute maps `build()` returns for a table, starting from an empty builder. */
  function NodeDetails(rows: seq<Row>, cols: seq<string>): map<string, Details>
    requires Aligned(rows, cols)
  {
    OverrideRoots(DetailsPass(map[], rows, cols), Roots(rows))
  }

  // ---------------------------------------------------------------------------
  // Lemmas
  // ---------------------------------------------------------------------------

  /** Updating with `a` and then with `b` is updating with `b` alone when `b` covers every key of `a`. */
  lemma UpdateAbsorbs(x: Details, a: Details, b: Details)
    requires a.Keys <= b.Keys
    ensures (x + a) + b == x + b
  {
  }

  /** The maps of one row's columns all have the same keys, so a later row's update hides an earlier one's. */
  lemma RowUpdateAbsorbs(x: Details, cols: seq<string>, va: seq<string>, vb: seq<string>)
    requires |va| == |cols| && |vb| == |cols|
    ensures (x + RowDetails(cols, va)) + RowDetails(cols, vb) == x + RowDetails(cols, vb)
  {
    RowDetailsKeys(cols, va);
    RowDetailsKeys(cols, vb);
    UpdateAbsorbs(x, RowDetails(cols, va), RowDetails(cols, vb));
  }

  /** What the second pass leaves for the empty id: exactly what was there before. */
  lemma {:induction false} DetailsPassEmptyId(m: map<string, Details>, rows: seq<Row>, cols: seq<string>)
    requires Aligned(rows, cols)
    ensures "" in DetailsPass(m, rows, cols) <==> "" in m
    ensures "" in m ==> DetailsPass(m, rows, cols)[""] == m[""]
  {
    if rows != [] {
      var k := |rows| - 1;
      AlignedPrefix(rows, cols, k);
      DetailsPassEmptyId(m, rows[..k], cols);
    }
  }

  /** What one row of the second pass leaves for a non-empty id `n`. */
  lemma DetailsStepAt(m: map<string, Details>, r: Row, cols: seq<string>, n: string)
    requires |r.vals| == |cols| && n != ""
    ensures n in DetailsStep(m, r, cols) <==> n in m || ChildId(r) == n || ParentId(r) == n
    ensures n in DetailsStep(m, r, cols) ==>
              DetailsStep(m, r, cols)[n] ==
                if ChildId(r) == n then Base(m, n) + RowDetails(cols, r.vals) else Base(m, n)
  {
  }

  /**
   * The map the second pass should leave for `n`: the one it had (or the
   * empty map), updated with the columns of the last row naming `n` as
   * child, if there is one.
   */
  function PassValue(m: map<string, Details>, rows: seq<Row>, cols: seq<string>, n: string): Details
    requires Aligned(rows, cols)
  {
    match LastChild(rows, n)
    case None => Base(m, n)
    case Some(i) => Base(m, n) + RowDetails(cols, rows[i].vals)
  }

  /**
   * What the second pass leaves for a non-empty id `n`: a map exactly when
   * `n` had one or some row names it, and that map is `PassValue`.
   */
  lemma {:induction false} DetailsPassAt(m: map<string, Details>, rows: seq<Row>, cols: seq<string>, n: string)
    requires Aligned(rows, cols) && n != ""
    ensures n in DetailsPass(m, rows, cols) <==> n in m || n in Children(rows) || n in Parents(rows)
    ensures n in DetailsPass(m, rows, cols) ==> DetailsPass(m, rows, cols)[n] == PassValue(m, rows, cols, n)
  {
    if rows != [] {
      var k := |rows| - 1;
      AlignedPrefix(rows, cols, k);
      DetailsPassAt(m, rows[..k], cols, n);
      LastChildIff(rows[..k], n);
      var before := DetailsPass(m, rows[..k], cols);
      DetailsStepAt(before, rows[k], cols, n);
      assert Base(before, n) == PassValue(m, rows[..k], cols, n);
      if ChildId(rows[k]) != n {
        assert LastChild(rows, n) == LastChild(rows[..k], n);
        PassValuePrefix(m, rows, cols, n);
      } else if LastChild(rows[..k], n).Some? {
        var i := LastChild(rows[..k], n).value;
        RowUpdateAbsorbs(Base(m, n), cols, rows[..k][i].vals, rows[k].vals);
      }
    }
  }

  lemma PassValuePrefix(m: map<string, Details>, rows: seq<Row>, cols: seq<string>, n: string)
    requires Aligned(rows, cols) && rows != []
    requires LastChild(rows, n) == LastChild(rows[..|rows| - 1], n)
    ensures Aligned(rows[..|rows| - 1], cols)
    ensures PassValue(m, rows, cols, n) == PassValue(m, rows[..|rows| - 1], cols, n)
  {
    AlignedPrefix(rows, cols, |rows| - 1);
    match LastChild(rows, n)
    case None =>
    case Some(i) =>
      assert rows[..|rows| - 1][i] == rows[i];
  }

  /** The second pass over one more row is one more step. */
  lemma DetailsPassSnoc(m: map<string, Details>, rows: seq<Row>, cols: seq<string>, i: nat)
    requires Aligned(rows, cols) && i < |rows|
    ensures Aligned(rows[..i], cols) && Aligned(rows[..i + 1], cols)
    ensures DetailsPass(m, rows[..i + 1], cols) == DetailsStep(DetailsPass(m, rows[..i], cols), rows[i], cols)
  {
    AlignedPrefix(rows, cols, i);
    AlignedPrefix(rows, cols, i + 1);
    assert rows[..i + 1][..i] == rows[..i];
  }

  /**
   * The maps `build()` returns: one for every non-empty child or parent and
   * no other; a root's is `{Relation: ROOT}`; any other node's is the map of
   * the columns of the last row naming it as child, so it has exactly the
   * dynamic columns as keys.
   */
  lemma NodeDetailsAt(rows: seq<Row>, cols: seq<string>, n: string)
    requires Aligned(rows, cols)
    ensures n in NodeDetails(rows, cols) <==> n in Children(rows) || n in Parents(rows)
    ensures n in Roots(rows) ==> NodeDetails(rows, cols)[n] == RootDetails
    ensures n in Children(rows) ==>
              LastChild(rows, n).Some?
              && NodeDetails(rows, cols)[n] == RowDetails(cols, rows[LastChild(rows, n).value].vals)
              && NodeDetails(rows, cols)[n].Keys == ColumnSet(cols)
  {
    if n == "" {
      DetailsPassEmptyId(map[], rows, cols);
      ChildrenIff(rows, n);
      ParentsIff(rows, n);
    } else {
      DetailsPassAt(map[], rows, cols, n);
      LastChildIff(rows, n);
      match LastChild(rows, n)
      case None =>
      case Some(i) =>
        assert map[] + RowDetails(cols, rows[i].vals) == RowDetails(cols, rows[i].vals);
        RowDetailsKeys(cols, rows[i].vals);
    }
  }

  /** Both ends of every edge are nodes of the built graph: no edge points at a node without a map. */
  lemma EdgeEndsAreNodes(rows: seq<Row>, cols: seq<string>, e: (string, string))
    requires Aligned(rows, cols)
    requires e in Edges(rows)
    ensures e.0 in NodeDetails(rows, cols) && e.1 in NodeDetails(rows, cols)
  {
    EdgesIff(rows, e);
    var i :| EdgeAt(rows, i, e);
    assert ParentAt(rows, i, e.0) && ChildAt(rows, i, e.1);
    ParentsIff(rows, e.0);
    ChildrenIff(rows, e.1);
    NodeDetailsAt(rows, cols, e.0);
    NodeDetailsAt(rows, cols, e.1);
  }

  /** The empty id never gets a map. */
  lemma NoEmptyNode(rows: seq<Row>, cols: seq<string>)
    requires Aligned(rows, cols)
    ensures "" !in NodeDetails(rows, cols)
  {
    NodeDetailsAt(rows, cols, "");
    ChildrenIff(rows, "");
    ParentsIff(rows, "");
  }

  /** Running the second pass and the root override again on their own result changes nothing. */
  lemma DetailsStable(rows: seq<Row>, cols: seq<string>)
    requires Aligned(rows, cols)
    ensures OverrideRoots(DetailsPass(NodeDetails(rows, cols), rows, cols), Roots(rows)) == NodeDetails(rows, cols)
  {
    var first := NodeDetails(rows, cols);
    var second := OverrideRoots(DetailsPass(first, rows, cols), Roots(rows));
    forall n
      ensures n in second <==> n in first
      ensures n in first ==> second[n] == first[n]
    {
      NodeDetailsAt(rows, cols, n);
      if n == "" {
        NoEmptyNode(rows, cols);
        DetailsPassEmptyId(first, rows, cols);
      } else {
        DetailsPassAt(first, rows, cols, n);
        if n in first && n !in Roots(rows) {
          var i := LastChild(rows, n).value;
          RowDetailsKeys(cols, rows[i].vals);
          UpdateAbsorbs(map[], RowDetails(cols, rows[i].vals), RowDetails(cols, rows[i].vals));
        }
      }
    }
  }

  /** Adding one more root to the override. */
  lemma OverrideAdd(m: map<string, Details>, done: set<string>, r: string)
    ensures OverrideRoots(m, done + {r}) ==
              if r in m then OverrideRoots(m, done)[r := RootDetails] else OverrideRoots(m, done)
  {
  }

  // ---------------------------------------------------------------------------
  // The builder
  // ---------------------------------------------------------------------------

  /** Fill colour of an ordinary node. */
  const NodeFillColor := "#F0F8FF"

  /** Fill colour of a node whose Relation is 流用 (reuse). */
  const RelationReuseColor := "#FFFFE0"

  /** `get_node_color(details)`: the reuse colour exactly when Relation is 流用, the default colour otherwise. */
  function NodeColor(details: Details): (color: string)
    ensures color == RelationReuseColor <==> "Relation" in details && details["Relation"] == "流用"
    ensures color == NodeFillColor <==> !("Relation" in details && details["Relation"] == "流用")
  {
    if "Relation" in details && details["Relation"] == "流用" then RelationReuseColor else NodeFillColor
  }

  /** A root, whose Relation is ROOT, always gets the default colour. */
  lemma RootColor()
    ensures NodeColor(RootDetails) == NodeFillColor
  {
    assert RootDetails["Relation"] != "流用";
  }

  class GraphBuilder {
    const data: seq<Row>
    const dynamicCols: seq<string>
    var nodeDynamicDetails: map<string, Details>
    var allChildren: set<string>
    var allParents: set<string>
    var rootNodes: set<string>

    /** As constructed: nothing collected yet. */
    ghost predicate Fresh()
      reads this
    {
      nodeDynamicDetails == map[] && allChildren == {} && allParents == {} && rootNodes == {}
    }

    /** After `build()`: every field holds what the table determines. */
    ghost predicate Built()
      reads this
    {
      Aligned(data, dynamicCols)
      && allChildren == Children(data) && allParents == Parents(data)
      && rootNodes == Roots(data)
      && nodeDynamicDetails == NodeDetails(data, dynamicCols)
    }

    ghost predicate Valid()
      reads this
    {
      Aligned(data, dynamicCols) && (Fresh() || Built())
    }

    constructor (data: seq<Row>, dynamicCols: seq<string>)
      requires Aligned(data, dynamicCols)
      ensures this.data == data && this.dynamicCols == dynamicCols
      ensures Fresh() && Valid()
    {
      this.data := data;
      this.dynamicCols := dynamicCols;
      nodeDynamicDetails := map[];
      allChildren := {};
      allParents := {};
      rootNodes := {};
    }

    /**
     * `build()`: the four passes in order; the result is the same whether the
     * builder is fresh or has already been built once.
     */
    method Build() returns (details: map<string, Details>, roots: set<string>)
      requires Valid()
      modifies this
      ensures Built() && Valid()
      ensures details == NodeDetails(data, dynamicCols) && roots == Roots(data)
    {
      ghost var wasFresh := Fresh();
      CollectNodes();
      IdentifyRootNodes();
      BuildNodeDetails();
      SetRootNodeAttributes();
      if !wasFresh {
        DetailsStable(data, dynamicCols);
      }
      details, roots := nodeDynamicDetails, rootNodes;
    }

    /** `_collect_nodes`: adds every non-empty trimmed child and parent. */
    method CollectNodes()
      modifies this`allChildren, this`allParents
      ensures allChildren == old(allChildren) + Children(data)
      ensures allParents == old(allParents) + Parents(data)
    {
      for i := 0 to |data|
        invariant allChildren == old(allChildren) + Children(data[..i])
        invariant allParents == old(allParents) + Parents(data[..i])
      {
        assert data[..i + 1][..i] == data[..i];
        var child := Trim(data[i].child);
        var parent := Trim(data[i].parent);
        if child != "" {
          allChildren := allChildren + {child};
        }
        if parent != "" {
          allParents := allParents + {parent};
        }
      }
      assert data[..|data|] == data;
    }

    /** `_identify_root_nodes`: parents that are never children. */
    method IdentifyRootNodes()
      modifies this`rootNodes
      ensures rootNodes == allParents - allChildren
    {
      rootNodes := allParents - allChildren;
    }

    /** `_build_node_details`: the second pass over the rows. */
    method BuildNodeDetails()
      requires Aligned(data, dynamicCols)
      modifies this`nodeDynamicDetails
      ensures nodeDynamicDetails == DetailsPass(old(nodeDynamicDetails), data, dynamicCols)
    {
      for i := 0 to |data|
        invariant Aligned(data[..i], dynamicCols)
        invariant nodeDynamicDetails == DetailsPass(old(nodeDynamicDetails), data[..i], dynamicCols)
      {
        DetailsPassSnoc(old(nodeDynamicDetails), data, dynamicCols, i);
        AddRowDetails(data[i]);
      }
      assert data[..|data|] == data;
    }

    /** The body of `_build_node_details` for one row. */
    method AddRowDetails(row: Row)
      requires |row.vals| == |dynamicCols|
      modifies this`nodeDynamicDetails
      ensures nodeDynamicDetails == DetailsStep(old(nodeDynamicDetails), row, dynamicCols)
    {
      var child := Trim(row.child);
      var parent := Trim(row.parent);
      var current := ExtractDetails(dynamicCols, row.vals);
      if child != "" {
        if child !in nodeDynamicDetails {
          nodeDynamicDetails := nodeDynamicDetails[child := map[]];
        }
        nodeDynamicDetails := nodeDynamicDetails[child := nodeDynamicDetails[child] + current];
      }
      assert nodeDynamicDetails == if child != "" then old(nodeDynamicDetails)[child := Base(old(nodeDynamicDetails), child) + current] else old(nodeDynamicDetails);
      if parent != "" {
        if parent !in nodeDynamicDetails {
          nodeDynamicDetails := nodeDynamicDetails[parent := map[]];
        }
      }
    }

    /** `_set_root_node_attributes`: every root that has a map gets `{Relation: ROOT}`. */
    method SetRootNodeAttributes()
      modifies this`nodeDynamicDetails
      ensures nodeDynamicDetails == OverrideRoots(old(nodeDynamicDetails), rootNodes)
    {
      var rest := rootNodes;
      while rest != {}
        invariant rest <= rootNodes
        invariant nodeDynamicDetails == OverrideRoots(old(nodeDynamicDetails), rootNodes - rest)
        decreases rest
      {
        var r :| r in rest;
        OverrideAdd(old(nodeDynamicDetails), rootNodes - rest, r);
        assert rootNodes - (rest - {r}) == (rootNodes - rest) + {r};
        if r in nodeDynamicDetails {
          nodeDynamicDetails := nodeDynamicDetails[r := RootDetails];
        }
        rest := rest - {r};
      }
      assert rootNodes - rest == rootNodes;
    }

    /** `get_edges()`: one (parent, child) pair per row with both ends, in row order. */
    method GetEdges() returns (edges: seq<(string, string)>)
      ensures edges == Edges(data)
    {
      edges := [];
      for i := 0 to |data|
        invariant edges == Edges(data[..i])
      {
        assert data[..i + 1][..i] == data[..i];
        var child := Trim(data[i].child);
        var parent := Trim(data[i].parent);
        if parent != "" && child != "" {
          edges := edges + [(parent, child)];
        }
      }
      assert data[..|data|] == data;
    }
  }
}
