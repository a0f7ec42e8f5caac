/**
 * The ledger table every variant of the graph engine reads: rows of cell text
 * for `Child`, `Parent` and the remaining ("dynamic") columns, and the facts
 * the three variants derive from it in the same way -- the trimmed endpoints
 * of a row, the sets of children and parents, the roots, the row's own
 * attribute map and the edge list.
 */
module Table {

  datatype Option<T> = None | Some(value: T)

  /** One spreadsheet row: the raw text of `Child`, `Parent` and of each dynamic column, in column order. */
  datatype Row = Row(child: string, parent: string, vals: seq<string>)

  /** An attribute map: column name to trimmed cell text. */
  type Details = map<string, string>

  /** Every row carries one value per dynamic column. */
  ghost predicate Aligned(rows: seq<Row>, cols: seq<string>)
  {
    forall i :: 0 <= i < |rows| ==> |rows[i].vals| == |cols|
  }

  /** A prefix of an aligned table is aligned. */
  lemma AlignedPrefix(rows: seq<Row>, cols: seq<string>, k: nat)
    requires Aligned(rows, cols) && k <= |rows|
    ensures Aligned(rows[..k], cols)
  {
    forall i | 0 <= i < k
      ensures |rows[..k][i].vals| == |cols|
    {
      assert rows[..k][i] == rows[i];
    }
  }

  // ---------------------------------------------------------------------------
  // str.strip()
  // ---------------------------------------------------------------------------

  /** The characters Python's str.isspace() accepts, which str.strip() removes at both ends. */
  const SpaceChars: set<char> := {'\U{0009}', '\U{000A}', '\U{000B}', '\U{000C}', '\U{000D}', '\U{001C}', '\U{001D}', '\U{001E}', '\U{001F}', '\U{0020}', '\U{0085}', '\U{00A0}', '\U{1680}', '\U{2000}', '\U{2001}', '\U{2002}', '\U{2003}', '\U{2004}', '\U{2005}', '\U{2006}', '\U{2007}', '\U{2008}', '\U{2009}', '\U{200A}', '\U{2028}', '\U{2029}', '\U{202F}', '\U{205F}', '\U{3000}'}

  predicate IsSpace(c: char)
  {
    c in SpaceChars
  }

  /** `s` without its trailing whitespace. */
  function TrimEnd(s: string): (r: string)
    ensures |r| <= |s| && r == s[..|r|]
    ensures r == [] || !IsSpace(r[|r| - 1])
    ensures forall i :: |r| <= i < |s| ==> IsSpace(s[i])
  {
    if s != [] && IsSpace(s[|s| - 1]) then TrimEnd(s[..|s| - 1]) else s
  }

  /** Python's `str(x).strip()` on a cell that is already text: leading, then trailing whitespace removed. */
  function Trim(s: string): string
  {
    if s != [] && IsSpace(s[0]) then Trim(s[1..]) else TrimEnd(s)
  }

  /**
   * `strip()` keeps one contiguous piece of the text and drops only
   * whitespace around it, which neither starts nor ends with whitespace;
   * stripping twice changes nothing more.
   */
  lemma {:induction false} TrimSplit(s: string) returns (start: nat)
    ensures start + |Trim(s)| <= |s| && Trim(s) == s[start..start + |Trim(s)|]
    ensures forall j :: 0 <= j < start ==> IsSpace(s[j])
    ensures forall j :: start + |Trim(s)| <= j < |s| ==> IsSpace(s[j])
    ensures Trim(s) == [] || (!IsSpace(Trim(s)[0]) && !IsSpace(Trim(s)[|Trim(s)| - 1]))
    ensures Trim(Trim(s)) == Trim(s)
  {
    if s != [] && IsSpace(s[0]) {
      var rest := TrimSplit(s[1..]);
      start := rest + 1;
      var t := Trim(s);
      assert t == Trim(s[1..]);
      assert s[1..][rest..rest + |t|] == s[start..start + |t|];
      forall j | 0 < j < start
        ensures IsSpace(s[j])
      {
        assert s[j] == s[1..][j - 1];
      }
      forall j | start + |t| <= j < |s|
        ensures IsSpace(s[j])
      {
        assert s[j] == s[1..][j - 1];
      }
    } else {
      start := 0;
      var r := Trim(s);
      if r != [] {
        assert Trim(r) == TrimEnd(r);
        assert TrimEnd(r) == r;
      }
    }
  }

  /** The node id a row names as its child. */
  function ChildId(r: Row): string { Trim(r.child) }

  /** The node id a row names as its parent. */
  function ParentId(r: Row): string { Trim(r.parent) }

  // ---------------------------------------------------------------------------
  // Children, parents, roots
  // ---------------------------------------------------------------------------

  /** The non-empty trimmed `Child` values of the rows. */
  function Children(rows: seq<Row>): set<string>
  {
    if rows == [] then {}
    else
      var c := ChildId(rows[|rows| - 1]);
      Children(rows[..|rows| - 1]) + (if c == "" then {} else {c})
  }

  /** The non-empty trimmed `Parent` values of the rows. */
  function Parents(rows: seq<Row>): set<string>
  {
    if rows == [] then {}
    else
      var p := ParentId(rows[|rows| - 1]);
      Parents(rows[..|rows| - 1]) + (if p == "" then {} else {p})
  }

  /** Parents that are never a child. */
  function Roots(rows: seq<Row>): set<string>
  {
    Parents(rows) - Children(rows)
  }

  /** Row `i` names `n` as its child. */
  predicate ChildAt(rows: seq<Row>, i: int, n: string)
  {
    0 <= i < |rows| && ChildId(rows[i]) == n
  }

  /** Row `i` names `n` as its parent. */
  predicate ParentAt(rows: seq<Row>, i: int, n: string)
  {
    0 <= i < |rows| && ParentId(rows[i]) == n
  }

  /** A node is a child of the table exactly when some row names it, non-empty, as its child. */
  lemma {:induction false} ChildrenIff(rows: seq<Row>, n: string)
    ensures n in Children(rows) <==> n != "" && exists i :: ChildAt(rows, i, n)
  {
    if rows != [] {
      var k := |rows| - 1;
      ChildrenIff(rows[..k], n);
      if n in Children(rows[..k]) {
        var i :| ChildAt(rows[..k], i, n);
        assert ChildAt(rows, i, n);
      }
      if n != "" && ChildId(rows[k]) == n {
        assert ChildAt(rows, k, n);
      }
      if n != "" && exists i :: ChildAt(rows, i, n) {
        var i :| ChildAt(rows, i, n);
        if i < k {
          assert ChildAt(rows[..k], i, n);
        }
      }
    }
  }

  /** A node is a parent of the table exactly when some row names it, non-empty, as its parent. */
  lemma {:induction false} ParentsIff(rows: seq<Row>, n: string)
    ensures n in Parents(rows) <==> n != "" && exists i :: ParentAt(rows, i, n)
  {
    if rows != [] {
      var k := |rows| - 1;
      ParentsIff(rows[..k], n);
      if n in Parents(rows[..k]) {
        var i :| ParentAt(rows[..k], i, n);
        assert ParentAt(rows, i, n);
      }
      if n != "" && ParentId(rows[k]) == n {
        assert ParentAt(rows, k, n);
      }
      if n != "" && exists i :: ParentAt(rows, i, n) {
        var i :| ParentAt(rows, i, n);
        if i < k {
          assert ParentAt(rows[..k], i, n);
        }
      }
    }
  }

  /**
   * The roots are the non-empty ids that some row names as parent and no row
   * names as child.
   */
  lemma RootsIff(rows: seq<Row>, n: string)
    ensures n in Roots(rows) <==>
              n != "" && (exists i :: ParentAt(rows, i, n)) && (forall i :: !ChildAt(rows, i, n))
  {
    ChildrenIff(rows, n);
    ParentsIff(rows, n);
  }

  /** The index of the last row that names `n` as its child, if any. */
  function LastChild(rows: seq<Row>, n: string): (r: Option<nat>)
    ensures r.Some? ==> ChildAt(rows, r.value, n) && forall j :: r.value < j < |rows| ==> !ChildAt(rows, j, n)
    ensures r.None? ==> forall j :: !ChildAt(rows, j, n)
  {
    if rows == [] then None
    else
      var k := |rows| - 1;
      if ChildId(rows[k]) == n then Some(k)
      else
        assert forall j :: ChildAt(rows, j, n) && j < k ==> ChildAt(rows[..k], j, n);
        LastChild(rows[..k], n)
  }

  /** `LastChild` finds a row exactly for the children of the table. */
  lemma LastChildIff(rows: seq<Row>, n: string)
    requires n != ""
    ensures LastChild(rows, n).Some? <==> n in Children(rows)
  {
    ChildrenIff(rows, n);
  }

  // ---------------------------------------------------------------------------
  // A row's own attribute map
  // ---------------------------------------------------------------------------

  /** The set of column names. */
  function ColumnSet(cols: seq<string>): set<string>
  {
    set c | c in cols
  }

  /**
   * The map a row's dynamic columns give, written column by column in order:
   * a column name listed twice keeps its later value.
   */
  function RowDetails(cols: seq<string>, vals: seq<string>): Details
    requires |vals| == |cols|
  {
    if cols == [] then map[]
    else
      var k := |cols| - 1;
      RowDetails(cols[..k], vals[..k])[cols[k] := Trim(vals[k])]
  }

  /** The map a node has so far in a pass, or the empty map when it has none yet. */
  function Base(m: map<string, Details>, n: string): Details
  {
    if n in m then m[n] else map[]
  }

  /** A row's map has exactly the dynamic columns as keys. */
  lemma {:induction false} RowDetailsKeys(cols: seq<string>, vals: seq<string>)
    requires |vals| == |cols|
    ensures RowDetails(cols, vals).Keys == ColumnSet(cols)
  {
    if cols != [] {
      var k := |cols| - 1;
      RowDetailsKeys(cols[..k], vals[..k]);
      assert cols == cols[..k] + [cols[k]];
      assert ColumnSet(cols) == ColumnSet(cols[..k]) + {cols[k]};
    }
  }

  /** The value of a column is the trimmed cell of its last occurrence in the column list. */
  lemma {:induction false} RowDetailsAt(cols: seq<string>, vals: seq<string>, i: nat)
    requires |vals| == |cols| && i < |cols|
    requires forall j :: i < j < |cols| ==> cols[j] != cols[i]
    ensures cols[i] in RowDetails(cols, vals)
    ensures RowDetails(cols, vals)[cols[i]] == Trim(vals[i])
  {
    var k := |cols| - 1;
    if i < k {
      RowDetailsAt(cols[..k], vals[..k], i);
    }
  }

  // ---------------------------------------------------------------------------
  // Edges
  // ---------------------------------------------------------------------------

  /** A row contributes an edge when both of its trimmed ends are non-empty. */
  predicate HasBothEnds(r: Row)
  {
    ParentId(r) != "" && ChildId(r) != ""
  }

  /** One (parent, child) pair per row with both ends, in row order, duplicates kept. */
  function Edges(rows: seq<Row>): seq<(string, string)>
  {
    if rows == [] then []
    else
      var r := rows[|rows| - 1];
      Edges(rows[..|rows| - 1]) + (if HasBothEnds(r) then [(ParentId(r), ChildId(r))] else [])
  }

  /** The edge list of a concatenation is the concatenation of the edge lists. */
  lemma {:induction false} EdgesAppend(a: seq<Row>, b: seq<Row>)
    ensures Edges(a + b) == Edges(a) + Edges(b)
  {
    if b == [] {
      assert a + b == a;
    } else {
      var k := |b| - 1;
      EdgesAppend(a, b[..k]);
      assert (a + b)[..|a + b| - 1] == a + b[..k];
    }
  }

  /** Row `i` exists and has both ends. */
  predicate BothEndsAt(rows: seq<Row>, i: int)
  {
    0 <= i < |rows| && HasBothEnds(rows[i])
  }

  /** Indices of the rows that have both ends. */
  function EdgeRows(rows: seq<Row>): set<nat>
  {
    set i: nat | i < |rows| && BothEndsAt(rows, i)
  }

  /** The rows with both ends, after one more row. */
  lemma EdgeRowsSnoc(rows: seq<Row>)
    requires rows != []
    ensures EdgeRows(rows) == EdgeRows(rows[..|rows| - 1]) + (if BothEndsAt(rows, |rows| - 1) then {|rows| - 1} else {})
  {
    var k := |rows| - 1;
    forall i: nat | i < k
      ensures BothEndsAt(rows, i) <==> BothEndsAt(rows[..k], i)
    {
      assert rows[..k][i] == rows[i];
    }
  }

  /** There are exactly as many edges as rows with both ends. */
  lemma {:induction false} EdgesCount(rows: seq<Row>)
    ensures |Edges(rows)| == |EdgeRows(rows)|
  {
    if rows != [] {
      var k := |rows| - 1;
      EdgesCount(rows[..k]);
      EdgeRowsSnoc(rows);
      assert k !in EdgeRows(rows[..k]);
    }
  }

  /** Row `i` has both ends and yields the edge `e`. */
  predicate EdgeAt(rows: seq<Row>, i: int, e: (string, string))
  {
    0 <= i < |rows| && HasBothEnds(rows[i]) && e == (ParentId(rows[i]), ChildId(rows[i]))
  }

  /** An edge is the (parent, child) pair of some row whose two trimmed ends are non-empty. */
  lemma {:induction false} EdgesIff(rows: seq<Row>, e: (string, string))
    ensures e in Edges(rows) <==> exists i :: EdgeAt(rows, i, e)
  {
    if rows != [] {
      var k := |rows| - 1;
      var r := rows[k];
      var last := if HasBothEnds(r) then [(ParentId(r), ChildId(r))] else [];
      assert Edges(rows) == Edges(rows[..k]) + last;
      EdgesIff(rows[..k], e);
      if e in Edges(rows[..k]) {
        var i :| EdgeAt(rows[..k], i, e);
        assert EdgeAt(rows, i, e);
      } else if e in last {
        assert EdgeAt(rows, k, e);
      }
      if exists i :: EdgeAt(rows, i, e) {
        var i :| EdgeAt(rows, i, e);
        if i < k {
          assert EdgeAt(rows[..k], i, e);
        }
      }
    }
  }

  // ---------------------------------------------------------------------------
  // Passes shared, line for line, by the two inline scripts
  // ---------------------------------------------------------------------------

  /** First pass: the set of non-empty trimmed children and the set of non-empty trimmed parents. */
  method CollectEndpoints(rows: seq<Row>) returns (allChildren: set<string>, allParents: set<string>)
    ensures allChildren == Children(rows) && allParents == Parents(rows)
  {
    allChildren, allParents := {}, {};
    for i := 0 to |rows|
      invariant allChildren == Children(rows[..i])
      invariant allParents == Parents(rows[..i])
    {
      assert rows[..i + 1][..i] == rows[..i];
      var child := Trim(rows[i].child);
      var parent := Trim(rows[i].parent);
      if child != "" {
        allChildren := allChildren + {child};
      }
      if parent != "" {
        allParents := allParents + {parent};
      }
    }
    assert rows[..|rows|] == rows;
  }

  /** The row's attribute map, one trimmed cell per dynamic column, built column by column. */
  method ExtractDetails(cols: seq<string>, vals: seq<string>) returns (current: Details)
    requires |vals| == |cols|
    ensures current == RowDetails(cols, vals)
  {
    current := map[];
    for i := 0 to |cols|
      invariant current == RowDetails(cols[..i], vals[..i])
    {
      assert cols[..i + 1][..i] == cols[..i] && vals[..i + 1][..i] == vals[..i];
      current := current[cols[i] := Trim(vals[i])];
    }
    assert cols[..|cols|] == cols && vals[..|vals|] == vals;
  }
}
