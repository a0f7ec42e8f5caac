# Drawing-revision family tree: a verified model

The repository draws the "family tree" of engineering drawings from a ledger
spreadsheet. Each row names a drawing (`Child`), the drawing it was derived
from (`Parent`) and further columns such as `Relation`, `Creator` or `Date`.
Three pieces of code turn the ledger into a graph:

- `GraphBuilder` (`utils/graph_builder.py`) does the following:
  - collects the non-empty trimmed children and parents;
  - takes the roots to be the parents that are never children;
  - gives every node an attribute map: the columns of the last row naming it as child, or `{Relation: ROOT}` for a root;
  - colours a node by its Relation;
  - lists the edges.
- `make_bold` and `format_hover_text` (`utils/formatters.py`) build node tooltips. The tooltips use Mathematical Sans-Serif Bold letters and digits.
- The Graphviz page (`app.py`) runs its own inline version of these passes. It differs from `GraphBuilder` in two ways. A row that names a non-root parent also merges its columns into that parent's map, so a node's map comes from the last row naming it as child or as parent. A root gets ROOT in every display column instead of `{Relation: ROOT}`. The page then emits one box per node, sorted by id, and one edge per row that has both ends.
- The Plotly page (`app_plotly.py`) keeps one record per drawing, holding its parent, creator and date. It builds a directed graph that also picks up a blank child cell. It then writes one tooltip per graph node and the list for the drawing selector.

The Dafny modules follow that structure:

| module | file | models |
|---|---|---|
| `Table` | `table.dfy` | rows; Python's `str.strip()`; the sets of children, parents and roots; a row's attribute map; the edge list; the first pass over the rows that both pages run inline (`CollectEndpoints`); the column-extraction loop that `GraphBuilder` and the Graphviz page share (`ExtractDetails`) |
| `Ordering` | `ordering.dfy` | Python's `<` on `str`, and `sorted()` over a set of ids |
| `Formatters` | `formatters.dfy` | `make_bold`, the tooltip lines, `"\n".join` and its inverse `split("\n")` |
| `GraphBuilding` | `graph_builder.dfy` | the `GraphBuilder` class: fields, the four passes, `get_node_color` and `get_edges` |
| `GraphvizApp` | `graphviz_app.dfy` | `app.py` lines 68–138 |
| `PlotlyApp` | `plotly_app.dfy` | `app_plotly.py` lines 55–100, 115–126 and 197–201 |

The passes over the rows are methods with loop invariants. Each is proved equal to a specification function defined by recursion over a prefix of the rows. The column loops (`ExtractDetails`, `RootIndicators`, `BuildHoverLines`) are proved the same way, but over a prefix of the columns. `SetRootNodeAttributes` is proved equal to a map comprehension (`OverrideRoots`). The emission loops (`EmitNodes`, `LabelLines`, `NodeHoverInfo`) are described element by element. `make_bold`'s generator and the display-column list comprehension are recursive functions, not loops. The properties are lemmas about the specification functions: which ids get a map, what the map is, the roots, the edges and the order of the boxes. `GraphBuilder` is a class with the source's fields, and its passes have `modifies` frames on exactly the fields they touch.

Python's `str.strip()` removes exactly the characters for which `str.isspace()` holds. These are 29 code points, and `Table.SpaceChars` lists them. A cell is given as text; `str()` of a non-text cell is not modelled (see below).

## Model

| member | source | states |
|---|---|---|
| Table.TrimSplit | utils/graph_builder.py:48-49 | `strip()` keeps one contiguous piece of the cell, removes only whitespace before and after it, leaves a piece that neither starts nor ends with whitespace, and stripping again changes nothing |
| Table.ChildrenIff | utils/graph_builder.py:45-54 | an id is in `all_children` exactly when it is non-empty and some row's trimmed `Child` equals it |
| Table.ParentsIff | utils/graph_builder.py:45-54 | an id is in `all_parents` exactly when it is non-empty and some row's trimmed `Parent` equals it |
| Table.RootsIff | utils/graph_builder.py:56-58 | a root is a non-empty id that some row names as parent and no row names as child |
| Table.CollectEndpoints | app.py:71-85 | the first pass's loop yields exactly the set of children and the set of parents |
| Table.LastChild | utils/graph_builder.py:71-75 | the index found is a row naming the id as child with no later such row, and there is none exactly when no row names it as child |
| Table.LastChildIff | utils/graph_builder.py:71-75 | a last child row exists exactly for the members of `all_children` |
| Table.RowDetailsKeys | utils/graph_builder.py:67-69 | a row's attribute map has exactly the dynamic columns as keys |
| Table.RowDetailsAt | utils/graph_builder.py:67-69 | a column's value is the trimmed cell at its last position in the column list |
| Table.ExtractDetails | utils/graph_builder.py:67-69 | the column loop builds exactly the row's attribute map |
| Table.EdgesAppend | utils/graph_builder.py:111-117 | the edge list of a concatenation of tables is the concatenation of their edge lists |
| Table.EdgesCount | utils/graph_builder.py:111-117 | there are exactly as many edges as rows with both trimmed ends non-empty, so duplicates are kept |
| Table.EdgesIff | utils/graph_builder.py:111-117 | a pair is an edge exactly when some row with both ends non-empty has that (parent, child) |
| Ordering.LessIrreflexive | app.py:116 | no id sorts before itself |
| Ordering.LessAsymmetric | app.py:116 | two ids never sort before each other |
| Ordering.LessTransitive | app.py:116 | the string order is transitive |
| Ordering.LessTotal | app.py:116 | of two different ids one sorts first |
| Ordering.Least | app.py:116 | the element chosen belongs to the set and sorts before every other element |
| Ordering.SortedList | app.py:116 | `sorted()` of a set lists every element once, in strictly ascending order |
| Ordering.SortedUnique | app.py:116 | only one strictly ascending list holds a given set of ids, so the order of the result is determined |
| Formatters.BoldCharProperties | utils/formatters.py:20-32 | each ASCII letter or digit maps to a different character that is not itself in the table; any other character is kept |
| Formatters.MakeBoldAt | utils/formatters.py:32 | one output character per input character, each the table's image of the input character |
| Formatters.MakeBoldKeepsOthers | utils/formatters.py:32 | an output character equals the input character exactly when the input is not an ASCII letter or digit |
| Formatters.MakeBoldConcat | utils/formatters.py:32 | make_bold of a concatenation is the concatenation of make_bold of the parts |
| Formatters.MakeBoldIdempotent | utils/formatters.py:20-32 | applying make_bold twice gives the same text as applying it once |
| Formatters.MakeBoldNewlines | utils/formatters.py:32 | make_bold neither adds nor removes newlines |
| Formatters.MakeBoldExample | utils/formatters.py:16-18 | make_bold("Hello123") is the docstring's bold text |
| Formatters.BoldRelationExample | utils/formatters.py:59 | the bold column name `Relation` is 𝗥𝗲𝗹𝗮𝘁𝗶𝗼𝗻 |
| Formatters.ColumnLines | utils/formatters.py:61-64 | one line per display column, in order: the bold column name, then the value or 不明 |
| Formatters.BuildHoverLines | utils/formatters.py:52-64 | the append loop builds exactly the tooltip's lines |
| Formatters.HoverLinesRoot | utils/formatters.py:56-59 | a root's tooltip is the title, a blank line and the bold Relation line (value defaulting to ROOT), whatever the columns |
| Formatters.HoverLinesNonRoot | utils/formatters.py:60-64 | another node's tooltip is the title, a blank line and one line per column, falling back to 不明 |
| Formatters.SplitJoin | utils/formatters.py:66 | splitting `"\n".join(lines)` at newlines gives the lines back when none holds a newline |
| Formatters.HoverTextSplits | utils/formatters.py:52-66 | when no id, column name or value holds a newline, the tooltip splits back into exactly its lines |
| Formatters.SingleColumnHoverText | utils/formatters.py:48-50 | with one column the tooltip is 【bold id】, an empty line, then the bold column name, ": " and the value (the docstring's example with any id, column and value) |
| Formatters.BoldDrawingIdExample | utils/formatters.py:49-50 | make_bold("DE5313-008-02B") is the bold id the docstring shows |
| Formatters.FormatHoverTextExample | utils/formatters.py:48-50 | the docstring example holds literally: id DE5313-008-02B, Relation 流用, not a root, one column |
| GraphBuilding.RowUpdateAbsorbs | utils/graph_builder.py:75 | updating with one row's map and then another's is updating with the later one alone |
| GraphBuilding.DetailsStepAt | utils/graph_builder.py:62-80 | for a non-empty id, one row adds a map when it names the id; the map is updated with the row's columns when the row names the id as child, and otherwise kept |
| GraphBuilding.DetailsPassEmptyId | utils/graph_builder.py:72-80 | the second pass never adds or changes a map for the empty id |
| GraphBuilding.DetailsPassAt | utils/graph_builder.py:60-80 | for a non-empty id, the second pass gives a map exactly when the id had one or is a child or parent; the map is the old one updated with the columns of the last row naming it as child, if any |
| GraphBuilding.NodeDetailsAt | utils/graph_builder.py:32-88 | `build()` gives a map to exactly the children and parents; a root's map is `{Relation: ROOT}`; a child's map is the columns of its last child row, with exactly the dynamic columns as keys |
| GraphBuilding.EdgeEndsAreNodes | utils/graph_builder.py:45-117 | both ends of every edge `get_edges()` lists have a map in what `build()` returns, so no edge leads to an unknown node |
| GraphBuilding.NoEmptyNode | utils/graph_builder.py:72-80 | the empty id never gets a map |
| GraphBuilding.DetailsStable | utils/graph_builder.py:32-43 | running the second pass and the root override again on a built result changes nothing |
| GraphBuilding.OverrideAdd | utils/graph_builder.py:84-88 | overriding one more root replaces that root's map only when it has one |
| GraphBuilding.NodeColor | utils/graph_builder.py:90-102 | the colour is light yellow exactly when Relation is present and equals 流用, and alice blue otherwise |
| GraphBuilding.RootColor | utils/graph_builder.py:82-102 | a root is always drawn alice blue |
| GraphBuilding.GraphBuilder.constructor | utils/graph_builder.py:17-30 | a new builder holds the table and columns, with every collection empty |
| GraphBuilding.GraphBuilder.Build | utils/graph_builder.py:32-43 | `build()` returns the node maps and roots of the table, whether or not the builder was already built |
| GraphBuilding.GraphBuilder.CollectNodes | utils/graph_builder.py:45-54 | adds exactly the children and the parents to the two sets |
| GraphBuilding.GraphBuilder.IdentifyRootNodes | utils/graph_builder.py:56-58 | the roots are the parents minus the children |
| GraphBuilding.GraphBuilder.BuildNodeDetails | utils/graph_builder.py:60-80 | the loop performs exactly the second pass over the rows, starting from the maps already held |
| GraphBuilding.GraphBuilder.AddRowDetails | utils/graph_builder.py:63-80 | one iteration performs exactly one step of the second pass |
| GraphBuilding.GraphBuilder.SetRootNodeAttributes | utils/graph_builder.py:82-88 | every root that has a map now has `{Relation: ROOT}`; every other map is unchanged |
| GraphBuilding.GraphBuilder.GetEdges | utils/graph_builder.py:104-117 | returns the edge list: row order, duplicates kept, only rows with both ends |
| GraphvizApp.DisplayColumns | app.py:69 | the display columns are exactly the sheet's columns other than Child and Parent |
| GraphvizApp.DisplayColumnsAppend | app.py:69 | the filter keeps the sheet's column order: filtering two runs of columns gives the first run's display columns followed by the second's |
| GraphvizApp.RootIndicators | app.py:109-111 | the loop builds the map holding ROOT for every display column |
| GraphvizApp.LastTouch | app.py:96-112 | the index found is the last row naming the id as child or as parent, and there is none exactly when no row names it |
| GraphvizApp.LastTouchIff | app.py:88-112 | a last naming row exists exactly for the children and parents |
| GraphvizApp.ContributionKeys | app.py:92-112 | whatever a row writes into a node's map covers exactly the display columns |
| GraphvizApp.AppStepAt | app.py:89-112 | for a non-empty id, one row updates the map when it names the id (the parent update after the child update); otherwise the map is kept |
| GraphvizApp.AppPassEmptyId | app.py:96-103 | the pass never adds a map for the empty id |
| GraphvizApp.AppPassAt | app.py:88-112 | for a non-empty id, the pass gives a map exactly when the id had one or is named; the map is the old one updated with the last naming row's contribution |
| GraphvizApp.AppNodeDetailsAt | app.py:68-112 | maps exist for exactly the children and parents, each with exactly the display columns as keys (so 不明 is never shown); a root's map is all ROOT; any other node's map is the columns of the last row naming it as child or parent |
| GraphvizApp.AppEdgeEndsAreNodes | app.py:71-138 | both ends of every edge the page draws have a node map, and so a box |
| GraphvizApp.BuildNodeDetails | app.py:88-112 | the loop performs exactly the page's second pass |
| GraphvizApp.AddRow | app.py:89-112 | one iteration performs exactly one step of the pass |
| GraphvizApp.LabelLines | app.py:125-129 | one label line per display column, in order: `column: value`, falling back to 不明 |
| GraphvizApp.EmitNodes | app.py:116-132 | one box per node and no other, ids strictly ascending, each with the normalised id as title, alice-blue fill and its column lines |
| GraphvizApp.EmitEdges | app.py:134-138 | one edge per row with both ends, in row order |
| GraphvizApp.DrawFamilyTree | app.py:68-138 | the page's node maps; boxes in sorted order, each titled with its normalised id, filled AliceBlue, with each column's actual value; and edges whose two ends are both drawn boxes |
| PlotlyApp.DrawingsAre | app_plotly.py:86-94 | `all_drawings` is exactly the non-empty children and parents |
| PlotlyApp.NodesStepAt | app_plotly.py:81-84 | one row adds its child (even when blank) and, when not blank, its parent to the graph's nodes |
| PlotlyApp.NodesStepDistinct | app_plotly.py:81-84 | adding a row's nodes never lists an id twice |
| PlotlyApp.NodesDistinct | app_plotly.py:81-84 | the graph never lists a node twice |
| PlotlyApp.ChildCellsIff | app_plotly.py:81 | the child cells are exactly the trimmed Child values, blank included |
| PlotlyApp.NodesMembers | app_plotly.py:81-84 | the pass adds exactly the child cells and the non-empty parents as nodes |
| PlotlyApp.NodesAre | app_plotly.py:81-84 | an id is a node exactly when some row names it as child (blank allowed) or as non-empty parent |
| PlotlyApp.EdgesOfPass | app_plotly.py:82-84 | the pass adds exactly the edge set of the table |
| PlotlyApp.EdgesAre | app_plotly.py:82-84 | a pair is an edge exactly when some row with a non-empty parent has that (parent, child), even with a blank child |
| PlotlyApp.NoEmptyRecord | app_plotly.py:86-100 | the blank id never gets a record |
| PlotlyApp.PlotStepAt | app_plotly.py:76-100 | for a non-empty id, a child row replaces the record; a parent row adds ROOT or an empty record only when the id has none |
| PlotlyApp.DetailsAt | app_plotly.py:75-100 | for a non-empty id, the pass gives a record exactly when the id had one or is named; the record comes from the last child row, else is the old record, else ROOT or empty |
| PlotlyApp.PlotGraphRecords | app_plotly.py:55-100 | the drawings are the children and parents, and exactly they have records; a root's is ROOT; a child's is the record of its last child row, even if it was first seen as a parent |
| PlotlyApp.PlotGraphShape | app_plotly.py:75-84 | no duplicate nodes; nodes are the child cells (blank included) and the non-empty parents; edges are the (parent, child) pairs of rows with a parent |
| PlotlyApp.BlankChildQuirk | app_plotly.py:81-84 | a blank child cell still puts the empty id in the graph, with an edge from a non-blank parent, but it never becomes a drawing |
| PlotlyApp.BuildGraph | app_plotly.py:75-100 | the loop performs exactly the second pass |
| PlotlyApp.Shown | app_plotly.py:122-124 | a non-empty field is shown as it is, and a blank one shows the fallback |
| PlotlyApp.NodeHoverInfo | app_plotly.py:115-126 | one tooltip per graph node, in node order, from its record or the empty record |
| PlotlyApp.LookupOfGraph | app_plotly.py:120 | a root reads the ROOT record, the blank node reads the empty record, and a child reads its last child row's record |
| PlotlyApp.RootHover | app_plotly.py:120-124 | a root's tooltip shows ROOT for parent, creator and date |
| PlotlyApp.EmptyHover | app_plotly.py:120-124 | a node without a record shows なし for the parent and 不明 for creator and date |
| PlotlyApp.SelectorOptions | app_plotly.py:197-201 | the selector lists a blank entry and then every drawing once, in ascending order |
| PlotlyApp.SelectorDistinct | app_plotly.py:197-201 | with the page's drawings, no choice in the selector appears twice |
| PlotlyApp.DrawPlotlyTree | app_plotly.py:55-201 | the page's graph and records, one tooltip per node, and selector choices: a blank entry, then the children and parents in ascending order without repeats |

## Left out

- The Streamlit user interface, reading the Excel sheet (`load_data`) and the check for an empty frame are left out. The model starts from the rows.
- `str()` of a cell that is not text is not modelled: a missing value would read as `nan`, and numbers would be formatted. Every cell is taken as text, and `strip()` is modelled exactly.
- The rows are assumed aligned with the columns, as a data frame guarantees. In `app_plotly.py`, a row's `vals` holds `Creator` and then `Date`.
- Unicode NFKC normalisation of the box title (app.py:119) is not modelled. `EmitNodes` takes it as the parameter `normalize`.
- The Graphviz HTML label markup, box shape and style, and the PDF output format are left out. A label is modelled as its title plus one text line per column.
- The Plotly layout (`spring_layout`), marker traces, arrow annotations and figure settings are left out. They only place what the model computes.
- The directed graph's edges are modelled as a set. The order in which networkx lists them, and so the order of the arrow annotations, is not modelled. Nodes keep their insertion order.
- The sidebar details for the selected drawing (app_plotly.py:204-212) are left out. They are plain output of the same records.
- Python dicts remember insertion order and Dafny maps do not. So the order of the keys in `GraphBuilder`'s returned dict is not modelled. No caller in the source depends on that order.
- GraphBuilding.NodeColor: `get_node_color` is an instance method that reads only class constants. It is modelled as a function of the attribute map.
- GraphBuilding.GraphBuilder.Build: `build()` returns the builder's own `node_dynamic_details` dict, so the caller and the builder share one object. The model returns a map value. It does not capture that a second `build()` updates that shared dict in place, nor that the caller's own edits to it carry into the second build.
