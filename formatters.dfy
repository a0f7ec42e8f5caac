/**
 * Text helpers for node tooltips: `make_bold`, which swaps ASCII letters and
 * digits for their Mathematical Sans-Serif Bold code points, and
 * `format_hover_text`, which lays out a node's id and attributes as lines.
 */
module Formatters {

  /** Fallback shown for a column a node has no value for. */
  const Unknown := "不明"

  /** Fallback shown for a root's missing `Relation`. */
  const RootRelation := "ROOT"

  // ---------------------------------------------------------------------------
  // make_bold
  // ---------------------------------------------------------------------------

  /** The keys of make_bold's table: ASCII upper-case, lower-case letters and digits. */
  predicate IsAsciiAlnum(c: char)
  {
    ('A' <= c <= 'Z') || ('a' <= c <= 'z') || ('0' <= c <= '9')
  }

  /**
   * make_bold's table applied to one character. The table sends A..Z to
   * U+1D5D4..U+1D5ED, a..z to U+1D5EE..U+1D607 and 0..9 to U+1D7EC..U+1D7F5,
   * each range in order; a character that is not a key is kept.
   */
  function BoldChar(c: char): char
  {
    if 'A' <= c <= 'Z' then (c as int - 'A' as int + 0x1D5D4) as char
    else if 'a' <= c <= 'z' then (c as int - 'a' as int + 0x1D5EE) as char
    else if '0' <= c <= '9' then (c as int - '0' as int + 0x1D7EC) as char
    else c
  }

  /** `make_bold(text)`: the table applied to every character. */
  function MakeBold(text: string): string
  {
    if text == [] then [] else [BoldChar(text[0])] + MakeBold(text[1..])
  }

  /** A bold character is never itself a key of the table, and no key is left unchanged. */
  lemma BoldCharProperties(c: char)
    ensures !IsAsciiAlnum(BoldChar(c))
            || (!IsAsciiAlnum(c) && BoldChar(c) == c)
    ensures IsAsciiAlnum(c) ==> BoldChar(c) != c && !IsAsciiAlnum(BoldChar(c))
    ensures !IsAsciiAlnum(c) ==> BoldChar(c) == c
    ensures BoldChar(BoldChar(c)) == BoldChar(c)
  {
  }

  /** One output character per input character, each the table's image of the input character. */
  lemma {:induction false} MakeBoldAt(text: string)
    ensures |MakeBold(text)| == |text|
    ensures forall i :: 0 <= i < |text| ==> MakeBold(text)[i] == BoldChar(text[i])
  {
    if text != [] {
      MakeBoldAt(text[1..]);
    }
  }

  /** Characters outside A-Z, a-z, 0-9 pass through unchanged; the others always change. */
  lemma MakeBoldKeepsOthers(text: string, i: nat)
    requires i < |text|
    ensures |MakeBold(text)| == |text|
    ensures MakeBold(text)[i] == text[i] <==> !IsAsciiAlnum(text[i])
  {
    MakeBoldAt(text);
    BoldCharProperties(text[i]);
  }

  /** make_bold distributes over concatenation. */
  lemma {:induction false} MakeBoldConcat(a: string, b: string)
    ensures MakeBold(a + b) == MakeBold(a) + MakeBold(b)
  {
    if a == [] {
      assert a + b == b;
    } else {
      MakeBoldConcat(a[1..], b);
      assert (a + b)[0] == a[0];
      assert (a + b)[1..] == a[1..] + b;
      calc {
        MakeBold(a + b);
        [BoldChar(a[0])] + MakeBold(a[1..] + b);
        [BoldChar(a[0])] + (MakeBold(a[1..]) + MakeBold(b));
        ([BoldChar(a[0])] + MakeBold(a[1..])) + MakeBold(b);
      }
    }
  }

  /** make_bold of a text from make_bold of its two pieces. */
  lemma MakeBoldPieces(a: string, b: string, boldA: string, boldB: string, ab: string, boldAB: string)
    requires MakeBold(a) == boldA && MakeBold(b) == boldB
    requires ab == a + b && boldAB == boldA + boldB
    ensures MakeBold(ab) == boldAB
  {
    MakeBoldConcat(a, b);
  }

  /** Emboldening bold text changes nothing. */
  lemma {:induction false} MakeBoldIdempotent(text: string)
    ensures MakeBold(MakeBold(text)) == MakeBold(text)
  {
    if text != [] {
      MakeBoldIdempotent(text[1..]);
      BoldCharProperties(text[0]);
    }
  }

  /** make_bold keeps newlines and introduces none. */
  lemma {:induction false} MakeBoldNewlines(text: string)
    ensures '\n' in MakeBold(text) <==> '\n' in text
  {
    if text != [] {
      MakeBoldNewlines(text[1..]);
      assert text == [text[0]] + text[1..];
    }
  }

  /** The docstring's example. */
  lemma MakeBoldExample()
    ensures MakeBold("Hello123") == "𝗛𝗲𝗹𝗹𝗼𝟭𝟮𝟯"
  {
    assert MakeBold("Hell") == "𝗛𝗲𝗹𝗹" by {
      assert MakeBold("ll") == "𝗹𝗹";
    }
    assert MakeBold("o123") == "𝗼𝟭𝟮𝟯" by {
      assert MakeBold("23") == "𝟮𝟯";
    }
    MakeBoldPieces("Hell", "o123", "𝗛𝗲𝗹𝗹", "𝗼𝟭𝟮𝟯", "Hello123", "𝗛𝗲𝗹𝗹𝗼𝟭𝟮𝟯");
  }

  // ---------------------------------------------------------------------------
  // format_hover_text
  // ---------------------------------------------------------------------------

  /** `d.get(k, default)`. */
  function Get(d: map<string, string>, k: string, default: string): string
  {
    if k in d then d[k] else default
  }

  /** The title line: the id in bold between lenticular brackets. */
  function Header(drawingId: string): string
  {
    "【" + MakeBold(drawingId) + "】"
  }

  /** One attribute line: the bold column name, a colon and the value. */
  function AttributeLine(name: string, value: string): string
  {
    MakeBold(name) + ": " + value
  }

  /** One line per column, in column order, a missing value shown as the placeholder. */
  function ColumnLines(details: map<string, string>, cols: seq<string>): (lines: seq<string>)
    ensures |lines| == |cols|
    ensures forall i :: 0 <= i < |cols| ==> lines[i] == AttributeLine(cols[i], Get(details, cols[i], Unknown))
  {
    if cols == [] then []
    else ColumnLines(details, cols[..|cols| - 1]) + [AttributeLine(cols[|cols| - 1], Get(details, cols[|cols| - 1], Unknown))]
  }

  /** The tooltip's lines: title, blank line, then the root's Relation or every column. */
  function HoverLines(drawingId: string, details: map<string, string>, isRoot: bool, cols: seq<string>): seq<string>
  {
    [Header(drawingId), ""]
    + if isRoot then [AttributeLine("Relation", Get(details, "Relation", RootRelation))]
      else ColumnLines(details, cols)
  }

  /** The tooltip's lines as `format_hover_text` appends them, one column at a time. */
  method BuildHoverLines(drawingId: string, details: map<string, string>, isRoot: bool, cols: seq<string>)
    returns (titleLines: seq<string>)
    ensures titleLines == HoverLines(drawingId, details, isRoot, cols)
  {
    titleLines := ["【" + MakeBold(drawingId) + "】"];
    titleLines := titleLines + [""];
    if isRoot {
      var relationValue := if "Relation" in details then details["Relation"] else RootRelation;
      titleLines := titleLines + [MakeBold("Relation") + ": " + relationValue];
    } else {
      for i := 0 to |cols|
        invariant titleLines == [Header(drawingId), ""] + ColumnLines(details, cols[..i])
      {
        assert cols[..i + 1][..i] == cols[..i];
        var value := if cols[i] in details then details[cols[i]] else Unknown;
        titleLines := titleLines + [MakeBold(cols[i]) + ": " + value];
      }
      assert cols[..|cols|] == cols;
    }
  }

  /** The lines of a root tooltip: title, blank, Relation (default ROOT); the columns play no part. */
  lemma HoverLinesRoot(drawingId: string, details: map<string, string>, cols: seq<string>)
    ensures var lines := HoverLines(drawingId, details, true, cols);
            && lines == HoverLines(drawingId, details, true, [])
            && |lines| == 3
            && lines[0] == "【" + MakeBold(drawingId) + "】" && lines[1] == ""
            && lines[2] == MakeBold("Relation") + ": " + (if "Relation" in details then details["Relation"] else "ROOT")
  {
  }

  /** The lines of another node's tooltip: title, blank, then one line per column in order. */
  lemma HoverLinesNonRoot(drawingId: string, details: map<string, string>, cols: seq<string>)
    ensures var lines := HoverLines(drawingId, details, false, cols);
            && |lines| == 2 + |cols|
            && lines[0] == "【" + MakeBold(drawingId) + "】" && lines[1] == ""
            && forall i :: 0 <= i < |cols| ==>
                 lines[2 + i] == MakeBold(cols[i]) + ": " + (if cols[i] in details then details[cols[i]] else "不明")
  {
  }

  /** `"\n".join(lines)`. */
  function JoinLines(lines: seq<string>): string
  {
    if lines == [] then ""
    else if |lines| == 1 then lines[0]
    else lines[0] + "\n" + JoinLines(lines[1..])
  }

  /** `s.split("\n")`: the pieces between newlines, always at least one. */
  function SplitLines(s: string): (pieces: seq<string>)
    ensures |pieces| >= 1
  {
    if s == [] then [""]
    else
      var rest := SplitLines(s[1..]);
      if s[0] == '\n' then [""] + rest else [[s[0]] + rest[0]] + rest[1..]
  }

  lemma {:induction false} SplitLinesSingle(a: string)
    requires '\n' !in a
    ensures SplitLines(a) == [a]
  {
    if a != [] {
      SplitLinesSingle(a[1..]);
      assert a == [a[0]] + a[1..];
    }
  }

  lemma {:induction false} SplitLinesCons(a: string, b: string)
    requires '\n' !in a
    ensures SplitLines(a + "\n" + b) == [a] + SplitLines(b)
  {
    if a == [] {
      assert a + "\n" + b == ['\n'] + b;
      assert (['\n'] + b)[1..] == b;
    } else {
      SplitLinesCons(a[1..], b);
      assert (a + "\n" + b)[1..] == a[1..] + "\n" + b;
      assert a == [a[0]] + a[1..];
    }
  }

  /** Splitting the joined text at newlines gives the lines back when no line holds a newline. */
  lemma {:induction false} SplitJoin(lines: seq<string>)
    requires lines != []
    requires forall i :: 0 <= i < |lines| ==> '\n' !in lines[i]
    ensures SplitLines(JoinLines(lines)) == lines
  {
    if |lines| == 1 {
      SplitLinesSingle(lines[0]);
    } else {
      SplitJoin(lines[1..]);
      SplitLinesCons(lines[0], JoinLines(lines[1..]));
      assert lines == [lines[0]] + lines[1..];
    }
  }

  /** `format_hover_text(drawing_id, details, is_root, dynamic_cols)`. */
  function FormatHoverText(drawingId: string, details: map<string, string>, isRoot: bool, cols: seq<string>): string
  {
    JoinLines(HoverLines(drawingId, details, isRoot, cols))
  }

  /**
   * When neither the id, nor a column name, nor a shown value holds a newline,
   * the tooltip text is exactly its lines separated by newlines: splitting it
   * gives back the title, the blank line and the attribute lines.
   */
  lemma HoverTextSplits(drawingId: string, details: map<string, string>, isRoot: bool, cols: seq<string>)
    requires '\n' !in drawingId
    requires forall i :: 0 <= i < |cols| ==> '\n' !in cols[i]
    requires forall k :: k in details ==> '\n' !in details[k]
    ensures SplitLines(FormatHoverText(drawingId, details, isRoot, cols)) == HoverLines(drawingId, details, isRoot, cols)
  {
    HoverLinesNoNewline(drawingId, details, isRoot, cols);
    SplitJoin(HoverLines(drawingId, details, isRoot, cols));
  }

  /** An attribute line holds a newline only if its column name or value does. */
  lemma AttributeLineNoNewline(name: string, value: string)
    requires '\n' !in name && '\n' !in value
    ensures '\n' !in AttributeLine(name, value)
  {
    MakeBoldNewlines(name);
  }

  lemma HoverLinesNoNewline(drawingId: string, details: map<string, string>, isRoot: bool, cols: seq<string>)
    requires '\n' !in drawingId
    requires forall i :: 0 <= i < |cols| ==> '\n' !in cols[i]
    requires forall k :: k in details ==> '\n' !in details[k]
    ensures var lines := HoverLines(drawingId, details, isRoot, cols);
            lines != [] && forall i :: 0 <= i < |lines| ==> '\n' !in lines[i]
  {
    var lines := HoverLines(drawingId, details, isRoot, cols);
    forall i | 0 <= i < |lines|
      ensures '\n' !in lines[i]
    {
      if i == 0 {
        MakeBoldNewlines(drawingId);
      } else if i >= 2 && isRoot {
        assert '\n' !in "Relation" && '\n' !in RootRelation;
        assert '\n' !in Get(details, "Relation", RootRelation);
        AttributeLineNoNewline("Relation", Get(details, "Relation", RootRelation));
      } else if i >= 2 {
        var col := cols[i - 2];
        assert lines[i] == ColumnLines(details, cols)[i - 2];
        assert '\n' !in Unknown;
        assert '\n' !in Get(details, col, Unknown);
        AttributeLineNoNewline(col, Get(details, col, Unknown));
      }
    }
  }

  lemma JoinThree(a: string, b: string, c: string)
    ensures JoinLines([a, b, c]) == a + "\n" + b + "\n" + c
  {
    assert [a, b, c][1..] == [b, c];
    assert [b, c][1..] == [c];
    assert JoinLines([b, c]) == b + "\n" + c;
    assert JoinLines([a, b, c]) == a + "\n" + (b + "\n" + c);
    assert a + "\n" + (b + "\n" + c) == a + "\n" + b + "\n" + c;
  }

  /**
   * Tooltip of a non-root node with a single column: the bold id in
   * brackets, an empty line, then the bold column name and its value
   * (the docstring's example has the column `Relation`).
   */
  lemma SingleColumnHoverText(drawingId: string, col: string, value: string)
    ensures FormatHoverText(drawingId, map[col := value], false, [col])
            == "【" + MakeBold(drawingId) + "】" + "\n\n" + MakeBold(col) + ": " + value
  {
    var h, l := Header(drawingId), AttributeLine(col, value);
    SingleColumnLines(drawingId, col, value);
    JoinThree(h, "", l);
    assert h + "\n" + "" + "\n" + l == h + "\n\n" + l;
  }

  lemma SingleColumnLines(drawingId: string, col: string, value: string)
    ensures HoverLines(drawingId, map[col := value], false, [col]) == [Header(drawingId), "", AttributeLine(col, value)]
  {
    assert ColumnLines(map[col := value], [col]) == [AttributeLine(col, value)];
  }

  /** The bold column name `Relation` that a root's tooltip shows. */
  lemma BoldRelationExample()
    ensures MakeBold("Relation") == "𝗥𝗲𝗹𝗮𝘁𝗶𝗼𝗻"
  {
    assert MakeBold("Rela") == "𝗥𝗲𝗹𝗮" by {
      assert MakeBold("la") == "𝗹𝗮";
    }
    assert MakeBold("tion") == "𝘁𝗶𝗼𝗻" by {
      assert MakeBold("on") == "𝗼𝗻";
    }
    MakeBoldPieces("Rela", "tion", "𝗥𝗲𝗹𝗮", "𝘁𝗶𝗼𝗻", "Relation", "𝗥𝗲𝗹𝗮𝘁𝗶𝗼𝗻");
  }

  /** The bold form of the example id's first seven characters. */
  lemma BoldIdHead()
    ensures MakeBold("DE5313-") == "𝗗𝗘𝟱𝟯𝟭𝟯-"
  {
    assert MakeBold("DE53") == "𝗗𝗘𝟱𝟯" by {
      assert MakeBold("53") == "𝟱𝟯";
    }
    assert MakeBold("13-") == "𝟭𝟯-";
    MakeBoldPieces("DE53", "13-", "𝗗𝗘𝟱𝟯", "𝟭𝟯-", "DE5313-", "𝗗𝗘𝟱𝟯𝟭𝟯-");
  }

  /** The bold form of the example id's last seven characters. */
  lemma BoldIdTail()
    ensures MakeBold("008-02B") == "𝟬𝟬𝟴-𝟬𝟮𝗕"
  {
    assert MakeBold("008-") == "𝟬𝟬𝟴-" by {
      assert MakeBold("8-") == "𝟴-";
    }
    assert MakeBold("02B") == "𝟬𝟮𝗕";
    MakeBoldPieces("008-", "02B", "𝟬𝟬𝟴-", "𝟬𝟮𝗕", "008-02B", "𝟬𝟬𝟴-𝟬𝟮𝗕");
  }

  /** The bold drawing id of the docstring example of `format_hover_text`. */
  lemma BoldDrawingIdExample()
    ensures MakeBold("DE5313-008-02B") == "𝗗𝗘𝟱𝟯𝟭𝟯-𝟬𝟬𝟴-𝟬𝟮𝗕"
  {
    BoldIdHead();
    BoldIdTail();
    MakeBoldPieces("DE5313-", "008-02B", "𝗗𝗘𝟱𝟯𝟭𝟯-", "𝟬𝟬𝟴-𝟬𝟮𝗕", "DE5313-008-02B", "𝗗𝗘𝟱𝟯𝟭𝟯-𝟬𝟬𝟴-𝟬𝟮𝗕");
  }

  /** The one-column tooltip, given the bold forms of the id and of the column name. */
  lemma SingleColumnHoverTextOf(drawingId: string, boldId: string, col: string, boldCol: string, value: string, text: string)
    requires MakeBold(drawingId) == boldId && MakeBold(col) == boldCol
    requires text == "【" + boldId + "】" + "\n\n" + boldCol + ": " + value
    ensures FormatHoverText(drawingId, map[col := value], false, [col]) == text
  {
    SingleColumnHoverText(drawingId, col, value);
  }

  /** The docstring's expected text, assembled from its pieces. */
  lemma ExampleTextPieces()
    ensures "【" + "𝗗𝗘𝟱𝟯𝟭𝟯-𝟬𝟬𝟴-𝟬𝟮𝗕" + "】" + "\n\n" + "𝗥𝗲𝗹𝗮𝘁𝗶𝗼𝗻" + ": " + "流用"
            == "【𝗗𝗘𝟱𝟯𝟭𝟯-𝟬𝟬𝟴-𝟬𝟮𝗕】\n\n𝗥𝗲𝗹𝗮𝘁𝗶𝗼𝗻: 流用"
  {
  }

  /** The docstring example of `format_hover_text`, literally: a non-root node with one column. */
  lemma FormatHoverTextExample()
    ensures FormatHoverText("DE5313-008-02B", map["Relation" := "流用"], false, ["Relation"])
            == "【𝗗𝗘𝟱𝟯𝟭𝟯-𝟬𝟬𝟴-𝟬𝟮𝗕】\n\n𝗥𝗲𝗹𝗮𝘁𝗶𝗼𝗻: 流用"
  {
    BoldDrawingIdExample();
    BoldRelationExample();
    ExampleTextPieces();
    SingleColumnHoverTextOf("DE5313-008-02B", "𝗗𝗘𝟱𝟯𝟭𝟯-𝟬𝟬𝟴-𝟬𝟮𝗕", "Relation", "𝗥𝗲𝗹𝗮𝘁𝗶𝗼𝗻", "流用",
                            "【𝗗𝗘𝟱𝟯𝟭𝟯-𝟬𝟬𝟴-𝟬𝟮𝗕】\n\n𝗥𝗲𝗹𝗮𝘁𝗶𝗼𝗻: 流用");
  }
}
