/** The presentation rules of execcheck/formatter.py: the table's columns,
    value truncation, the colour tier of a row, the text of each cell, and
    the column order of CSV output. */
module Formatter {

  import opened Values
  import opened Text
  import opened Numerals
  import Cli

  /** The columns of the terminal table, in display order. */
  const ColumnOrder: seq<string> := ["risk_score", "score_trace", "file_identifier", "responsible_file_identifier", "origin_url"]

  /** The table width of one cell. */
  const CellWidth: nat := 50

  lemma ColumnOrderDistinct()
    ensures forall i, j :: 0 <= i < j < |ColumnOrder| ==> ColumnOrder[i] != ColumnOrder[j]
  {
    assert ColumnOrder[0][0] != ColumnOrder[4][0];
  }

  // ---------------------------------------------------------------------
  // truncate (lines 24-27)

  /** `truncate(val, width)`: short values unchanged, long ones cut to
      `width - 3` characters followed by "...", so exactly `width` long. */
  function Truncate(val: string, width: int): (r: string)
    requires width >= 3
    ensures |r| <= width
    ensures |val| <= width ==> r == val
    ensures |val| > width ==> |r| == width && r[..width - 3] == val[..width - 3] && r[width - 3..] == "..."
  {
    if |val| <= width then val else val[..width - 3] + "..."
  }

  /** Truncating twice is truncating once. */
  lemma TruncateIdempotent(val: string, width: int)
    requires width >= 3
    ensures Truncate(Truncate(val, width), width) == Truncate(val, width)
  {
  }

  /** What survives of the value is always a prefix of it. */
  lemma TruncateKeepsPrefix(val: string, width: int)
    requires width >= 3
    ensures var r := Truncate(val, width);
      var kept := if |val| <= width then |val| else width - 3;
      r[..kept] == val[..kept] && (kept < |r| ==> r[kept..] == "...")
  {
  }

  // ---------------------------------------------------------------------
  // The colour of a row (lines 38-40, 55-64)

  datatype Color = Red | Yellow | White

  /** The Rich style name of a colour. */
  function ColorName(c: Color): string
  {
    match c
    case Red => "red"
    case Yellow => "yellow"
    case White => "white"
  }

  /** The colour tier of a risk score. */
  function ColorFor(risk: int, yellow: int, red: int): (c: Color)
    ensures c == Red <==> risk >= red
    ensures c == Yellow <==> risk < red && risk >= yellow
    ensures c == White <==> risk < red && risk < yellow
  {
    if risk >= red then Red
    else if risk >= yellow then Yellow
    else White
  }

  /** With thresholds in order, the colours agree with the risk-tier
      filter of the driver: red rows are the "high" tier, yellow rows the
      "med" tier and white rows the "low" tier. */
  lemma ColorMatchesTier(risk: int, yellow: int, red: int)
    requires yellow <= red
    ensures ColorFor(risk, yellow, red) == Red <==> Cli.InTier(risk, Cli.High, yellow, red)
    ensures ColorFor(risk, yellow, red) == Yellow <==> Cli.InTier(risk, Cli.Med, yellow, red)
    ensures ColorFor(risk, yellow, red) == White <==> Cli.InTier(risk, Cli.Low, yellow, red)
  {
  }

  /** `row.get("risk_score", 0)`, with a digit string read as an integer
      and a boolean compared as 0 or 1; None where comparing the value
      with a threshold would raise. */
  function RiskOf(row: Row): Option<int>
  {
    if "risk_score" !in row then Some(0)
    else match row["risk_score"]
      case Int(i) => Some(i)
      case Bool(b) => Some(if b then 1 else 0)
      case Str(s) => if IsDigitString(s) then Some(DecimalValue(s)) else None
      case _ => None
  }

  /** An integer score is read as the same number the driver sorts by. */
  lemma RiskOfScore(row: Row)
    requires Cli.RiskSortable(row)
    ensures RiskOf(row) == Some(Cli.RiskKey(row))
  {
  }

  /** A score written out in decimal reads back as the same score. */
  lemma RiskOfDecimalText(row: Row, n: nat)
    requires "risk_score" in row && row["risk_score"] == Str(Decimal(n))
    ensures RiskOf(row) == Some(n)
  {
    DecimalRoundTrip(n);
  }

  // ---------------------------------------------------------------------
  // The text of one cell (lines 66-81)

  /** `row.get(col, "")`. */
  function CellValue(row: Row, col: string): Value
  {
    if col in row then row[col] else Str("")
  }

  /** `str(val)`, after a list has been joined with ", ". */
  function CellString(v: Value): string
  {
    match v
    case List(xs) => Join(xs, ", ")
    case _ => ValueText(v)
  }

  /** A value that renders as the bare word "None". */
  predicate EmptyCell(v: Value)
  {
    v == Null || v == Str("")
  }

  /** The cell text: "None" for an empty cell; otherwise the truncated text,
      left alone when it already holds both `[` and `]` and wrapped in the
      row's colour tags when it does not. */
  function CellText(v: Value, color: Color): string
  {
    if EmptyCell(v) then "None"
    else
      var t := Truncate(CellString(v), CellWidth);
      if '[' in t && ']' in t then t else "[" + ColorName(color) + "]" + t + "[/" + ColorName(color) + "]"
  }

  /** A cell is the plain word "None" exactly when its value is None, the
      empty string or missing from the row. */
  lemma NoneCell(row: Row, col: string, color: Color)
    ensures CellText(CellValue(row, col), color) == "None" <==>
              col !in row || row[col] == Null || row[col] == Str("")
  {
    var v := CellValue(row, col);
    if !EmptyCell(v) {
      var t := Truncate(CellString(v), CellWidth);
      var r := CellText(v, color);
      if '[' in t && ']' in t {
        assert '[' in r;
        assert '[' !in "None";
      } else {
        assert r[0] == '[';
      }
    }
  }

  /** Every other cell carries markup: it came with both brackets or is
      wrapped in the row's colour tags, around at most 50 characters of the
      value's text. */
  lemma StyledCell(v: Value, color: Color)
    requires !EmptyCell(v)
    ensures '[' in CellText(v, color) && ']' in CellText(v, color)
    ensures |Truncate(CellString(v), CellWidth)| <= CellWidth
  {
    var t := Truncate(CellString(v), CellWidth);
    if !('[' in t && ']' in t) {
      var open := "[" + ColorName(color) + "]";
      var r := open + t + "[/" + ColorName(color) + "]";
      assert r[0] == '[' && r[|open| - 1] == ']';
    }
  }

  /** A cell that is not empty shows its truncated text: as it is when the
      text already has both brackets, and otherwise between the opening and
      closing tags of the row's colour. */
  lemma CellShape(v: Value, color: Color)
    requires !EmptyCell(v)
    ensures var t := Truncate(CellString(v), CellWidth);
      && ('[' in t && ']' in t ==> CellText(v, color) == t)
      && (!('[' in t && ']' in t) ==>
            CellText(v, color) == "[" + ColorName(color) + "]" + t + "[/" + ColorName(color) + "]")
  {
  }

  /** Styling is a fixed point: a rendered cell that fits the width is left
      exactly as it is when rendered again, in any colour. */
  lemma RestyleIsNoOp(v: Value, color: Color, again: Color)
    requires !EmptyCell(v) && |CellText(v, color)| <= CellWidth
    ensures CellText(Str(CellText(v, color)), again) == CellText(v, color)
  {
    StyledCell(v, color);
    var r := CellText(v, color);
    assert r != "";
    assert CellString(Str(r)) == r;
    assert Truncate(r, CellWidth) == r;
  }

  /** The colour of a row whose score can be compared. */
  function RowColor(row: Row, yellow: int, red: int): Color
    requires RiskOf(row).Some?
  {
    ColorFor(RiskOf(row).value, yellow, red)
  }

  /** The loop of `output_table` over the columns for one row: one cell per
      column, in column order. */
  method RenderRow(row: Row, yellow: int, red: int) returns (values: seq<string>)
    requires RiskOf(row).Some?
    ensures |values| == |ColumnOrder|
    ensures forall i :: 0 <= i < |ColumnOrder| ==> values[i] == CellText(CellValue(row, ColumnOrder[i]), RowColor(row, yellow, red))
  {
    var risk := if "risk_score" in row then row["risk_score"] else Int(0);
    var score: int;
    if risk.Str? && IsDigitString(risk.s) {
      score := DecimalValue(risk.s);
    } else if risk.Int? {
      score := risk.i;
    } else {
      score := if risk.b then 1 else 0;
    }
    var color;
    if score >= red {
      color := Red;
    } else if score >= yellow {
      color := Yellow;
    } else {
      color := White;
    }
    assert color == RowColor(row, yellow, red);

    values := [];
    for i := 0 to |ColumnOrder|
      invariant |values| == i
      invariant forall j :: 0 <= j < i ==> values[j] == CellText(CellValue(row, ColumnOrder[j]), color)
    {
      var col := ColumnOrder[i];
      var val := if col in row then row[col] else Str("");
      // Each branch of the source appends one cell; `cell` is that cell.
      var cell: string;
      if val == Null || val == Str("") {
        cell := "None";
      } else {
        var text := if val.List? then Join(val.items, ", ") else ValueText(val);
        text := Truncate(text, CellWidth);
        if '[' in text && ']' in text {
          cell := text;
        } else {
          cell := "[" + ColorName(color) + "]" + text + "[/" + ColorName(color) + "]";
        }
      }
      assert cell == CellText(CellValue(row, col), color);
      values := values + [cell];
    }
  }

  // ---------------------------------------------------------------------
  // The CSV column order (lines 106-107)

  /** `set().union(*[row.keys() for row in data])`. */
  function KeyUnion(rows: seq<Row>): set<string>
  {
    if rows == [] then {} else KeyUnion(rows[..|rows| - 1]) + rows[|rows| - 1].Keys
  }

  /** `[col for col in cols if col in keys]`. */
  function PresentColumns(cols: seq<string>, keys: set<string>): seq<string>
  {
    if cols == [] then []
    else PresentColumns(cols[..|cols| - 1], keys) + (if cols[|cols| - 1] in keys then [cols[|cols| - 1]] else [])
  }

  /** A key is in the union exactly when some row has it. */
  lemma {:induction false} KeyUnionMembers(rows: seq<Row>)
    ensures forall k :: k in KeyUnion(rows) <==> exists i :: 0 <= i < |rows| && k in rows[i]
  {
    if rows != [] {
      var init := rows[..|rows| - 1];
      KeyUnionMembers(init);
      forall k | k in KeyUnion(rows)
        ensures exists i :: 0 <= i < |rows| && k in rows[i]
      {
        if k in KeyUnion(init) {
          var i :| 0 <= i < |init| && k in init[i];
          assert rows[i] == init[i];
        }
      }
      forall k | exists i :: 0 <= i < |rows| && k in rows[i]
        ensures k in KeyUnion(rows)
      {
        var i :| 0 <= i < |rows| && k in rows[i];
        if i < |init| {
          assert init[i] == rows[i];
        }
      }
    }
  }

  /** The present columns are the columns that are keys, each once when
      the columns are distinct, and no more of them than columns. */
  lemma PresentColumnsFacts(cols: seq<string>, keys: set<string>)
    ensures forall k :: k in PresentColumns(cols, keys) <==> k in cols && k in keys
    ensures |PresentColumns(cols, keys)| <= |cols|
    ensures (forall i, j :: 0 <= i < j < |cols| ==> cols[i] != cols[j]) ==>
              forall i, j :: 0 <= i < j < |PresentColumns(cols, keys)| ==> PresentColumns(cols, keys)[i] != PresentColumns(cols, keys)[j]
  {
    PresentColumnsMembers(cols, keys);
    if forall i, j :: 0 <= i < j < |cols| ==> cols[i] != cols[j] {
      PresentColumnsDistinct(cols, keys);
    }
  }

  /** The present columns are the listed columns that are keys, and no more
      of them than the list has. */
  lemma {:induction false} PresentColumnsMembers(cols: seq<string>, keys: set<string>)
    ensures forall k :: k in PresentColumns(cols, keys) <==> k in cols && k in keys
    ensures |PresentColumns(cols, keys)| <= |cols|
  {
    if cols != [] {
      var init, last := cols[..|cols| - 1], cols[|cols| - 1];
      PresentColumnsMembers(init, keys);
      assert cols == init + [last];
      var before := PresentColumns(init, keys);
      var extra := if last in keys then [last] else [];
      assert PresentColumns(cols, keys) == before + extra;
    }
  }

  /** A column list without repeats gives present columns without repeats. */
  lemma {:induction false} PresentColumnsDistinct(cols: seq<string>, keys: set<string>)
    requires forall i, j :: 0 <= i < j < |cols| ==> cols[i] != cols[j]
    ensures forall i, j :: 0 <= i < j < |PresentColumns(cols, keys)| ==> PresentColumns(cols, keys)[i] != PresentColumns(cols, keys)[j]
  {
    if cols != [] {
      var init, last := cols[..|cols| - 1], cols[|cols| - 1];
      assert forall i, j :: 0 <= i < j < |init| ==> init[i] != init[j] by {
        forall i, j | 0 <= i < j < |init|
          ensures init[i] != init[j]
        {
          assert init[i] == cols[i] && init[j] == cols[j];
        }
      }
      PresentColumnsDistinct(init, keys);
      PresentColumnsMembers(init, keys);
      assert last !in init by {
        forall i | 0 <= i < |init|
          ensures init[i] != last
        {
          assert init[i] == cols[i];
        }
      }
      var before := PresentColumns(init, keys);
      var extra := if last in keys then [last] else [];
      assert PresentColumns(cols, keys) == before + extra;
      assert last !in before;
    }
  }

  /** The present columns keep the order of the column list. */
  lemma {:induction false} PresentColumnsConcat(a: seq<string>, b: seq<string>, keys: set<string>)
    ensures PresentColumns(a + b, keys) == PresentColumns(a, keys) + PresentColumns(b, keys)
    decreases |b|
  {
    if b == [] {
      assert a + b == a;
    } else {
      var init := b[..|b| - 1];
      assert (a + b)[..|a + b| - 1] == a + init;
      assert (a + b)[|a + b| - 1] == b[|b| - 1];
      PresentColumnsConcat(a, init, keys);
    }
  }

  /** `ordered_keys`: the table columns that occur in some row, in column
      order, then every other key of the rows, once each, in the set's
      iteration order. */
  method OrderedKeys(rows: seq<Row>) returns (keys: seq<string>)
    ensures |keys| >= |PresentColumns(ColumnOrder, KeyUnion(rows))|
    ensures keys[..|PresentColumns(ColumnOrder, KeyUnion(rows))|] == PresentColumns(ColumnOrder, KeyUnion(rows))
    ensures forall i :: |PresentColumns(ColumnOrder, KeyUnion(rows))| <= i < |keys| ==> keys[i] !in ColumnOrder
    ensures forall k :: k in keys <==> k in KeyUnion(rows)
    ensures forall i, j :: 0 <= i < j < |keys| ==> keys[i] != keys[j]
  {
    var allKeys := KeyUnion(rows);
    keys := [];
    for i := 0 to |ColumnOrder|
      invariant keys == PresentColumns(ColumnOrder[..i], allKeys)
    {
      assert ColumnOrder[..i + 1][..i] == ColumnOrder[..i];
      if ColumnOrder[i] in allKeys {
        keys := keys + [ColumnOrder[i]];
      }
    }
    assert ColumnOrder[..|ColumnOrder|] == ColumnOrder;
    var front := keys;
    ColumnOrderDistinct();
    PresentColumnsFacts(ColumnOrder, allKeys);
    keys := AppendOtherKeys(front, allKeys);
  }

  /** The second comprehension of `ordered_keys`, over the key set in its
      iteration order, appended to the present columns. */
  method AppendOtherKeys(front: seq<string>, allKeys: set<string>) returns (keys: seq<string>)
    requires forall i, j :: 0 <= i < j < |front| ==> front[i] != front[j]
    requires forall k :: k in front <==> k in ColumnOrder && k in allKeys
    ensures |keys| >= |front| && keys[..|front|] == front
    ensures forall i :: |front| <= i < |keys| ==> keys[i] !in ColumnOrder
    ensures forall k :: k in keys <==> k in allKeys
    ensures forall i, j :: 0 <= i < j < |keys| ==> keys[i] != keys[j]
  {
    keys := front;
    var rest := allKeys;
    while rest != {}
      invariant rest <= allKeys
      invariant |keys| >= |front| && keys[..|front|] == front
      invariant forall i :: |front| <= i < |keys| ==> keys[i] !in ColumnOrder && keys[i] in allKeys - rest
      invariant forall k :: k in allKeys - rest && k !in ColumnOrder ==> k in keys
      invariant forall k :: k in keys ==> k in allKeys
      invariant forall i, j :: 0 <= i < j < |keys| ==> keys[i] != keys[j]
      decreases |rest|
    {
      var k :| k in rest;
      if k !in ColumnOrder {
        forall m | 0 <= m < |keys|
          ensures keys[m] != k
        {
          if m < |front| {
            assert keys[m] == front[m];
          }
        }
        keys := keys + [k];
      }
      rest := rest - {k};
    }
  }
}
