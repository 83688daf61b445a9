/**
 * The text the tree-list page produces: the emoji per tree type, the "n trees" label, and
 * the CSV and GPX export documents. Number and date rendering are parameters
 * (`showCoord`, `showDate`), because floating-point printing is outside the model.
 */
module Export {
  import opened Common
  import opened Text
  import opened Store

  const DefaultEmoji: string := "🌳"

  /** `getTreeEmoji`: the emoji table, with the tree emoji for every unlisted type. */
  function TreeEmoji(kind: string): (e: string)
    ensures e in {"🍎", "🍐", "🍒", "🍑", "🍋", "🍊", DefaultEmoji}
    ensures e == DefaultEmoji <==> kind !in {"Apple", "Pear", "Cherry", "Plum", "Peach", "Lemon", "Orange"}
    ensures e == "🍑" <==> kind == "Plum" || kind == "Peach"
    ensures (e == "🍎" <==> kind == "Apple") && (e == "🍐" <==> kind == "Pear") && (e == "🍒" <==> kind == "Cherry")
    ensures (e == "🍋" <==> kind == "Lemon") && (e == "🍊" <==> kind == "Orange")
  {
    var table := map[
      "Apple" := "🍎", "Pear" := "🍐", "Cherry" := "🍒", "Plum" := "🍑",
      "Peach" := "🍑", "Lemon" := "🍋", "Orange" := "🍊", "Other" := "🌳"];
    if kind in table then table[kind] else DefaultEmoji
  }

  /** The tree-count label of the list page: empty for no trees, then "1 tree", "2 trees", ... */
  function CountLabel(n: nat): (r: string)
    ensures r == "" <==> n == 0
    ensures n > 0 ==> HasPrefix(r, Decimal(n))
    ensures n > 0 ==> r[|Decimal(n)|..] == if n == 1 then " tree" else " trees"
  {
    if n == 0 then "" else Decimal(n) + " tree" + (if n != 1 then "s" else "")
  }

  /** The label's leading digits read back as the number of trees. */
  lemma CountLabelReadsBack(n: nat)
    requires n > 0
    ensures var d := Decimal(n);
      && (forall i :: 0 <= i < |d| ==> '0' <= CountLabel(n)[i] <= '9')
      && ParseDecimal(CountLabel(n)[..|d|]) == n
  {
    ParseDecimalOfDecimal(n);
  }

  // ----- CSV -----

  /** `s.replace(/"/g, '""')`. */
  function DoubleQuotes(s: string): (r: string)
    ensures |r| == |s| + multiset(s)['"']
  {
    if s == [] then []
    else
      assert multiset(s) == multiset([s[0]]) + multiset(s[1..]) by {
        assert s == [s[0]] + s[1..];
      }
      (if s[0] == '"' then "\"\"" else [s[0]]) + DoubleQuotes(s[1..])
  }

  /** The inverse reading of a quoted CSV field's inside: `""` is one quote, a lone quote is an error. */
  function UndoubleQuotes(s: string): Option<string>
    decreases |s|
  {
    if s == [] then Some([])
    else if s[0] != '"' then
      match UndoubleQuotes(s[1..])
      case Some(rest) => Some([s[0]] + rest)
      case None => None
    else if |s| >= 2 && s[1] == '"' then
      match UndoubleQuotes(s[2..])
      case Some(rest) => Some("\"" + rest)
      case None => None
    else None
  }

  /** Undoubling recovers exactly the text that was doubled. */
  lemma {:induction false} UndoubleDoubleQuotes(s: string)
    ensures UndoubleQuotes(DoubleQuotes(s)) == Some(s)
  {
    if s != [] {
      UndoubleDoubleQuotes(s[1..]);
      var d := DoubleQuotes(s);
      if s[0] == '"' {
        assert d == "\"\"" + DoubleQuotes(s[1..]);
        assert d[2..] == DoubleQuotes(s[1..]);
      } else {
        assert d == [s[0]] + DoubleQuotes(s[1..]);
        assert d[1..] == DoubleQuotes(s[1..]);
      }
      assert [s[0]] + s[1..] == s;
    }
  }

  /** A field wrapped in quotes; the inside is read with `UndoubleQuotes`. */
  function UnquoteField(f: string): Option<string> {
    if |f| >= 2 && f[0] == '"' && f[|f| - 1] == '"' then UndoubleQuotes(f[1..|f| - 1]) else None
  }

  /** `"${(text).replace(/"/g, '""')}"`: a quoted CSV field. */
  function QuotedField(s: string): (f: string)
    ensures UnquoteField(f) == Some(s)
  {
    var f := "\"" + DoubleQuotes(s) + "\"";
    assert f[1..|f| - 1] == DoubleQuotes(s);
    UndoubleDoubleQuotes(s);
    f
  }

  const CsvHeader: seq<string> := ["Type", "Description", "Latitude", "Longitude", "Date Added"]

  /** `headers.join(",")`, the first line of the file. */
  const CsvHeaderLine: string := Join(CsvHeader, ",")

  /** The header line holds no line break, so it stays one line of the file. */
  lemma CsvHeaderLineIsOneLine()
    ensures '\n' !in CsvHeaderLine
  {
    JoinAvoids(CsvHeader, ",", '\n');
  }

  /** The type column as the export writes it: quotes around the text, inner quotes not doubled. */
  function KindFieldAsWritten(kind: string): string {
    "\"" + kind + "\""
  }

  /** A type containing a quote does not read back from the as-written type column. */
  lemma KindFieldAsWrittenLosesQuotes()
    ensures UnquoteField(KindFieldAsWritten("a\"b")) != Some("a\"b")
  {
    var f := KindFieldAsWritten("a\"b");
    assert f[1..|f| - 1] == "a\"b";
    assert UndoubleQuotes("\"b") == None;
    assert UndoubleQuotes("a\"b") == None;
  }

  /** A text without quotes is left as it is by quote doubling. */
  lemma {:induction false} DoubleQuotesWithoutQuotes(s: string)
    requires '"' !in s
    ensures DoubleQuotes(s) == s
  {
    if s != [] {
      assert s[0] in s;
      assert forall c :: c in s[1..] ==> c in s;
      DoubleQuotesWithoutQuotes(s[1..]);
      assert [s[0]] + s[1..] == s;
    }
  }

  /** One CSV row as `exportToCSV` writes it: the type quoted as it is, the description quoted and escaped. */
  function CsvRow(t: Tree, showCoord: Coord -> string, showDate: string -> string): (row: seq<string>)
    ensures |row| == |CsvHeader|
    ensures row[0] == KindFieldAsWritten(t.kind) && UnquoteField(row[1]) == Some(t.name)
    ensures row[2..] == [showCoord(t.lat), showCoord(t.lng), showDate(t.date)]
  {
    [KindFieldAsWritten(t.kind), QuotedField(t.name), showCoord(t.lat), showCoord(t.lng), showDate(t.date)]
  }

  /** The row with the type escaped like the description, so that both text fields read back. */
  function CorrectedCsvRow(t: Tree, showCoord: Coord -> string, showDate: string -> string): (row: seq<string>)
    ensures |row| == |CsvHeader|
    ensures UnquoteField(row[0]) == Some(t.kind) && UnquoteField(row[1]) == Some(t.name)
    ensures row[1..] == CsvRow(t, showCoord, showDate)[1..]
  {
    [QuotedField(t.kind)] + CsvRow(t, showCoord, showDate)[1..]
  }

  /** For a type without quotes the correction changes nothing, and the written type field reads back. */
  lemma CorrectionOnlyForQuotes(t: Tree, showCoord: Coord -> string, showDate: string -> string)
    requires '"' !in t.kind
    ensures CorrectedCsvRow(t, showCoord, showDate) == CsvRow(t, showCoord, showDate)
    ensures UnquoteField(CsvRow(t, showCoord, showDate)[0]) == Some(t.kind)
  {
    DoubleQuotesWithoutQuotes(t.kind);
  }

  /** `trees.map(tree => [...])`: one row per tree, in stored order. */
  function CsvRows(trees: seq<Tree>, showCoord: Coord -> string, showDate: string -> string): (rows: seq<seq<string>>)
    ensures |rows| == |trees|
    ensures forall i :: 0 <= i < |trees| ==> rows[i] == CsvRow(trees[i], showCoord, showDate)
  {
    seq(|trees|, i requires 0 <= i < |trees| => CsvRow(trees[i], showCoord, showDate))
  }

  /** The corrected rows: every type and description field reads back as the tree's own. */
  function CorrectedCsvRows(trees: seq<Tree>, showCoord: Coord -> string, showDate: string -> string): (rows: seq<seq<string>>)
    ensures |rows| == |trees|
    ensures forall i :: 0 <= i < |trees| ==>
              && |rows[i]| == |CsvHeader|
              && UnquoteField(rows[i][0]) == Some(trees[i].kind)
              && UnquoteField(rows[i][1]) == Some(trees[i].name)
              && rows[i][1..] == CsvRows(trees, showCoord, showDate)[i][1..]
  {
    seq(|trees|, i requires 0 <= i < |trees| => CorrectedCsvRow(trees[i], showCoord, showDate))
  }

  /** `[headers, ...rows].map(e => e.join(","))`: the header line, then one line per row. */
  function CsvLines(rows: seq<seq<string>>): (lines: seq<string>)
    ensures |lines| == |rows| + 1
    ensures lines[0] == CsvHeaderLine
    ensures forall i :: 0 <= i < |rows| ==> lines[i + 1] == Join(rows[i], ",")
  {
    [CsvHeaderLine] + seq(|rows|, i requires 0 <= i < |rows| => Join(rows[i], ","))
  }

  /** The lines joined by newlines, or no document when there are no rows. */
  function CsvDocument(rows: seq<seq<string>>): (doc: Option<string>)
    ensures doc.None? <==> rows == []
    ensures doc.Some? ==> doc.value == Join(CsvLines(rows), "\n")
  {
    if rows == [] then None else Some(Join(CsvLines(rows), "\n"))
  }

  /** With no line break in any field, the document splits back into exactly its lines. */
  lemma CsvLineCount(rows: seq<seq<string>>)
    requires rows != []
    requires forall i :: 0 <= i < |rows| ==> '\n' !in Join(rows[i], ",")
    ensures Split(CsvDocument(rows).value, '\n') == CsvLines(rows)
    ensures |Split(CsvDocument(rows).value, '\n')| == |rows| + 1
  {
    var lines := CsvLines(rows);
    forall k | 0 <= k < |lines| ensures '\n' !in lines[k] {
      if k > 0 {
        assert lines[k] == Join(rows[k - 1], ",");
      } else {
        CsvHeaderLineIsOneLine();
      }
    }
    SplitJoin(lines, '\n');
  }

  // ----- GPX -----

  const GpxHeader: string :=
    "<?xml version=\"1.0\" encoding=\"UTF-8\"?>\n"
    + "<gpx version=\"1.1\" creator=\"Fruit Tree Map\" xmlns=\"http://www.topografix.com/GPX/1/1\">\n"
  const GpxFooter: string := "</gpx>"

  /** One waypoint: the tree's type as `<name>`, its name (or '') as `<desc>`. */
  function WptElement(t: Tree, showCoord: Coord -> string): (w: string)
    ensures HasPrefix(w, "  <wpt lat=\"" + showCoord(t.lat) + "\" lon=\"" + showCoord(t.lng) + "\">\n")
    ensures |w| >= 9 && w[|w| - 9..] == "  </wpt>\n"
  {
    "  <wpt lat=\"" + showCoord(t.lat) + "\" lon=\"" + showCoord(t.lng) + "\">\n"
    + "    <name>" + t.kind + "</name>\n"
    + "    <desc>" + t.name + "</desc>\n"
    + "  </wpt>\n"
  }

  /** Concatenation of a list of strings. */
  function Concat(parts: seq<string>): string {
    if parts == [] then "" else Concat(parts[..|parts| - 1]) + parts[|parts| - 1]
  }

  lemma {:induction false} ConcatAppend(a: seq<string>, b: seq<string>)
    ensures Concat(a + b) == Concat(a) + Concat(b)
    decreases |b|
  {
    if b == [] {
      assert a + b == a;
    } else {
      var b' := b[..|b| - 1];
      assert (a + b)[..|a + b| - 1] == a + b';
      ConcatAppend(a, b');
    }
  }

  /** The waypoint elements of `trees`, one per tree, in stored order. */
  function Waypoints(trees: seq<Tree>, showCoord: Coord -> string): (ws: seq<string>)
    ensures |ws| == |trees|
    ensures forall i :: 0 <= i < |trees| ==> ws[i] == WptElement(trees[i], showCoord)
  {
    seq(|trees|, i requires 0 <= i < |trees| => WptElement(trees[i], showCoord))
  }

  /** The document body: the waypoint elements concatenated. */
  function GpxBody(trees: seq<Tree>, showCoord: Coord -> string): string {
    Concat(Waypoints(trees, showCoord))
  }

  /** Tree `i` contributes exactly one waypoint, between those of the trees before and after it. */
  lemma GpxBodyAt(trees: seq<Tree>, i: nat, showCoord: Coord -> string)
    requires i < |trees|
    ensures GpxBody(trees, showCoord)
         == GpxBody(trees[..i], showCoord) + WptElement(trees[i], showCoord) + GpxBody(trees[i + 1..], showCoord)
  {
    var ws := Waypoints(trees, showCoord);
    assert ws == Waypoints(trees[..i], showCoord) + [ws[i]] + Waypoints(trees[i + 1..], showCoord);
    ConcatAppend(Waypoints(trees[..i], showCoord) + [ws[i]], Waypoints(trees[i + 1..], showCoord));
    ConcatAppend(Waypoints(trees[..i], showCoord), [ws[i]]);
    assert [ws[i]][..0] == [];
  }

  /** `exportToGPX`'s string building: the header, `gpx +=` once per tree, then the footer. */
  method GpxText(trees: seq<Tree>, showCoord: Coord -> string) returns (gpx: string)
    ensures gpx == GpxHeader + GpxBody(trees, showCoord) + GpxFooter
  {
    gpx := GpxHeader;
    for i := 0 to |trees|
      invariant gpx == GpxHeader + GpxBody(trees[..i], showCoord)
    {
      assert Waypoints(trees[..i + 1], showCoord)[..i] == Waypoints(trees[..i], showCoord);
      gpx := gpx + WptElement(trees[i], showCoord);
    }
    assert trees[..|trees|] == trees;
    gpx := gpx + GpxFooter;
  }
}
