/**
 * Segmentation of uploaded documents into labelled text sections
 * (app/services/parser.py). The PDF and DOCX readers are replaced by what
 * they return: per PDF page, the table grids, the number of tables whose
 * bounding boxes were found and the optional page text; per DOCX file, the
 * table grids and the paragraph texts. The plain-text reader is replaced by
 * the file's content.
 */
module Parser {
  import opened Wrappers
  import opened Text

  /** A table cell as the PDF reader gives it: `None` for an empty cell. */
  type Cell = Option<string>

  /** A table as a list of rows. */
  type Table = seq<seq<Cell>>

  /** What the PDF reader yields for one page. `boxes` counts the tables it
      locates geometrically; the source only asks for them when `tables` is
      non-empty. */
  datatype PdfPage = PdfPage(tables: seq<Table>, boxes: nat, text: Option<string>)

  /** What the DOCX reader yields: table grids of cell texts and paragraph texts. */
  datatype DocxContent = DocxContent(tables: seq<seq<seq<string>>>, paragraphs: seq<string>)

  // ---------------------------------------------------------------------
  // Tables as text
  // ---------------------------------------------------------------------

  /** A cell's text: stripped, and `""` for a missing cell. */
  function CellText(c: Cell): string {
    match c
    case None => ""
    case Some(s) => Strip(s)
  }

  /** One row of a table as one line: its cell texts joined by `" | "`. */
  function RowLine(row: seq<Cell>): string {
    Join(seq(|row|, k requires 0 <= k < |row| => CellText(row[k])), " | ")
  }

  /** The line of every row, in row order. */
  function TableLines(table: Table): (r: seq<string>)
    ensures |r| == |table|
  {
    seq(|table|, j requires 0 <= j < |table| => RowLine(table[j]))
  }

  /** The text of a table: its row lines joined by line breaks. */
  function TableText(table: Table): string {
    Join(TableLines(table), "\n")
  }

  /** The text of a table: one line per row, the rows joined by line
      breaks. */
  method TableToText(table: Table) returns (text: string)
    ensures text == TableText(table)
  {
    var lines: seq<string> := [];
    var j := 0;
    while j < |table|
      invariant 0 <= j <= |table|
      invariant lines == TableLines(table)[..j]
    {
      lines := lines + [RowLine(table[j])];
      j := j + 1;
    }
    assert lines == TableLines(table);
    text := Join(lines, "\n");
  }

  /** Each row of a table is exactly one line of its text, in order, when no
      cell holds a line break of its own. */
  lemma TableTextRows(table: Table)
    requires |table| >= 1
    requires forall j, k :: 0 <= j < |table| && 0 <= k < |table[j]| ==> '\n' !in CellText(table[j][k])
    ensures Split(TableText(table), "\n") == TableLines(table)
  {
    var lines := TableLines(table);
    forall l | l in lines ensures '\n' !in l {
      var j :| 0 <= j < |lines| && lines[j] == l;
      var cells := seq(|table[j]|, k requires 0 <= k < |table[j]| => CellText(table[j][k]));
      forall p | p in cells ensures '\n' !in p {
        var k :| 0 <= k < |cells| && cells[k] == p;
      }
      JoinAvoids(cells, " | ", '\n');
    }
    SplitJoin(lines, '\n');
  }

  // ---------------------------------------------------------------------
  // Cell texts of a page and de-duplication of its free text
  // ---------------------------------------------------------------------

  /** The non-empty stripped cell texts of a row. */
  function RowCellSet(row: seq<Cell>): set<string>
    decreases |row|
  {
    if row == [] then {}
    else
      var t := CellText(row[|row| - 1]);
      RowCellSet(row[..|row| - 1]) + (if t != "" then {t} else {})
  }

  /** The non-empty stripped cell texts of a table. */
  function TableCellSet(table: Table): set<string>
    decreases |table|
  {
    if table == [] then {}
    else TableCellSet(table[..|table| - 1]) + RowCellSet(table[|table| - 1])
  }

  /** The non-empty stripped cell texts of all tables of a page
      (`table_texts`). */
  function CellSet(tables: seq<Table>): set<string>
    decreases |tables|
  {
    if tables == [] then {}
    else CellSet(tables[..|tables| - 1]) + TableCellSet(tables[|tables| - 1])
  }

  lemma {:induction false} RowCellSetMembers(row: seq<Cell>, t: string)
    ensures t in RowCellSet(row) <==> t != "" && exists k :: 0 <= k < |row| && CellText(row[k]) == t
    decreases |row|
  {
    if row != [] {
      RowCellSetMembers(row[..|row| - 1], t);
      var init := row[..|row| - 1];
      if exists k :: 0 <= k < |init| && CellText(init[k]) == t {
        var k :| 0 <= k < |init| && CellText(init[k]) == t;
        assert row[k] == init[k];
      }
      if t != "" && exists k :: 0 <= k < |row| && CellText(row[k]) == t {
        var k :| 0 <= k < |row| && CellText(row[k]) == t;
        if k < |row| - 1 {
          assert row[..|row| - 1][k] == row[k];
        }
      }
    }
  }

  lemma {:induction false} TableCellSetMembers(table: Table, t: string)
    ensures t in TableCellSet(table) <==>
      t != "" && exists j, k :: 0 <= j < |table| && 0 <= k < |table[j]| && CellText(table[j][k]) == t
    decreases |table|
  {
    if table != [] {
      var init := table[..|table| - 1];
      var last := table[|table| - 1];
      TableCellSetMembers(init, t);
      RowCellSetMembers(last, t);
      if t in TableCellSet(table) {
        if t in TableCellSet(init) {
          var j, k :| 0 <= j < |init| && 0 <= k < |init[j]| && CellText(init[j][k]) == t;
          assert table[j] == init[j];
        } else {
          var k :| 0 <= k < |last| && CellText(last[k]) == t;
          assert CellText(table[|table| - 1][k]) == t;
        }
      }
      if t != "" && exists j, k :: 0 <= j < |table| && 0 <= k < |table[j]| && CellText(table[j][k]) == t {
        var j, k :| 0 <= j < |table| && 0 <= k < |table[j]| && CellText(table[j][k]) == t;
        if j < |table| - 1 {
          assert init[j] == table[j];
        }
      }
    }
  }

  /** A text is among a page's table cell texts exactly when it is the
      stripped, non-empty text of some cell of some table of the page. */
  lemma {:induction false} CellSetMembers(tables: seq<Table>, t: string)
    ensures t in CellSet(tables) <==>
      t != "" && exists i, j, k :: 0 <= i < |tables| && 0 <= j < |tables[i]| && 0 <= k < |tables[i][j]| && CellText(tables[i][j][k]) == t
    decreases |tables|
  {
    if tables != [] {
      var init := tables[..|tables| - 1];
      var last := tables[|tables| - 1];
      CellSetMembers(init, t);
      TableCellSetMembers(last, t);
      if t in CellSet(tables) {
        if t in CellSet(init) {
          var i, j, k :| 0 <= i < |init| && 0 <= j < |init[i]| && 0 <= k < |init[i][j]| && CellText(init[i][j][k]) == t;
          assert tables[i] == init[i];
        } else {
          var j, k :| 0 <= j < |last| && 0 <= k < |last[j]| && CellText(last[j][k]) == t;
          assert tables[|tables| - 1] == last;
        }
      }
      if t != "" && exists i, j, k :: 0 <= i < |tables| && 0 <= j < |tables[i]| && 0 <= k < |tables[i][j]| && CellText(tables[i][j][k]) == t {
        var i, j, k :| 0 <= i < |tables| && 0 <= j < |tables[i]| && 0 <= k < |tables[i][j]| && CellText(tables[i][j][k]) == t;
        if i < |tables| - 1 {
          assert init[i] == tables[i];
        }
      }
    }
  }

  /** The innermost loop of `parse_pdf` that collects `table_texts`: the
      cells of one row, added to the texts collected so far. */
  method CollectRowTexts(texts0: set<string>, row: seq<Cell>) returns (texts: set<string>)
    ensures texts == texts0 + RowCellSet(row)
  {
    texts := texts0;
    var k := 0;
    while k < |row|
      invariant 0 <= k <= |row|
      invariant texts == texts0 + RowCellSet(row[..k])
    {
      var t := CellText(row[k]);
      if t != "" {
        texts := texts + {t};
      }
      assert row[..k + 1][..k] == row[..k];
      k := k + 1;
    }
    assert row[..k] == row;
  }

  /** The loops of `parse_pdf` over the rows of one table. */
  method CollectTableCellTexts(texts0: set<string>, table: Table) returns (texts: set<string>)
    ensures texts == texts0 + TableCellSet(table)
  {
    texts := texts0;
    var j := 0;
    while j < |table|
      invariant 0 <= j <= |table|
      invariant texts == texts0 + TableCellSet(table[..j])
    {
      texts := CollectRowTexts(texts, table[j]);
      assert table[..j + 1][..j] == table[..j];
      j := j + 1;
    }
    assert table[..j] == table;
  }

  /** The loops of `parse_pdf` that collect `table_texts`. */
  method CollectTableTexts(tables: seq<Table>) returns (texts: set<string>)
    ensures texts == CellSet(tables)
  {
    texts := {};
    var i := 0;
    while i < |tables|
      invariant 0 <= i <= |tables|
      invariant texts == CellSet(tables[..i])
    {
      texts := CollectTableCellTexts(texts, tables[i]);
      assert tables[..i + 1][..i] == tables[..i];
      i := i + 1;
    }
    assert tables[..i] == tables;
  }

  /** The stripped lines that survive de-duplication, in order: non-empty and
      not equal to any table cell text. */
  function KeptLines(lines: seq<string>, cells: set<string>): seq<string>
    decreases |lines|
  {
    if lines == [] then []
    else
      var t := Strip(lines[|lines| - 1]);
      KeptLines(lines[..|lines| - 1], cells) + (if t != "" && t !in cells then [t] else [])
  }

  /** A line is kept exactly when it is the stripped form of some line, is
      non-empty and matches no table cell. */
  lemma {:induction false} KeptLinesMembers(lines: seq<string>, cells: set<string>, x: string)
    ensures x in KeptLines(lines, cells) <==>
      x != "" && x !in cells && exists i :: 0 <= i < |lines| && Strip(lines[i]) == x
    decreases |lines|
  {
    if lines != [] {
      var init := lines[..|lines| - 1];
      KeptLinesMembers(init, cells, x);
      if exists i :: 0 <= i < |init| && Strip(init[i]) == x {
        var i :| 0 <= i < |init| && Strip(init[i]) == x;
        assert lines[i] == init[i];
      }
      if exists i :: 0 <= i < |lines| && Strip(lines[i]) == x {
        var i :| 0 <= i < |lines| && Strip(lines[i]) == x;
        if i < |lines| - 1 {
          assert init[i] == lines[i];
        }
      }
    }
  }

  /** De-duplication keeps the order of the page's lines: it works line by
      line, so the kept lines of two stretches of text follow each other. */
  lemma {:induction false} KeptLinesAppend(a: seq<string>, b: seq<string>, cells: set<string>)
    ensures KeptLines(a + b, cells) == KeptLines(a, cells) + KeptLines(b, cells)
    decreases |b|
  {
    if b == [] {
      assert a + b == a;
    } else {
      var b' := b[..|b| - 1];
      assert (a + b)[..|a + b| - 1] == a + b';
      assert (a + b)[|a + b| - 1] == b[|b| - 1];
      KeptLinesAppend(a, b', cells);
    }
  }

  /** Nothing is kept exactly when every line is blank or matches a table cell. */
  lemma {:induction false} KeptLinesEmpty(lines: seq<string>, cells: set<string>)
    ensures KeptLines(lines, cells) == [] <==>
      forall i :: 0 <= i < |lines| ==> Strip(lines[i]) == "" || Strip(lines[i]) in cells
  {
    if KeptLines(lines, cells) != [] {
      var x := KeptLines(lines, cells)[0];
      KeptLinesMembers(lines, cells, x);
    }
    if exists i :: 0 <= i < |lines| && Strip(lines[i]) != "" && Strip(lines[i]) !in cells {
      var i :| 0 <= i < |lines| && Strip(lines[i]) != "" && Strip(lines[i]) !in cells;
      KeptLinesMembers(lines, cells, Strip(lines[i]));
    }
  }

  /** The loop of `parse_pdf` that builds `remaining_text_parts`. */
  method RemainingTextParts(fullText: string, tableTexts: set<string>) returns (parts: seq<string>)
    ensures parts == KeptLines(Split(fullText, "\n"), tableTexts)
  {
    var lines := Split(fullText, "\n");
    parts := [];
    var i := 0;
    while i < |lines|
      invariant 0 <= i <= |lines|
      invariant parts == KeptLines(lines[..i], tableTexts)
    {
      var stripped := Strip(lines[i]);
      if stripped != "" && stripped !in tableTexts {
        parts := parts + [stripped];
      }
      assert lines[..i + 1][..i] == lines[..i];
      i := i + 1;
    }
    assert lines[..i] == lines;
  }

  // ---------------------------------------------------------------------
  // PDF
  // ---------------------------------------------------------------------

  /** The header of a PDF section: `[Page n – Table]` or `[Page n – Text]`
      followed by a line break. */
  function PageHeader(pageNum: nat, kind: string): string {
    "[Page " + NatToString(pageNum) + " \U{2013} " + kind + "]\n"
  }

  /** Headers of the same kind on different pages differ, so every section
      names the one page it came from. */
  lemma PageHeaderDistinct(m: nat, n: nat, kind: string)
    ensures PageHeader(m, kind) == PageHeader(n, kind) <==> m == n
  {
    if PageHeader(m, kind) == PageHeader(n, kind) {
      MiddleEqual("[Page ", NatToString(m), NatToString(n), " \U{2013} ", kind, "]\n");
      NatToStringInjective(m, n);
    }
  }

  /** A section that starts with `header` and has some non-whitespace text after it. */
  predicate LabelledNonBlank(section: string, header: string) {
    StartsWith(section, header) && !Blank(section[|header|..])
  }

  /** `s` is the section of a table with non-blank text on the given page. */
  predicate IsTableSection(pageNum: nat, table: Table, s: string) {
    Strip(TableText(table)) != "" && s == PageHeader(pageNum, "Table") + TableText(table)
  }

  /** One section per table whose text is not blank, in table order. */
  function TableSections(pageNum: nat, tables: seq<Table>): seq<string>
    decreases |tables|
  {
    if tables == [] then []
    else
      var text := TableText(tables[|tables| - 1]);
      TableSections(pageNum, tables[..|tables| - 1])
        + (if Strip(text) != "" then [PageHeader(pageNum, "Table") + text] else [])
  }

  /** Whether the page's tables were located, so that its text is
      de-duplicated against them (`table_bboxes` is non-empty). */
  predicate Located(page: PdfPage) {
    |page.tables| > 0 && page.boxes > 0
  }

  /** The lines of a located page's text that survive de-duplication. */
  function PageKeptLines(page: PdfPage): seq<string> {
    KeptLines(PageLines(page), CellSet(page.tables))
  }

  /** The lines of a page's text; a page without text has one empty line. */
  function PageLines(page: PdfPage): seq<string> {
    Split(page.text.GetOr(""), "\n")
  }

  /** The text section of a page, if it has one. */
  function PageTextSection(pageNum: nat, page: PdfPage): seq<string> {
    if Located(page) then
      var kept := PageKeptLines(page);
      if kept == [] then [] else [PageHeader(pageNum, "Text") + Join(kept, "\n")]
    else
      match page.text
      case Some(t) => if Strip(t) != "" then [PageHeader(pageNum, "Text") + Strip(t)] else []
      case None => []
  }

  /** The sections of one page, `page_num` counting from 1. */
  function PageSections(pageNum: nat, page: PdfPage): seq<string> {
    TableSections(pageNum, page.tables) + PageTextSection(pageNum, page)
  }

  /** The sections of a PDF: each page's sections in page order. */
  function PdfSections(pages: seq<PdfPage>): seq<string>
    decreases |pages|
  {
    if pages == [] then []
    else PdfSections(pages[..|pages| - 1]) + PageSections(|pages|, pages[|pages| - 1])
  }

  /** The table loop of `parse_pdf` for one page. */
  method PageTables(pageNum: nat, tables: seq<Table>) returns (sections: seq<string>)
    ensures sections == TableSections(pageNum, tables)
  {
    sections := [];
    var t := 0;
    while t < |tables|
      invariant 0 <= t <= |tables|
      invariant sections == TableSections(pageNum, tables[..t])
    {
      var text := TableToText(tables[t]);
      if Strip(text) != "" {
        sections := sections + [PageHeader(pageNum, "Table") + text];
      }
      assert tables[..t + 1][..t] == tables[..t];
      t := t + 1;
    }
    assert tables[..t] == tables;
  }

  /** The text part of `parse_pdf` for one page: de-duplicated against the
      table cells when the tables were located, the whole stripped text
      otherwise. */
  method PageText(pageNum: nat, page: PdfPage, boxes: nat) returns (sections: seq<string>)
    requires boxes > 0 <==> Located(page)
    ensures sections == PageTextSection(pageNum, page)
  {
    sections := [];
    if boxes > 0 {
      var fullText := page.text.GetOr("");
      var tableTexts := CollectTableTexts(page.tables);
      var remaining := RemainingTextParts(fullText, tableTexts);
      assert remaining == PageKeptLines(page);
      if remaining != [] {
        sections := [PageHeader(pageNum, "Text") + Join(remaining, "\n")];
      }
    } else {
      match page.text
      case Some(text) =>
        if Strip(text) != "" {
          sections := [PageHeader(pageNum, "Text") + Strip(text)];
        }
      case None =>
    }
  }

  /** `parse_pdf`. */
  method ParsePdf(pages: seq<PdfPage>) returns (sections: seq<string>)
    ensures sections == PdfSections(pages)
  {
    sections := [];
    var i := 0;
    while i < |pages|
      invariant 0 <= i <= |pages|
      invariant sections == PdfSections(pages[..i])
    {
      var pageSections := ParsePage(i + 1, pages[i]);
      PdfSectionsStep(pages, i);
      sections := sections + pageSections;
      i := i + 1;
    }
    assert pages[..i] == pages;
  }

  /** The body of the page loop of `parse_pdf`: the page's tables, then its
      text. */
  method ParsePage(pageNum: nat, page: PdfPage) returns (sections: seq<string>)
    ensures sections == PageSections(pageNum, page)
  {
    var boxes := 0;
    var tableSections := [];
    if |page.tables| > 0 {
      boxes := page.boxes;
      tableSections := PageTables(pageNum, page.tables);
    }
    var textSections := PageText(pageNum, page, boxes);
    sections := tableSections + textSections;
  }

  /** A page's table sections are exactly the tables with non-blank text,
      each headed with the page number. */
  lemma {:induction false} TableSectionsMembers(pageNum: nat, tables: seq<Table>, s: string)
    ensures s in TableSections(pageNum, tables) <==>
      exists i :: 0 <= i < |tables| && IsTableSection(pageNum, tables[i], s)
    decreases |tables|
  {
    if tables != [] {
      var init := tables[..|tables| - 1];
      TableSectionsMembers(pageNum, init, s);
      if exists i :: 0 <= i < |init| && IsTableSection(pageNum, init[i], s) {
        var i :| 0 <= i < |init| && IsTableSection(pageNum, init[i], s);
        assert tables[i] == init[i];
      }
      if exists i :: 0 <= i < |tables| && IsTableSection(pageNum, tables[i], s) {
        var i :| 0 <= i < |tables| && IsTableSection(pageNum, tables[i], s);
        if i < |tables| - 1 {
          assert init[i] == tables[i];
        }
      }
    }
  }

  /** The table sections come first, followed by at most one text section. */
  lemma TablesBeforeText(pageNum: nat, page: PdfPage)
    ensures var ts := TableSections(pageNum, page.tables);
      var ps := PageSections(pageNum, page);
      |ts| <= |ps| <= |ts| + 1 && ps[..|ts|] == ts
  {
  }

  /** A header followed by a text whose first character is not whitespace
      is a labelled, non-blank section. */
  lemma LabelledBody(header: string, body: string)
    requires body != "" && !IsSpace(body[0])
    ensures LabelledNonBlank(header + body, header)
  {
    assert (header + body)[|header|..] == body;
  }

  /** Every table section of a page is labelled with that page's number and
      has non-blank content under its header. */
  lemma TableSectionsLabelled(pageNum: nat, tables: seq<Table>, s: string)
    requires s in TableSections(pageNum, tables)
    ensures LabelledNonBlank(s, PageHeader(pageNum, "Table"))
  {
    TableSectionsMembers(pageNum, tables, s);
    var i :| 0 <= i < |tables| && Strip(TableText(tables[i])) != "" && s == PageHeader(pageNum, "Table") + TableText(tables[i]);
    var h := PageHeader(pageNum, "Table");
    var body := TableText(tables[i]);
    StripFacts(body);
    assert s[|h|..] == body;
  }

  /** The text section of a page, when there is one, is labelled with the
      page's number and starts with a non-whitespace character. */
  lemma TextSectionLabelled(pageNum: nat, page: PdfPage, s: string)
    requires s in PageTextSection(pageNum, page)
    ensures LabelledNonBlank(s, PageHeader(pageNum, "Text"))
  {
    var h := PageHeader(pageNum, "Text");
    if Located(page) {
      var kept := PageKeptLines(page);
      KeptLinesMembers(PageLines(page), CellSet(page.tables), kept[0]);
      var i :| 0 <= i < |PageLines(page)| && kept[0] == Strip(PageLines(page)[i]);
      StripFacts(PageLines(page)[i]);
      JoinStartsWithFirst(kept, "\n");
      LabelledBody(h, Join(kept, "\n"));
    } else {
      StripFacts(page.text.value);
      LabelledBody(h, Strip(page.text.value));
    }
  }

  /** Every section of a page is labelled with that page's number and has
      non-blank content under its header. */
  lemma PageSectionsLabelled(pageNum: nat, page: PdfPage)
    ensures forall s :: s in PageSections(pageNum, page) ==>
      LabelledNonBlank(s, PageHeader(pageNum, "Table")) || LabelledNonBlank(s, PageHeader(pageNum, "Text"))
  {
    forall s | s in PageSections(pageNum, page)
      ensures LabelledNonBlank(s, PageHeader(pageNum, "Table")) || LabelledNonBlank(s, PageHeader(pageNum, "Text"))
    {
      if s in TableSections(pageNum, page.tables) {
        TableSectionsLabelled(pageNum, page.tables, s);
      } else {
        TextSectionLabelled(pageNum, page, s);
      }
    }
  }

  /** De-duplication: on a page with located tables, the text section holds
      exactly the stripped non-empty lines of the page text that match no
      table cell, in their original order. */
  lemma DedupTextSection(pageNum: nat, page: PdfPage)
    requires Located(page)
    ensures var kept := PageKeptLines(page);
      PageSections(pageNum, page) == TableSections(pageNum, page.tables)
        + (if kept == [] then [] else [PageHeader(pageNum, "Text") + Join(kept, "\n")])
    ensures forall x :: x in PageKeptLines(page) ==>
      x != "" && forall i, j, k :: 0 <= i < |page.tables| && 0 <= j < |page.tables[i]| && 0 <= k < |page.tables[i][j]| ==>
        CellText(page.tables[i][j][k]) != x
  {
    var lines := PageLines(page);
    forall x | x in KeptLines(lines, CellSet(page.tables))
      ensures x != "" && forall i, j, k :: 0 <= i < |page.tables| && 0 <= j < |page.tables[i]| && 0 <= k < |page.tables[i][j]| ==>
        CellText(page.tables[i][j][k]) != x
    {
      KeptLinesMembers(lines, CellSet(page.tables), x);
      CellSetMembers(page.tables, x);
    }
  }

  /** A page with located tables whose every non-blank line repeats a table
      cell yields its table sections only. */
  lemma FullyTabularPage(pageNum: nat, page: PdfPage)
    requires Located(page)
    requires forall i :: 0 <= i < |PageLines(page)| ==>
      Strip(PageLines(page)[i]) == "" || Strip(PageLines(page)[i]) in CellSet(page.tables)
    ensures PageSections(pageNum, page) == TableSections(pageNum, page.tables)
  {
    KeptLinesEmpty(PageLines(page), CellSet(page.tables));
    assert PageKeptLines(page) == [];
    assert PageTextSection(pageNum, page) == [];
  }

  /** A page without tables yields at most one section: its whole stripped
      text, and none when the text is missing or blank. */
  lemma PageWithoutTables(pageNum: nat, page: PdfPage)
    requires page.tables == []
    ensures PageSections(pageNum, page) ==
      if page.text.Some? && !Blank(page.text.value) then [PageHeader(pageNum, "Text") + Strip(page.text.value)] else []
  {
    if page.text.Some? {
      StripFacts(page.text.value);
    }
  }

  /** The sections of a PDF are those of its first pages followed by those of
      the next page, numbered one past them. */
  lemma PdfSectionsStep(pages: seq<PdfPage>, i: nat)
    requires i < |pages|
    ensures PdfSections(pages[..i + 1]) == PdfSections(pages[..i]) + PageSections(i + 1, pages[i])
  {
    assert pages[..i + 1][..i] == pages[..i];
  }

  // ---------------------------------------------------------------------
  // DOCX
  // ---------------------------------------------------------------------

  /** A DOCX table row: its stripped cell texts joined by `" | "`. */
  function DocxRowLine(row: seq<string>): string {
    Join(seq(|row|, k requires 0 <= k < |row| => Strip(row[k])), " | ")
  }

  function DocxTableLines(table: seq<seq<string>>): (r: seq<string>)
    ensures |r| == |table|
  {
    seq(|table|, j requires 0 <= j < |table| => DocxRowLine(table[j]))
  }

  /** The header of the `i`-th DOCX table section. */
  function DocxTableHeader(i: nat): string {
    "[Table " + NatToString(i) + "]\n"
  }

  /** One section per DOCX table with non-blank text, numbered by the table's
      position among all tables (blank ones included), from 1. */
  function DocxTableSections(tables: seq<seq<seq<string>>>): seq<string>
    decreases |tables|
  {
    if tables == [] then []
    else
      var text := Join(DocxTableLines(tables[|tables| - 1]), "\n");
      DocxTableSections(tables[..|tables| - 1])
        + (if Strip(text) != "" then [DocxTableHeader(|tables|) + text] else [])
  }

  /** DOCX tables are rendered exactly as `_table_to_text` renders a PDF
      table whose cells are all present. */
  lemma DocxTableAsPdfTable(table: seq<seq<string>>)
    ensures Join(DocxTableLines(table), "\n") ==
      TableText(seq(|table|, j requires 0 <= j < |table| => seq(|table[j]|, k requires 0 <= k < |table[j]| => Some(table[j][k]))))
  {
    var pdf := seq(|table|, j requires 0 <= j < |table| => seq(|table[j]|, k requires 0 <= k < |table[j]| => Some(table[j][k])));
    forall j | 0 <= j < |table| ensures DocxRowLine(table[j]) == RowLine(pdf[j]) {
      assert seq(|table[j]|, k requires 0 <= k < |table[j]| => Strip(table[j][k]))
          == seq(|pdf[j]|, k requires 0 <= k < |pdf[j]| => CellText(pdf[j][k]));
    }
    assert DocxTableLines(table) == TableLines(pdf);
  }

  /** Every piece stripped: `[p.strip() for p in pieces]`. */
  function StripAll(pieces: seq<string>): (r: seq<string>)
    ensures |r| == |pieces|
    decreases |pieces|
  {
    if pieces == [] then [] else StripAll(pieces[..|pieces| - 1]) + [Strip(pieces[|pieces| - 1])]
  }

  lemma StripAllSnoc(pieces: seq<string>, piece: string)
    ensures StripAll(pieces + [piece]) == StripAll(pieces) + [Strip(piece)]
  {
    assert (pieces + [piece])[..|pieces|] == pieces;
  }

  /** The non-empty texts, in their order. */
  function NonEmpty(texts: seq<string>): seq<string>
    decreases |texts|
  {
    if texts == [] then []
    else
      var t := texts[|texts| - 1];
      NonEmpty(texts[..|texts| - 1]) + (if t != "" then [t] else [])
  }

  /** A text is kept exactly when it is one of the inputs and not empty. */
  lemma {:induction false} NonEmptyMembers(texts: seq<string>, x: string)
    ensures x in NonEmpty(texts) <==> x != "" && x in texts
    decreases |texts|
  {
    if texts != [] {
      var init := texts[..|texts| - 1];
      NonEmptyMembers(init, x);
      assert texts == init + [texts[|texts| - 1]];
    }
  }

  /** Order is kept: the result for two stretches is the two results in turn. */
  lemma {:induction false} NonEmptyAppend(a: seq<string>, b: seq<string>)
    ensures NonEmpty(a + b) == NonEmpty(a) + NonEmpty(b)
    decreases |b|
  {
    if b == [] {
      assert a + b == a;
    } else {
      var b' := b[..|b| - 1];
      assert (a + b)[..|a + b| - 1] == a + b';
      assert (a + b)[|a + b| - 1] == b[|b| - 1];
      NonEmptyAppend(a, b');
    }
  }

  /** The state of the paragraph grouping: the blocks already closed and
      the block in progress. */
  datatype Grouping = Grouping(closed: seq<seq<string>>, current: seq<string>)

  /** The block in progress as a list of at most one block. */
  function Open(current: seq<string>): seq<seq<string>> {
    if current == [] then [] else [current]
  }

  /** One text: a non-empty one joins the block in progress, an empty one
      closes it (nothing is closed when no block is in progress). */
  function Step(g: Grouping, text: string): Grouping {
    if text != "" then Grouping(g.closed, g.current + [text])
    else Grouping(g.closed + Open(g.current), [])
  }

  /** The grouping state after reading all the texts. */
  function Group(texts: seq<string>): Grouping
    decreases |texts|
  {
    if texts == [] then Grouping([], [])
    else Step(Group(texts[..|texts| - 1]), texts[|texts| - 1])
  }

  /** The blocks of consecutive non-empty texts, the last one flushed. */
  function Blocks(texts: seq<string>): seq<seq<string>> {
    var g := Group(texts);
    g.closed + Open(g.current)
  }

  lemma GroupSnoc(texts: seq<string>, text: string)
    ensures Group(texts + [text]) == Step(Group(texts), text)
  {
    assert (texts + [text])[..|texts|] == texts;
  }

  /** No block is empty. */
  lemma {:induction false} BlocksNonEmpty(texts: seq<string>)
    ensures forall j :: 0 <= j < |Group(texts).closed| ==> Group(texts).closed[j] != []
    ensures forall j :: 0 <= j < |Blocks(texts)| ==> Blocks(texts)[j] != []
    decreases |texts|
  {
    if texts != [] {
      BlocksNonEmpty(texts[..|texts| - 1]);
    }
  }

  /** The concatenation of a list of blocks. */
  function Flatten(blocks: seq<seq<string>>): seq<string>
    decreases |blocks|
  {
    if blocks == [] then [] else Flatten(blocks[..|blocks| - 1]) + blocks[|blocks| - 1]
  }

  lemma {:induction false} FlattenAppend(a: seq<seq<string>>, b: seq<seq<string>>)
    ensures Flatten(a + b) == Flatten(a) + Flatten(b)
    decreases |b|
  {
    if b == [] {
      assert a + b == a;
    } else {
      assert (a + b)[..|a + b| - 1] == a + b[..|b| - 1];
      FlattenAppend(a, b[..|b| - 1]);
    }
  }

  lemma FlattenOpen(current: seq<string>)
    ensures Flatten(Open(current)) == current
  {
    if current != [] {
      assert [current][..0] == [];
    }
  }

  /** Reading the closed blocks and then the block in progress gives the
      non-empty texts read so far. */
  lemma {:induction false} GroupCoversTexts(texts: seq<string>)
    ensures Flatten(Group(texts).closed) + Group(texts).current == NonEmpty(texts)
    decreases |texts|
  {
    if texts != [] {
      var init := texts[..|texts| - 1];
      var t := texts[|texts| - 1];
      var g := Group(init);
      GroupCoversTexts(init);
      assert texts == init + [t];
      NonEmptySnoc(init, t);
      if t == "" {
        FlattenAppend(g.closed, Open(g.current));
        FlattenOpen(g.current);
      }
    }
  }

  /** Every non-empty text appears in exactly one block and in its original
      order: reading the blocks one after the other gives the non-empty
      texts and nothing else. */
  lemma BlocksCoverTexts(texts: seq<string>)
    ensures Flatten(Blocks(texts)) == NonEmpty(texts)
  {
    var g := Group(texts);
    GroupCoversTexts(texts);
    FlattenAppend(g.closed, Open(g.current));
    FlattenOpen(g.current);
  }

  /** An empty text closes the block in progress: the grouping of what
      follows starts afresh after the blocks of what precedes it. */
  lemma {:induction false} GroupAfterEmpty(a: seq<string>, b: seq<string>)
    ensures Group(a + [""] + b) == Grouping(Blocks(a) + Group(b).closed, Group(b).current)
    decreases |b|
  {
    if b == [] {
      assert a + [""] + b == a + [""];
      GroupSnoc(a, "");
    } else {
      var b' := b[..|b| - 1];
      var q := b[|b| - 1];
      assert a + [""] + b == (a + [""] + b') + [q];
      assert b == b' + [q];
      GroupAfterEmpty(a, b');
      GroupSnoc(a + [""] + b', q);
      GroupSnoc(b', q);
    }
  }

  /** An empty text closes the block in progress: the blocks of what
      precedes it and of what follows it are kept apart. */
  lemma EmptyTextSeparates(a: seq<string>, b: seq<string>)
    ensures Blocks(a + [""] + b) == Blocks(a) + Blocks(b)
  {
    GroupAfterEmpty(a, b);
  }

  /** A run of non-empty texts forms a single block. */
  lemma {:induction false} RunIsOneBlock(run: seq<string>)
    requires forall i :: 0 <= i < |run| ==> run[i] != ""
    ensures Group(run) == Grouping([], run)
    ensures |run| >= 1 ==> Blocks(run) == [run]
    decreases |run|
  {
    if run != [] {
      var init := run[..|run| - 1];
      assert run == init + [run[|run| - 1]];
      RunIsOneBlock(init);
    }
  }

  /** The section text of one paragraph block. */
  function RenderBlock(block: seq<string>): string {
    "[Text]\n" + Join(block, "\n")
  }

  function RenderBlocks(blocks: seq<seq<string>>): (r: seq<string>)
    ensures |r| == |blocks|
    decreases |blocks|
  {
    if blocks == [] then [] else RenderBlocks(blocks[..|blocks| - 1]) + [RenderBlock(blocks[|blocks| - 1])]
  }

  lemma RenderBlocksSnoc(blocks: seq<seq<string>>, block: seq<string>)
    ensures RenderBlocks(blocks + [block]) == RenderBlocks(blocks) + [RenderBlock(block)]
  {
    assert (blocks + [block])[..|blocks|] == blocks;
  }

  /** The sections of a DOCX file: its table sections, then the blocks of
      its stripped paragraphs. */
  function DocxSections(doc: DocxContent): seq<string> {
    DocxTableSections(doc.tables) + RenderBlocks(Blocks(StripAll(doc.paragraphs)))
  }

  /** The table loop of `parse_docx`. */
  method DocxTables(tables: seq<seq<seq<string>>>) returns (sections: seq<string>)
    ensures sections == DocxTableSections(tables)
  {
    sections := [];
    var i := 0;
    while i < |tables|
      invariant 0 <= i <= |tables|
      invariant sections == DocxTableSections(tables[..i])
    {
      var table := tables[i];
      var rows: seq<string> := [];
      var j := 0;
      while j < |table|
        invariant 0 <= j <= |table|
        invariant rows == DocxTableLines(table)[..j]
      {
        rows := rows + [DocxRowLine(table[j])];
        j := j + 1;
      }
      assert rows == DocxTableLines(table);
      var text := Join(rows, "\n");
      if Strip(text) != "" {
        sections := sections + [DocxTableHeader(i + 1) + text];
      }
      assert tables[..i + 1][..i] == tables[..i];
      i := i + 1;
    }
    assert tables[..i] == tables;
  }

  /** The paragraph loop of `parse_docx`: consecutive non-empty stripped
      paragraphs are gathered into one `[Text]` section. */
  method DocxParagraphs(paras: seq<string>) returns (sections: seq<string>)
    ensures sections == RenderBlocks(Blocks(StripAll(paras)))
  {
    ghost var closed: seq<seq<string>> := [];
    sections := [];
    var currentBlock: seq<string> := [];
    var k := 0;
    while k < |paras|
      invariant 0 <= k <= |paras|
      invariant Group(StripAll(paras[..k])) == Grouping(closed, currentBlock)
      invariant sections == RenderBlocks(closed)
    {
      var text := Strip(paras[k]);
      ParagraphStep(paras, k);
      closed, currentBlock, sections := AddParagraph(closed, currentBlock, sections, text);
      k := k + 1;
    }
    assert paras[..k] == paras;
    if currentBlock != [] {
      RenderBlocksSnoc(closed, currentBlock);
      sections := sections + [RenderBlock(currentBlock)];
    } else {
      assert closed + Open(currentBlock) == closed;
    }
  }

  /** The body of the paragraph loop: a non-empty text joins the open
      block; an empty one emits the open block, if any, as a section. */
  method AddParagraph(ghost closed: seq<seq<string>>, currentBlock: seq<string>, sections: seq<string>, text: string)
    returns (ghost closed': seq<seq<string>>, currentBlock': seq<string>, sections': seq<string>)
    requires sections == RenderBlocks(closed)
    ensures Grouping(closed', currentBlock') == Step(Grouping(closed, currentBlock), text)
    ensures sections' == RenderBlocks(closed')
  {
    if text != "" {
      closed', currentBlock', sections' := closed, currentBlock + [text], sections;
    } else if currentBlock != [] {
      RenderBlocksSnoc(closed, currentBlock);
      closed', currentBlock', sections' := closed + [currentBlock], [], sections + [RenderBlock(currentBlock)];
    } else {
      assert closed + Open(currentBlock) == closed;
      closed', currentBlock', sections' := closed, [], sections;
    }
  }

  /** One more paragraph is one more step of the grouping. */
  lemma ParagraphStep(paras: seq<string>, k: nat)
    requires k < |paras|
    ensures Group(StripAll(paras[..k + 1])) == Step(Group(StripAll(paras[..k])), Strip(paras[k]))
  {
    assert paras[..k + 1] == paras[..k] + [paras[k]];
    StripAllSnoc(paras[..k], paras[k]);
    GroupSnoc(StripAll(paras[..k]), Strip(paras[k]));
  }

  /** `parse_docx`. */
  method ParseDocx(doc: DocxContent) returns (sections: seq<string>)
    ensures sections == DocxSections(doc)
  {
    var tableSections := DocxTables(doc.tables);
    var textSections := DocxParagraphs(doc.paragraphs);
    sections := tableSections + textSections;
  }

  // ---------------------------------------------------------------------
  // Plain text
  // ---------------------------------------------------------------------

  /** Each text prefixed with the `[Text]` header. */
  function TextSections(bodies: seq<string>): (r: seq<string>)
    ensures |r| == |bodies|
    decreases |bodies|
  {
    if bodies == [] then [] else TextSections(bodies[..|bodies| - 1]) + ["[Text]\n" + bodies[|bodies| - 1]]
  }

  lemma TextSectionsSnoc(bodies: seq<string>, body: string)
    ensures TextSections(bodies + [body]) == TextSections(bodies) + ["[Text]\n" + body]
  {
    assert (bodies + [body])[..|bodies|] == bodies;
  }

  /** A section is one of the bodies under the `[Text]` header. */
  lemma {:induction false} TextSectionsMembers(bodies: seq<string>, s: string)
    ensures s in TextSections(bodies) <==> exists b :: b in bodies && s == "[Text]\n" + b
    decreases |bodies|
  {
    if bodies != [] {
      var init := bodies[..|bodies| - 1];
      TextSectionsMembers(init, s);
      assert bodies == init + [bodies[|bodies| - 1]];
    }
  }

  lemma NonEmptySnoc(texts: seq<string>, t: string)
    ensures NonEmpty(texts + [t]) == NonEmpty(texts) + (if t != "" then [t] else [])
  {
    assert (texts + [t])[..|texts|] == texts;
  }

  /** A stripped piece is the stripped form of some piece. */
  lemma {:induction false} StripAllMembers(pieces: seq<string>, x: string)
    ensures x in StripAll(pieces) <==> exists p :: p in pieces && x == Strip(p)
    decreases |pieces|
  {
    if pieces != [] {
      var init := pieces[..|pieces| - 1];
      StripAllMembers(init, x);
      assert pieces == init + [pieces[|pieces| - 1]];
    }
  }

  /** The sections of a plain-text file, given its decoded content with
      line endings already turned into "\n". */
  function TxtSections(content: string): seq<string> {
    TextSections(NonEmpty(StripAll(Split(content, "\n\n"))))
  }

  /** `parse_txt`, given the file's decoded content. */
  method ParseTxt(content: string) returns (sections: seq<string>)
    ensures sections == TxtSections(content)
  {
    var blocks := Split(content, "\n\n");
    sections := BlockSections(blocks);
  }

  /** The block loop of `parse_txt`. */
  method BlockSections(blocks: seq<string>) returns (sections: seq<string>)
    ensures sections == TextSections(NonEmpty(StripAll(blocks)))
  {
    sections := [];
    var i := 0;
    while i < |blocks|
      invariant 0 <= i <= |blocks|
      invariant sections == TextSections(NonEmpty(StripAll(blocks[..i])))
    {
      var stripped := Strip(blocks[i]);
      TextSectionsStep(blocks, i);
      if stripped != "" {
        sections := sections + ["[Text]\n" + stripped];
      }
      i := i + 1;
    }
    assert blocks[..i] == blocks;
  }

  /** One more block adds its stripped text as a section when that is not
      empty. */
  lemma TextSectionsStep(blocks: seq<string>, i: nat)
    requires i < |blocks|
    ensures var stripped := Strip(blocks[i]);
      TextSections(NonEmpty(StripAll(blocks[..i + 1])))
        == TextSections(NonEmpty(StripAll(blocks[..i]))) + (if stripped != "" then ["[Text]\n" + stripped] else [])
  {
    var stripped := Strip(blocks[i]);
    var texts := StripAll(blocks[..i]);
    assert blocks[..i + 1] == blocks[..i] + [blocks[i]];
    StripAllSnoc(blocks[..i], blocks[i]);
    NonEmptySnoc(texts, stripped);
    if stripped != "" {
      TextSectionsSnoc(NonEmpty(texts), stripped);
    } else {
      assert NonEmpty(texts + [stripped]) == NonEmpty(texts);
    }
  }

  /** Joining the blank-line-separated blocks again gives back the content. */
  lemma TxtBlocksRoundTrip(content: string)
    ensures Join(Split(content, "\n\n"), "\n\n") == content
  {
    JoinSplit(content, "\n\n");
  }

  /** The plain-text sections are exactly the non-blank blank-line-separated
      blocks, stripped and headed `[Text]`. */
  lemma TxtSectionsAreBlocks(content: string, s: string)
    ensures s in TxtSections(content) <==>
      exists b :: b in Split(content, "\n\n") && Strip(b) != "" && s == "[Text]\n" + Strip(b)
  {
    var blocks := Split(content, "\n\n");
    var texts := StripAll(blocks);
    var bodies := NonEmpty(texts);
    TextSectionsMembers(bodies, s);
    if s in TxtSections(content) {
      var x :| x in bodies && s == "[Text]\n" + x;
      NonEmptyMembers(texts, x);
      StripAllMembers(blocks, x);
    }
    if exists b :: b in blocks && Strip(b) != "" && s == "[Text]\n" + Strip(b) {
      var b :| b in blocks && Strip(b) != "" && s == "[Text]\n" + Strip(b);
      StripAllMembers(blocks, Strip(b));
      NonEmptyMembers(texts, Strip(b));
    }
  }

  // ---------------------------------------------------------------------
  // Dispatch on the file extension
  // ---------------------------------------------------------------------

  /** What each reader makes of the file at the given path, or the message
      of the exception it raises on a file it cannot read (a malformed PDF
      or DOCX, a text file that is not UTF-8). `txt` is the decoded text
      with its line endings already turned into "\n", as a text-mode read
      returns it. */
  datatype ReaderOutput = ReaderOutput(pdf: Result<seq<PdfPage>, string>,
                                       docx: Result<DocxContent, string>,
                                       txt: Result<string, string>)

  /** The extension `parse_document` dispatches on: the lower-cased text
      after the last dot, or the whole lower-cased path when it has no dot. */
  function Extension(path: string): string {
    Lower(AfterLastDot(path))
  }

  /** The text after the last dot, or the whole path when it has no dot. */
  function AfterLastDot(path: string): string {
    var dot := LastIndexOf(path, '.');
    if dot < 0 then path else path[dot + 1..]
  }

  /** The selected reader fails on this file: the extension is a supported
      one and its reader raised. */
  predicate ReaderFails(path: string, file: ReaderOutput) {
    var ext := Extension(path);
    (ext == "pdf" && file.pdf.Err?) || (ext == "docx" && file.docx.Err?)
    || (ext == "txt" && file.txt.Err?)
  }

  /** `parse_document`: pick the reader from the extension; any other
      extension raises `ValueError`, and an exception from the chosen reader
      passes through with its own message. */
  function ParseDocument(path: string, file: ReaderOutput): (r: Result<seq<string>, string>)
    ensures r.Err? <==> Extension(path) !in {"pdf", "docx", "txt"} || ReaderFails(path, file)
    ensures Extension(path) !in {"pdf", "docx", "txt"} ==>
      r == Err("Unsupported file type: ." + Extension(path))
    ensures Extension(path) == "pdf" ==>
      r == (if file.pdf.Ok? then Ok(PdfSections(file.pdf.value)) else Err(file.pdf.error))
    ensures Extension(path) == "docx" ==>
      r == (if file.docx.Ok? then Ok(DocxSections(file.docx.value)) else Err(file.docx.error))
    ensures Extension(path) == "txt" ==>
      r == (if file.txt.Ok? then Ok(TxtSections(file.txt.value)) else Err(file.txt.error))
  {
    var ext := Extension(path);
    if ext == "pdf" then
      (match file.pdf case Ok(pages) => Ok(PdfSections(pages)) case Err(e) => Err(e))
    else if ext == "docx" then
      (match file.docx case Ok(content) => Ok(DocxSections(content)) case Err(e) => Err(e))
    else if ext == "txt" then
      (match file.txt case Ok(content) => Ok(TxtSections(content)) case Err(e) => Err(e))
    else Err("Unsupported file type: ." + ext)
  }
}
