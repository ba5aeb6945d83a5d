/**
 The row parsers behind `listSites` and `listApps`. The CLI prints a
 box-drawing table; the browser receives it with every box character
 mis-decoded into three characters, so the column separator `│` arrives as
 the three code points U+201A U+00EE U+00C7, and the left border pieces
 `┌`, `├`, `└` as U+201A U+00EE followed by U+00E5, U+00FA or U+00EE. A
 line is a data row when it holds a column separator, no left border piece,
 no header word and some non-space text; its cells are the trimmed, non-empty
 pieces between separators, and its first cell must be a number to
 `parseInt`.
 */
module Tables {
  import opened Wrappers
  import opened Text

  const ColumnSep := "\U{201A}\U{00EE}\U{00C7}"
  const TopLeft := "\U{201A}\U{00EE}\U{00E5}"
  const MidLeft := "\U{201A}\U{00EE}\U{00FA}"
  const BottomLeft := "\U{201A}\U{00EE}\U{00EE}"

  predicate IsHexDigit(c: char) {
    IsDigit(c) || ('a' <= c <= 'f') || ('A' <= c <= 'F')
  }

  /**
   `!isNaN(parseInt(s))` (section 19.2.5 of ECMA-262): after leading white
   space and an optional sign, either a `0x`/`0X` prefix followed by a hex
   digit, or a decimal digit. A text that passes holds a decimal digit, and
   its first character after white space is a sign or a digit.
   */
  predicate ParsesAsInt(s: string)
    ensures ParsesAsInt(s) ==> exists i | 0 <= i < |s| :: IsDigit(s[i])
    ensures ParsesAsInt(s) ==>
              TrimStart(s) != "" && (IsDigit(TrimStart(s)[0]) || TrimStart(s)[0] == '+' || TrimStart(s)[0] == '-')
  {
    var t := TrimStart(s);
    var k := if t != "" && (t[0] == '+' || t[0] == '-') then 1 else 0;
    var u := t[k..];
    var passes :=
      if |u| >= 2 && u[0] == '0' && (u[1] == 'x' || u[1] == 'X') then |u| >= 3 && IsHexDigit(u[2])
      else u != "" && IsDigit(u[0]);
    assert passes ==> s[|s| - |t| + k] == u[0] && IsDigit(u[0]);
    passes
  }

  /** The row numbers the CLI prints, with or without a sign, pass the `parseInt` test. */
  lemma NumbersParse(n: nat)
    ensures ParsesAsInt(NatToString(n))
    ensures ParsesAsInt("-" + NatToString(n))
  {
    var d := NatToString(n);
    assert !IsSpace(d[0]);
    assert TrimStart(d) == d;
    assert TrimStart("-" + d) == "-" + d;
    assert ("-" + d)[1..] == d;
  }

  /** A cell that starts with anything but white space, a sign or a digit is not a number. */
  lemma WordsDoNotParse(s: string)
    requires s != "" && !IsSpace(s[0]) && !IsDigit(s[0]) && s[0] != '+' && s[0] != '-'
    ensures !ParsesAsInt(s)
  {
    assert TrimStart(s) == s;
  }

  /** `0x` (or `0X`) alone is not a number to `parseInt`, although `0` is. */
  lemma BareHexPrefix(x: char)
    requires x == 'x' || x == 'X'
    ensures !ParsesAsInt(['0', x])
    ensures ParsesAsInt(['0'])
  {
    HexPrefixAlone(x);
    ZeroParses();
  }

  lemma HexPrefixAlone(x: char)
    requires x == 'x' || x == 'X'
    ensures !ParsesAsInt(['0', x])
  {
    TrimStartKeeps(['0', x]);
  }

  lemma ZeroParses()
    ensures ParsesAsInt(['0'])
  {
    TrimStartKeeps(['0']);
  }

  /** The line filter both parsers apply before splitting, with `marker` the header word (`UID` or `Title`). */
  predicate DataLine(line: string, marker: string) {
    && Contains(line, ColumnSep)
    && !Contains(line, TopLeft)
    && !Contains(line, MidLeft)
    && !Contains(line, BottomLeft)
    && !Contains(line, marker)
    && Trim(line) != ""
  }

  /** `parts.map(p => p.trim())`. */
  function TrimAll(parts: seq<string>): (r: seq<string>)
    ensures |r| == |parts|
    ensures forall i | 0 <= i < |parts| :: r[i] == Trim(parts[i])
    ensures forall x | x in r :: Tight(x)
    decreases |parts|
  {
    if |parts| == 0 then [] else [Trim(parts[0])] + TrimAll(parts[1..])
  }

  /** Trimming two blocks of pieces trims each block on its own. */
  lemma {:induction false} TrimAllConcat(a: seq<string>, b: seq<string>)
    ensures TrimAll(a + b) == TrimAll(a) + TrimAll(b)
    decreases |a|
  {
    if |a| > 0 {
      assert (a + b)[1..] == a[1..] + b;
      TrimAllConcat(a[1..], b);
      AppendAssoc([Trim(a[0])], TrimAll(a[1..]), TrimAll(b));
    } else {
      assert a + b == b;
    }
  }

  /** `line.split(sep).map(p => p.trim()).filter(p => p)`. */
  function Cells(line: string): (cells: seq<string>)
    ensures forall c | c in cells :: c != "" && Tight(c)
  {
    var trimmed := TrimAll(Split(line, ColumnSep));
    var cells := Filter(NonEmpty, trimmed);
    assert forall c | c in cells :: c in trimmed;
    cells
  }

  /**
   The row test shared by both parsers, over the cells a split produced: the
   line passes the filter, there are at least `minCells` cells, and the first
   cell is a number.
   */
  function Accept(line: string, marker: string, cells: seq<string>, minCells: nat): (r: Option<seq<string>>)
    requires minCells >= 1
    ensures r.Some? <==> DataLine(line, marker) && |cells| >= minCells && ParsesAsInt(cells[0])
    ensures r.Some? ==> r.value == cells
  {
    if !DataLine(line, marker) then None
    else if |cells| >= minCells && ParsesAsInt(cells[0]) then Some(cells)
    else None
  }

  /** The cells of an accepted row, as the code splits it. */
  function RowCells(line: string, marker: string, minCells: nat): Option<seq<string>>
    requires minCells >= 1
  {
    Accept(line, marker, Cells(line), minCells)
  }

  /** `parts[i] || fallback`: a missing or empty cell takes the fallback. */
  function CellOr(cells: seq<string>, i: nat, fallback: string): (r: string)
    ensures i < |cells| && cells[i] != "" ==> r == cells[i]
    ensures i >= |cells| || cells[i] == "" ==> r == fallback
  {
    if i < |cells| && cells[i] != "" then cells[i] else fallback
  }

  datatype Site = Site(num: string, uid: string, subdomain: string, created: string)

  datatype App = App(num: string, title: string, name: string, created: string, subdomain: string, opens: string, users: string)

  function SiteOf(c: seq<string>): (r: Site)
    requires |c| >= 2
    ensures r.num == c[0] && r.uid == c[1]
    ensures r.subdomain == CellOr(c, 2, "") && r.created == CellOr(c, 3, "")
  {
    Site(c[0], c[1], CellOr(c, 2, ""), CellOr(c, 3, ""))
  }

  function AppOf(c: seq<string>): (r: App)
    requires |c| >= 5
    ensures r.num == c[0] && r.title == c[1] && r.name == c[2] && r.created == c[3] && r.subdomain == c[4]
    ensures r.opens == CellOr(c, 5, "0") && r.users == CellOr(c, 6, "0")
  {
    App(c[0], c[1], c[2], c[3], c[4], CellOr(c, 5, "0"), CellOr(c, 6, "0"))
  }

  /** One line of the `sites` table: at least two cells; a missing subdomain or creation date is `''`. */
  function SiteRow(line: string): (r: Option<Site>)
    ensures r.Some? <==> DataLine(line, "UID") && |Cells(line)| >= 2 && ParsesAsInt(Cells(line)[0])
    ensures r.Some? ==> r.value == SiteOf(Cells(line))
  {
    match RowCells(line, "UID", 2)
    case None => None
    case Some(c) => Some(SiteOf(c))
  }

  /** One line of the `apps` table: at least five cells; missing open and user counts are `'0'`. */
  function AppRow(line: string): (r: Option<App>)
    ensures r.Some? <==> DataLine(line, "Title") && |Cells(line)| >= 5 && ParsesAsInt(Cells(line)[0])
    ensures r.Some? ==> r.value == AppOf(Cells(line))
  {
    match RowCells(line, "Title", 5)
    case None => None
    case Some(c) => Some(AppOf(c))
  }

  /** The loop over lines: every line a row parser accepts contributes one record, in line order. */
  function Collect<T>(parse: string -> Option<T>, lines: seq<string>): (r: seq<T>)
    ensures |r| <= |lines|
    decreases |lines|
  {
    if |lines| == 0 then []
    else
      (match parse(lines[0]) case Some(x) => [x] case None => []) + Collect(parse, lines[1..])
  }

  /** Collecting over two blocks of lines gives the records of the first block, then those of the second. */
  lemma {:induction false} CollectConcat<T>(parse: string -> Option<T>, xs: seq<string>, ys: seq<string>)
    ensures Collect(parse, xs + ys) == Collect(parse, xs) + Collect(parse, ys)
    decreases |xs|
  {
    if |xs| == 0 {
      assert xs + ys == ys;
    } else {
      var head := match parse(xs[0]) case Some(x) => [x] case None => [];
      assert (xs + ys)[0] == xs[0];
      assert (xs + ys)[1..] == xs[1..] + ys;
      assert Collect(parse, xs + ys) == head + Collect(parse, xs[1..] + ys);
      CollectConcat(parse, xs[1..], ys);
      AppendAssoc(head, Collect(parse, xs[1..]), Collect(parse, ys));
    }
  }

  /** A record is collected exactly when some line parses to it. */
  lemma {:induction false} CollectMember<T>(parse: string -> Option<T>, lines: seq<string>, x: T)
    ensures x in Collect(parse, lines) <==> exists i | 0 <= i < |lines| :: parse(lines[i]) == Some(x)
    decreases |lines|
  {
    if |lines| > 0 {
      CollectMember(parse, lines[1..], x);
      if x in Collect(parse, lines[1..]) {
        var i :| 0 <= i < |lines[1..]| && parse(lines[1..][i]) == Some(x);
        assert parse(lines[i + 1]) == Some(x);
      }
      if exists i | 0 <= i < |lines| :: parse(lines[i]) == Some(x) {
        var i :| 0 <= i < |lines| && parse(lines[i]) == Some(x);
        if i > 0 {
          assert parse(lines[1..][i - 1]) == Some(x);
        }
      }
    }
  }

  /** A site is collected exactly when some line reads as it. */
  lemma SiteMembers(lines: seq<string>)
    ensures forall site :: site in Collect(SiteRow, lines) <==> exists i | 0 <= i < |lines| :: SiteRow(lines[i]) == Some(site)
  {
    forall site ensures site in Collect(SiteRow, lines) <==> exists i | 0 <= i < |lines| :: SiteRow(lines[i]) == Some(site) {
      CollectMember(SiteRow, lines, site);
    }
  }

  /** An app is collected exactly when some line reads as it. */
  lemma AppMembers(lines: seq<string>)
    ensures forall app :: app in Collect(AppRow, lines) <==> exists i | 0 <= i < |lines| :: AppRow(lines[i]) == Some(app)
  {
    forall app ensures app in Collect(AppRow, lines) <==> exists i | 0 <= i < |lines| :: AppRow(lines[i]) == Some(app) {
      CollectMember(AppRow, lines, app);
    }
  }

  /**
   The records `listSites` builds from the CLI output: at most one per output
   line, and a site is listed exactly when some line reads as it.
   */
  function ParseSites(output: string): (sites: seq<Site>)
    ensures |sites| <= |Split(output, "\n")|
    ensures forall site :: site in sites <==>
              exists i | 0 <= i < |Split(output, "\n")| :: SiteRow(Split(output, "\n")[i]) == Some(site)
  {
    SiteMembers(Split(output, "\n"));
    Collect(SiteRow, Split(output, "\n"))
  }

  /**
   The records `listApps` builds from the CLI output: at most one per output
   line, and an app is listed exactly when some line reads as it.
   */
  function ParseApps(output: string): (apps: seq<App>)
    ensures |apps| <= |Split(output, "\n")|
    ensures forall app :: app in apps <==>
              exists i | 0 <= i < |Split(output, "\n")| :: AppRow(Split(output, "\n")[i]) == Some(app)
  {
    AppMembers(Split(output, "\n"));
    Collect(AppRow, Split(output, "\n"))
  }

  /** Every listed site comes from an output line that passes the row filter and has a numeric first cell. */
  lemma SitesComeFromDataLines(output: string, site: Site)
    requires site in ParseSites(output)
    ensures exists i | 0 <= i < |Split(output, "\n")| ::
              var line := Split(output, "\n")[i];
              DataLine(line, "UID") && |Cells(line)| >= 2 && ParsesAsInt(Cells(line)[0]) && Cells(line)[0] == site.num
  {
    CollectMember(SiteRow, Split(output, "\n"), site);
  }

  /** Every listed app comes from an output line that passes the row filter and has at least five cells. */
  lemma AppsComeFromDataLines(output: string, app: App)
    requires app in ParseApps(output)
    ensures exists i | 0 <= i < |Split(output, "\n")| ::
              var line := Split(output, "\n")[i];
              DataLine(line, "Title") && |Cells(line)| >= 5 && ParsesAsInt(Cells(line)[0]) && Cells(line)[0] == app.num
  {
    CollectMember(AppRow, Split(output, "\n"), app);
  }

  /*
   The other direction: a one-space reference renderer for data rows. A row
   of cells renders as `│ c1 │ c2 │ … │`, each cell padded with exactly one
   space. The CLI pads each cell to its column's width instead, so the round
   trips below are stated for this renderer only.
   */

  /** A cell a table can carry: no white space at either end (it may be empty), no separator glyph, no line break. */
  predicate PlainCell(c: string) {
    Tight(c) && '\U{201A}' !in c && '\n' !in c
  }

  predicate PlainCells(cells: seq<string>) {
    forall i | 0 <= i < |cells| :: PlainCell(cells[i])
  }

  function RowBody(cells: seq<string>): string
    decreases |cells|
  {
    if |cells| == 0 then "" else " " + cells[0] + " " + ColumnSep + RowBody(cells[1..])
  }

  /** One data row of a rendered table. */
  function RenderRow(cells: seq<string>): string {
    ColumnSep + RowBody(cells)
  }

  function Padded(cells: seq<string>): (r: seq<string>)
    ensures |r| == |cells|
    ensures forall i | 0 <= i < |cells| :: r[i] == " " + cells[i] + " "
  {
    seq(|cells|, i requires 0 <= i < |cells| => " " + cells[i] + " ")
  }

  /** Padding adds only spaces, so a character other than a space stays out of a padded cell. */
  lemma PaddingFree(c: string, x: char)
    requires x != ' ' && x !in c
    ensures x !in " " + c + " "
  {
    var piece := " " + c + " ";
    forall k | 0 <= k < |piece| ensures piece[k] != x {
      if 0 < k < |piece| - 1 {
        assert piece[k] == c[k - 1];
      }
    }
  }

  lemma PaddedCons(cells: seq<string>)
    requires |cells| > 0
    ensures Padded(cells) == [" " + cells[0] + " "] + Padded(cells[1..])
  {
  }

  lemma {:induction false} SplitBody(cells: seq<string>)
    requires PlainCells(cells)
    ensures Split(RowBody(cells), ColumnSep) == Padded(cells) + [""]
    decreases |cells|
  {
    if |cells| == 0 {
      SplitEmpty(ColumnSep);
    } else {
      var piece := " " + cells[0] + " ";
      PaddingFree(cells[0], ColumnSep[0]);
      SplitFirstSep(piece, ColumnSep, RowBody(cells[1..]));
      SplitBody(cells[1..]);
      PaddedCons(cells);
      AppendAssoc([piece], Padded(cells[1..]), [""]);
    }
  }

  lemma SplitRow(cells: seq<string>)
    requires PlainCells(cells)
    ensures Split(RenderRow(cells), ColumnSep) == [""] + Padded(cells) + [""]
  {
    SplitLeadingSep(ColumnSep, RowBody(cells));
    SplitBody(cells);
    AppendAssoc([""], Padded(cells), [""]);
  }

  /** Trimming the two empty border pieces leaves them empty. */
  lemma TrimFramed(mid: seq<string>)
    ensures TrimAll([""] + mid + [""]) == [""] + TrimAll(mid) + [""]
  {
    assert TrimAll([""]) == [""] by { TrimEmpty(""); }
    TrimAllConcat([""] + mid, [""]);
    TrimAllConcat([""], mid);
  }

  /** Trimming each padded cell gives back the tight cell. */
  lemma TrimPaddedCells(cells: seq<string>)
    requires PlainCells(cells)
    ensures TrimAll(Padded(cells)) == cells
  {
    forall i | 0 <= i < |cells| ensures TrimAll(Padded(cells))[i] == cells[i] {
      TrimPadded(cells[i]);
    }
  }

  lemma TrimPaddedAll(cells: seq<string>)
    requires PlainCells(cells)
    ensures TrimAll([""] + Padded(cells) + [""]) == [""] + cells + [""]
  {
    TrimFramed(Padded(cells));
    TrimPaddedCells(cells);
  }

  /** Splitting a rendered row and trimming the pieces gives the cells between two empty border pieces. */
  lemma TrimmedPieces(cells: seq<string>)
    requires PlainCells(cells)
    ensures TrimAll(Split(RenderRow(cells), ColumnSep)) == [""] + cells + [""]
  {
    SplitRow(cells);
    TrimPaddedAll(cells);
  }

  /** As the code splits it, a rendered row yields its non-empty cells: empty cells vanish. */
  lemma CellsOfRender(cells: seq<string>)
    requires PlainCells(cells)
    ensures Cells(RenderRow(cells)) == Filter(NonEmpty, cells)
  {
    TrimmedPieces(cells);
    FilterConcat(NonEmpty, [""] + cells, [""]);
    FilterConcat(NonEmpty, [""], cells);
  }

  /** A rendered row whose cells are all non-empty splits back into exactly those cells. */
  lemma CellsOfFullRow(cells: seq<string>)
    requires PlainCells(cells)
    requires forall i | 0 <= i < |cells| :: cells[i] != ""
    ensures Cells(RenderRow(cells)) == cells
  {
    CellsOfRender(cells);
    FilterAll(NonEmpty, cells);
  }

  /** No border glyph starts at one of the column separator's three positions. */
  lemma NoGlyphInSep(b: string, g: string, k: nat)
    requires |g| == 3 && g[0] == ColumnSep[0] && g != ColumnSep
    requires k < 3
    ensures !(g <= (ColumnSep + b)[k..])
  {
    var s := ColumnSep + b;
    if k == 0 {
      assert s[..3] == ColumnSep;
    } else {
      assert s[k..][0] == ColumnSep[k];
    }
  }

  /** A border glyph shares only its first character with the column separator, so none starts inside it. */
  lemma ContainsAfterSep(b: string, g: string)
    requires |g| == 3 && g[0] == ColumnSep[0] && g != ColumnSep
    requires Contains(ColumnSep + b, g)
    ensures Contains(b, g)
  {
    var s := ColumnSep + b;
    var i :| 0 <= i <= |s| - |g| && g <= s[i..];
    if i < 3 {
      NoGlyphInSep(b, g, i);
      assert false;
    }
    assert s[i..] == b[i - 3..];
  }

  lemma {:induction false} BodyAvoidsGlyph(cells: seq<string>, g: string)
    requires PlainCells(cells)
    requires |g| == 3 && g[0] == ColumnSep[0] && g != ColumnSep
    ensures !Contains(RowBody(cells), g)
    decreases |cells|
  {
    if |cells| > 0 {
      var piece := " " + cells[0] + " ";
      var rest := RowBody(cells[1..]);
      BodyAvoidsGlyph(cells[1..], g);
      if Contains(RowBody(cells), g) {
        PaddingFree(cells[0], g[0]);
        assert RowBody(cells) == piece + (ColumnSep + rest);
        ContainsSkip(piece, ColumnSep + rest, g);
        ContainsAfterSep(rest, g);
        assert false;
      }
    }
  }

  lemma {:induction false} BodyAvoidsMarker(cells: seq<string>, t: string)
    requires |t| > 0 && ' ' !in t && t[0] !in ColumnSep
    requires forall i | 0 <= i < |cells| :: !Contains(cells[i], t)
    ensures !Contains(RowBody(cells), t)
    decreases |cells|
  {
    if |cells| > 0 {
      var rest := ColumnSep + RowBody(cells[1..]);
      BodyAvoidsMarker(cells[1..], t);
      if Contains(RowBody(cells), t) {
        assert RowBody(cells) == "" + [' '] + (cells[0] + [' '] + rest);
        ContainsAround("", ' ', cells[0] + [' '] + rest, t);
        ContainsAround(cells[0], ' ', rest, t);
        ContainsSkip(ColumnSep, RowBody(cells[1..]), t);
        assert false;
      }
    }
  }

  /** A header word that cannot straddle a cell boundary: no space, and not starting like the separator. */
  predicate Marker(m: string) {
    |m| > 0 && ' ' !in m && m[0] !in ColumnSep
  }

  lemma HeaderWords()
    ensures Marker("UID") && Marker("Title")
  {
  }

  /**
   A rendered row passes the line filter whenever no cell holds the header
   word, and the header word shares no character with the padding or the
   separator's first character.
   */
  lemma RenderedRowIsData(cells: seq<string>, marker: string)
    requires PlainCells(cells)
    requires Marker(marker)
    requires forall i | 0 <= i < |cells| :: !Contains(cells[i], marker)
    ensures DataLine(RenderRow(cells), marker)
  {
    var row := RenderRow(cells);
    assert ColumnSep <= row[0..];
    assert !IsSpace(row[0]);
    forall g | g in [TopLeft, MidLeft, BottomLeft] ensures !Contains(row, g) {
      BodyAvoidsGlyph(cells, g);
      if Contains(row, g) {
        ContainsAfterSep(RowBody(cells), g);
        assert false;
      }
    }
    BodyAvoidsMarker(cells, marker);
    if Contains(row, marker) {
      ContainsSkip(ColumnSep, RowBody(cells), marker);
      assert false;
    }
  }

  function SiteCells(site: Site): seq<string> {
    [site.num, site.uid, site.subdomain, site.created]
  }

  function AppCells(app: App): seq<string> {
    [app.num, app.title, app.name, app.created, app.subdomain, app.opens, app.users]
  }

  /** A site's own cells read back as that site; an empty cell falls back to `''`, its own value. */
  lemma SiteOfCells(site: Site)
    ensures SiteOf(SiteCells(site)) == site
  {
  }

  /** An app's own cells read back as that app when both counts are present. */
  lemma AppOfCells(app: App)
    requires app.opens != "" && app.users != ""
    ensures AppOf(AppCells(app)) == app
  {
  }

  /** Cells a table can carry, the first a number, none holding the header word. */
  predicate RowReady(cells: seq<string>, marker: string) {
    && |cells| > 0
    && PlainCells(cells)
    && ParsesAsInt(cells[0])
    && forall i | 0 <= i < |cells| :: !Contains(cells[i], marker)
  }

  predicate Filled(cells: seq<string>) {
    forall i | 0 <= i < |cells| :: cells[i] != ""
  }

  /** A filled, table-ready row is a data line whose cells are exactly its cells. */
  lemma FullRowParses(cells: seq<string>, marker: string)
    requires RowReady(cells, marker) && Filled(cells) && Marker(marker)
    ensures DataLine(RenderRow(cells), marker) && Cells(RenderRow(cells)) == cells
  {
    CellsOfFullRow(cells);
    RenderedRowIsData(cells, marker);
  }

  /** Round trip of one `sites` row: a site whose fields are all filled in parses back from its rendered row. */
  lemma SiteRowRoundTrip(site: Site)
    requires RowReady(SiteCells(site), "UID") && Filled(SiteCells(site))
    ensures SiteRow(RenderRow(SiteCells(site))) == Some(site)
  {
    HeaderWords();
    FullRowParses(SiteCells(site), "UID");
    SiteOfCells(site);
  }

  /** Round trip of one `apps` row: an app whose seven fields are all filled in parses back from its rendered row. */
  lemma AppRowRoundTrip(app: App)
    requires RowReady(AppCells(app), "Title") && Filled(AppCells(app))
    ensures AppRow(RenderRow(AppCells(app))) == Some(app)
  {
    var cells := AppCells(app);
    var line := RenderRow(cells);
    HeaderWords();
    FullRowParses(cells, "Title");
    assert cells[5] != "" && cells[6] != "";
    assert AppRow(line) == Some(AppOf(cells));
    AppOfCells(app);
  }

  /** As written, an empty cell between filled ones vanishes and the cells after it move one place left. */
  lemma DropEmptyCell(xs: seq<string>, ys: seq<string>)
    requires PlainCells(xs + [""] + ys) && Filled(xs) && Filled(ys)
    ensures Cells(RenderRow(xs + [""] + ys)) == xs + ys
  {
    var cells := xs + [""] + ys;
    CellsOfRender(cells);
    FilterConcat(NonEmpty, xs + [""], ys);
    FilterConcat(NonEmpty, xs, [""]);
    FilterAll(NonEmpty, xs);
    FilterAll(NonEmpty, ys);
    assert Filter(NonEmpty, [""]) == [];
    AppendNothing(xs, ys);
  }

  lemma AppendNothing<T>(xs: seq<T>, ys: seq<T>)
    ensures xs + [] + ys == xs + ys
  {
  }

  /**
   So a site listed without a subdomain comes back with its creation date
   in the subdomain field and no creation date.
   */
  lemma EmptySubdomainShifts(site: Site)
    requires RowReady(SiteCells(site), "UID")
    requires site.subdomain == "" && site.uid != "" && site.created != ""
    ensures SiteRow(RenderRow(SiteCells(site))) == Some(Site(site.num, site.uid, site.created, ""))
  {
    var line := RenderRow(SiteCells(site));
    var shifted := [site.num, site.uid, site.created];
    ShiftedCells(site);
    HeaderWords();
    RenderedRowIsData(SiteCells(site), "UID");
    assert SiteRow(line) == Some(SiteOf(shifted));
    ThreeCellSite(site.num, site.uid, site.created);
  }

  lemma ThreeCellSite(num: string, uid: string, created: string)
    requires created != ""
    ensures SiteOf([num, uid, created]) == Site(num, uid, created, "")
  {
  }

  lemma ShiftedCells(site: Site)
    requires PlainCells(SiteCells(site))
    requires site.subdomain == "" && site.num != "" && site.uid != "" && site.created != ""
    ensures Cells(RenderRow(SiteCells(site))) == [site.num, site.uid, site.created]
  {
    var xs := [site.num, site.uid];
    var ys := [site.created];
    assert SiteCells(site) == xs + [""] + ys;
    DropEmptyCell(xs, ys);
    PairThenOne(site.num, site.uid, site.created);
  }

  lemma PairThenOne<T>(a: T, b: T, c: T)
    ensures [a, b] + [c] == [a, b, c]
  {
  }

  /**
   Corrected split: the pieces between the outer separators keep their
   positions, empty ones included; only the empty pieces outside the first
   and last separator are dropped.
   */
  function CellsFixed(line: string): (cells: seq<string>)
    ensures forall i | 0 <= i < |cells| :: Tight(cells[i])
  {
    DropBorderPieces(TrimAll(Split(line, ColumnSep)))
  }

  /** Drops an empty first piece and an empty last piece, and nothing else. */
  function DropBorderPieces(p: seq<string>): (q: seq<string>)
    ensures forall x | x in q :: x in p
  {
    var q := if |p| > 0 && p[0] == "" then p[1..] else p;
    if |q| > 0 && q[|q| - 1] == "" then q[..|q| - 1] else q
  }

  lemma DropBordersOf(cells: seq<string>)
    ensures DropBorderPieces([""] + cells + [""]) == cells
  {
    var p := [""] + cells + [""];
    assert p[1..] == cells + [""];
    assert (cells + [""])[..|cells|] == cells;
  }

  /** A rendered row splits back into exactly its cells, empty ones in place. */
  lemma CellsFixedOfRender(cells: seq<string>)
    requires PlainCells(cells)
    ensures CellsFixed(RenderRow(cells)) == cells
  {
    TrimmedPieces(cells);
    DropBordersOf(cells);
  }

  /** The `sites` row parser over the corrected split. */
  function SiteRowFixed(line: string): (r: Option<Site>)
    ensures r.Some? <==> DataLine(line, "UID") && |CellsFixed(line)| >= 2 && ParsesAsInt(CellsFixed(line)[0])
    ensures r.Some? ==> r.value == SiteOf(CellsFixed(line))
  {
    match Accept(line, "UID", CellsFixed(line), 2)
    case None => None
    case Some(c) => Some(SiteOf(c))
  }

  /** The `apps` row parser over the corrected split. */
  function AppRowFixed(line: string): (r: Option<App>)
    ensures r.Some? <==> DataLine(line, "Title") && |CellsFixed(line)| >= 5 && ParsesAsInt(CellsFixed(line)[0])
    ensures r.Some? ==> r.value == AppOf(CellsFixed(line))
  {
    match Accept(line, "Title", CellsFixed(line), 5)
    case None => None
    case Some(c) => Some(AppOf(c))
  }

  /** With the corrected split every site parses back from its row, an empty subdomain or date included. */
  lemma SiteRowFixedRoundTrip(site: Site)
    requires RowReady(SiteCells(site), "UID") && site.uid != ""
    ensures SiteRowFixed(RenderRow(SiteCells(site))) == Some(site)
  {
    var cells := SiteCells(site);
    CellsFixedOfRender(cells);
    HeaderWords();
    RenderedRowIsData(cells, "UID");
    SiteOfCells(site);
  }

  /** With the corrected split an app whose counts are filled in parses back, whatever its other cells hold. */
  lemma AppRowFixedRoundTrip(app: App)
    requires RowReady(AppCells(app), "Title") && app.opens != "" && app.users != ""
    ensures AppRowFixed(RenderRow(AppCells(app))) == Some(app)
  {
    var cells := AppCells(app);
    CellsFixedOfRender(cells);
    HeaderWords();
    RenderedRowIsData(cells, "Title");
    AppOfCells(app);
  }

  /** The records the corrected `sites` parser builds. */
  function ParseSitesFixed(output: string): seq<Site> {
    Collect(SiteRowFixed, Split(output, "\n"))
  }

  /** The records the corrected `apps` parser builds. */
  function ParseAppsFixed(output: string): seq<App> {
    Collect(AppRowFixed, Split(output, "\n"))
  }

  /** Padding and separators add no line break, so a row of single-line cells is a single line. */
  lemma {:induction false} RowIsOneLine(cells: seq<string>)
    requires PlainCells(cells)
    ensures '\n' !in RenderRow(cells)
    decreases |cells|
  {
    if |cells| > 0 {
      RowIsOneLine(cells[1..]);
      PaddingFree(cells[0], '\n');
      assert RenderRow(cells) == ColumnSep + (" " + cells[0] + " ") + RenderRow(cells[1..]);
    }
  }

  /** A parser that rejects the framing lines and accepts each row as its record reads the whole table back. */
  lemma TableRoundTrip<T>(parse: string -> Option<T>, top: string, header: string, rule: string, rows: seq<string>, bottom: string, xs: seq<T>)
    requires |rows| == |xs|
    requires parse(top).None? && parse(header).None? && parse(rule).None? && parse(bottom).None?
    requires '\n' !in top && '\n' !in header && '\n' !in rule && '\n' !in bottom
    requires forall i | 0 <= i < |rows| :: parse(rows[i]) == Some(xs[i]) && '\n' !in rows[i]
    ensures Collect(parse, Split(Join([top, header, rule] + rows + [bottom], "\n"), "\n")) == xs
  {
    var lines := [top, header, rule] + rows + [bottom];
    forall i | 0 <= i < |lines| ensures '\n' !in lines[i] {
      if 3 <= i < 3 + |rows| {
        assert lines[i] == rows[i - 3];
      }
    }
    SplitJoin(lines, '\n');
    CollectFramed(parse, top, header, rule, rows, bottom, xs);
  }

  lemma CollectFramed<T>(parse: string -> Option<T>, top: string, header: string, rule: string, rows: seq<string>, bottom: string, xs: seq<T>)
    requires |rows| == |xs|
    requires parse(top).None? && parse(header).None? && parse(rule).None? && parse(bottom).None?
    requires forall i | 0 <= i < |rows| :: parse(rows[i]) == Some(xs[i])
    ensures Collect(parse, [top, header, rule] + rows + [bottom]) == xs
  {
    var frame := [top, header, rule];
    var body := frame + rows;
    assert Collect(parse, frame) == [] by { CollectNone(parse, frame); }
    assert Collect(parse, rows) == xs by { CollectAll(parse, rows, xs); }
    assert Collect(parse, body) == xs by { CollectConcat(parse, frame, rows); }
    assert Collect(parse, [bottom]) == [] by { CollectNone(parse, [bottom]); }
    CollectConcat(parse, body, [bottom]);
  }

  lemma {:induction false} CollectNone<T>(parse: string -> Option<T>, lines: seq<string>)
    requires forall i | 0 <= i < |lines| :: parse(lines[i]).None?
    ensures Collect(parse, lines) == []
    decreases |lines|
  {
    if |lines| > 0 {
      CollectNone(parse, lines[1..]);
    }
  }

  lemma {:induction false} CollectAll<T>(parse: string -> Option<T>, lines: seq<string>, xs: seq<T>)
    requires |lines| == |xs|
    requires forall i | 0 <= i < |lines| :: parse(lines[i]) == Some(xs[i])
    ensures Collect(parse, lines) == xs
    decreases |lines|
  {
    if |lines| > 0 {
      CollectAll(parse, lines[1..], xs[1..]);
    }
  }

  function SiteLines(sites: seq<Site>): (rows: seq<string>)
    ensures |rows| == |sites|
  {
    seq(|sites|, i requires 0 <= i < |sites| => RenderRow(SiteCells(sites[i])))
  }

  function AppLines(apps: seq<App>): (rows: seq<string>)
    ensures |rows| == |apps|
  {
    seq(|apps|, i requires 0 <= i < |apps| => RenderRow(AppCells(apps[i])))
  }

  /** The framing lines of a table: borders that carry a left border glyph, and a header that carries the header word. */
  predicate Frame(top: string, header: string, rule: string, bottom: string, marker: string) {
    && Contains(top, TopLeft) && Contains(header, marker)
    && Contains(rule, MidLeft) && Contains(bottom, BottomLeft)
    && '\n' !in top && '\n' !in header && '\n' !in rule && '\n' !in bottom
  }

  /** A whole `sites` table of filled-in sites parses back into those sites, in order. */
  lemma SitesTableRoundTrip(top: string, header: string, rule: string, bottom: string, sites: seq<Site>)
    requires Frame(top, header, rule, bottom, "UID")
    requires forall i | 0 <= i < |sites| :: RowReady(SiteCells(sites[i]), "UID") && Filled(SiteCells(sites[i]))
    ensures ParseSites(Join([top, header, rule] + SiteLines(sites) + [bottom], "\n")) == sites
  {
    var rows := SiteLines(sites);
    forall i | 0 <= i < |rows| ensures SiteRow(rows[i]) == Some(sites[i]) && '\n' !in rows[i] {
      SiteRowRoundTrip(sites[i]);
      RowIsOneLine(SiteCells(sites[i]));
    }
    TableRoundTrip(SiteRow, top, header, rule, rows, bottom, sites);
  }

  /** A whole `apps` table of filled-in apps parses back into those apps, in order. */
  lemma AppsTableRoundTrip(top: string, header: string, rule: string, bottom: string, apps: seq<App>)
    requires Frame(top, header, rule, bottom, "Title")
    requires forall i | 0 <= i < |apps| :: RowReady(AppCells(apps[i]), "Title") && Filled(AppCells(apps[i]))
    ensures ParseApps(Join([top, header, rule] + AppLines(apps) + [bottom], "\n")) == apps
  {
    var rows := AppLines(apps);
    forall i | 0 <= i < |rows| ensures AppRow(rows[i]) == Some(apps[i]) && '\n' !in rows[i] {
      AppRowRoundTrip(apps[i]);
      RowIsOneLine(AppCells(apps[i]));
    }
    TableRoundTrip(AppRow, top, header, rule, rows, bottom, apps);
  }

  /** With the corrected split, a `sites` table reads back every site, empty subdomains and dates included. */
  lemma SitesTableFixedRoundTrip(top: string, header: string, rule: string, bottom: string, sites: seq<Site>)
    requires Frame(top, header, rule, bottom, "UID")
    requires forall i | 0 <= i < |sites| :: RowReady(SiteCells(sites[i]), "UID") && sites[i].uid != ""
    ensures ParseSitesFixed(Join([top, header, rule] + SiteLines(sites) + [bottom], "\n")) == sites
  {
    var rows := SiteLines(sites);
    forall i | 0 <= i < |rows| ensures SiteRowFixed(rows[i]) == Some(sites[i]) && '\n' !in rows[i] {
      SiteRowFixedRoundTrip(sites[i]);
      RowIsOneLine(SiteCells(sites[i]));
    }
    TableRoundTrip(SiteRowFixed, top, header, rule, rows, bottom, sites);
  }

  /** With the corrected split, an `apps` table reads back every app whose counts are filled in. */
  lemma AppsTableFixedRoundTrip(top: string, header: string, rule: string, bottom: string, apps: seq<App>)
    requires Frame(top, header, rule, bottom, "Title")
    requires forall i | 0 <= i < |apps| :: RowReady(AppCells(apps[i]), "Title") && apps[i].opens != "" && apps[i].users != ""
    ensures ParseAppsFixed(Join([top, header, rule] + AppLines(apps) + [bottom], "\n")) == apps
  {
    var rows := AppLines(apps);
    forall i | 0 <= i < |rows| ensures AppRowFixed(rows[i]) == Some(apps[i]) && '\n' !in rows[i] {
      AppRowFixedRoundTrip(apps[i]);
      RowIsOneLine(AppCells(apps[i]));
    }
    TableRoundTrip(AppRowFixed, top, header, rule, rows, bottom, apps);
  }
}
