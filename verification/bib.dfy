/** A workbook from a BibTeX file: `LibroPandas._contar_paginas` and
    `LibroPandas.desde_bib` (excel_pandas/libro.py).

    Parsing the `.bib` file is not modelled: its entries come in as maps from field name
    to text, which is what the BibTeX parser hands over. Opening a PDF to count its pages
    (path normalisation, the existence check, the PDF library) comes in as `probe`, which
    gives the count or `None` when the file is missing or unreadable. */
module Bib {
  import opened Wrappers
  import opened PyStr
  import opened PyInt
  import opened Latex
  import opened Sheets
  import opened Workbooks

  // ---------------------------------------------------------------------------------
  // _contar_paginas
  // ---------------------------------------------------------------------------------

  /** The count from a `pages` field of the form `inicio--fin`: exactly two pieces
      around `--`, both integers, giving `fin - inicio + 1`. Anything else gives
      nothing and the caller moves on. A reversed range is not rejected: its count is
      zero or negative. */
  function RangeCount(pages: string): Option<int>
  {
    if !Contains(pages, "--") then None
    else
      var ps := Split(pages, "--");
      if |ps| == 2 then Inclusive(ParseInt(ps[0]), ParseInt(ps[1])) else None
  }

  /** `int(fin) - int(inicio) + 1`, when both conversions succeed. */
  function Inclusive(inicio: Option<int>, fin: Option<int>): Option<int>
  {
    if inicio.Some? && fin.Some? then Some(fin.value - inicio.value + 1) else None
  }

  lemma InclusiveOf(inicio: Option<int>, fin: Option<int>, x: int, y: int)
    requires inicio == Some(x) && fin == Some(y)
    ensures Inclusive(inicio, fin) == Some(y - x + 1)
  {
  }

  /** A count from the `pages` field comes from two integers with a single `--`
      between them. */
  lemma RangeCountMeans(pages: string)
    ensures RangeCount(pages).Some? ==> exists a, b ::
      && pages == a + "--" + b && !Contains(a, "--") && !Contains(b, "--")
      && ParseInt(a).Some? && ParseInt(b).Some?
      && RangeCount(pages).value == ParseInt(b).value - ParseInt(a).value + 1
  {
    if RangeCount(pages).Some? {
      var ps := Split(pages, "--");
      var a, b := ps[0], ps[1];
      assert Join(ps, "--") == a + "--" + b by {
        assert Join(ps[1..], "--") == b;
      }
      assert a in ps && b in ps;
      InclusiveOf(ParseInt(a), ParseInt(b), ParseInt(a).value, ParseInt(b).value);
      assert pages == a + "--" + b && !Contains(a, "--") && !Contains(b, "--");
    }
  }

  /** A piece of a `file` field that names a PDF, once stripped and lower-cased. */
  predicate IsPdf(p: string)
  {
    EndsWith(Lower(Strip(p)), ".pdf")
  }

  /** Piece `i` is the first that `keep` accepts. */
  predicate FirstAt(ps: seq<string>, keep: string -> bool, i: int)
  {
    0 <= i < |ps| && keep(ps[i]) && forall k :: 0 <= k < i ==> !keep(ps[k])
  }

  /** The first piece `keep` accepts, `[p for p in ps if keep(p)][0]`. */
  function FirstWhere(ps: seq<string>, keep: string -> bool): (r: Option<string>)
    ensures r.None? <==> forall i :: 0 <= i < |ps| ==> !keep(ps[i])
    ensures r.Some? ==> exists i :: FirstAt(ps, keep, i) && ps[i] == r.value
    ensures forall i :: FirstAt(ps, keep, i) ==> r == Some(ps[i])
  {
    if |ps| == 0 then None
    else if keep(ps[0]) then Some(ps[0])
    else
      var r := FirstWhere(ps[1..], keep);
      assert forall k :: 0 <= k < |ps| - 1 ==> ps[1..][k] == ps[k + 1];
      assert r.Some? ==> FirstAt(ps, keep, 0) || exists i :: FirstAt(ps[1..], keep, i) && ps[1..][i] == r.value;
      r
  }

  function AsInt(c: Option<nat>): (r: Option<int>)
    ensures r.Some? <==> c.Some?
    ensures r.Some? ==> r.value == c.value
  {
    match c
    case None => None
    case Some(n) => Some(n)
  }

  /** `_contar_paginas`, with `None` for the empty string it returns when no count can be
      had. The `pages` field wins; otherwise the PDF strategy of `PdfCount` decides. */
  function CountPages(pages: string, file: string, probe: string -> Option<nat>): (r: Option<int>)
    ensures RangeCount(pages).Some? ==> r == RangeCount(pages)
    ensures RangeCount(pages).None? && !Contains(Lower(file), ".pdf") ==> r.None?
    ensures r.Some? && RangeCount(pages).None? ==>
      exists p :: p in Split(file, ":") && IsPdf(p) && r == AsInt(probe(Strip(p)))
    ensures RangeCount(pages).None? && Contains(Lower(file), ".pdf") ==>
      forall i :: FirstAt(Split(file, ":"), IsPdf, i) ==> r == AsInt(probe(Strip(Split(file, ":")[i])))
    ensures (forall i :: 0 <= i < |Split(file, ":")| ==> !IsPdf(Split(file, ":")[i])) ==>
      r == RangeCount(pages)
  {
    match RangeCount(pages)
    case Some(n) => Some(n)
    case None => PdfCount(file, probe)
  }

  /** The PDF strategy: a `file` field mentioning `.pdf` is split at colons (the Mendeley
      form) and the first piece naming a PDF, stripped, is opened; no such piece, or no
      `.pdf` at all, gives nothing. */
  function PdfCount(file: string, probe: string -> Option<nat>): (r: Option<int>)
    ensures !Contains(Lower(file), ".pdf") ==> r.None?
    ensures r.Some? ==> exists p :: p in Split(file, ":") && IsPdf(p) && r == AsInt(probe(Strip(p)))
    ensures Contains(Lower(file), ".pdf") ==>
      forall i :: FirstAt(Split(file, ":"), IsPdf, i) ==> r == AsInt(probe(Strip(Split(file, ":")[i])))
    ensures (forall i :: 0 <= i < |Split(file, ":")| ==> !IsPdf(Split(file, ":")[i])) ==> r.None?
  {
    if Contains(Lower(file), ".pdf") then
      var ps := Split(file, ":");
      match FirstWhere(ps, IsPdf)
      case None => None
      case Some(p) =>
        assert p in ps;
        AsInt(probe(Strip(p)))
    else None
  }

  /** `"x--y"` counts `y - x + 1` pages, whatever the file field says. */
  lemma PageRangeCount(x: nat, y: nat, file: string, probe: string -> Option<nat>)
    ensures CountPages(Show(x) + "--" + Show(y), file, probe) == Some(y - x + 1)
  {
    ShowsRange(x, y, Show(x) + "--" + Show(y));
  }

  lemma ShowsRange(x: nat, y: nat, pages: string)
    requires pages == Show(x) + "--" + Show(y)
    ensures RangeCount(pages) == Some(y - x + 1)
  {
    DigitsNoDash(Show(x));
    DigitsNoDash(Show(y));
    ParseShow(x);
    ParseShow(y);
    RangeCountOf(Show(x), Show(y), x, y);
  }

  /** Two integers around a single `--` are a range, in any spelling `int()` accepts
      (`" 3--+7"` counts 5 pages, `"-2--5"` counts 8): the converse of
      `RangeCountMeans`. */
  lemma RangeCountOf(a: string, b: string, x: int, y: int)
    requires !Contains(a, "--") && !Contains(b, "--")
    requires ParseInt(a) == Some(x) && ParseInt(b) == Some(y)
    ensures RangeCount(a + "--" + b) == Some(y - x + 1)
  {
    IntEndsWell(a);
    NoDashRunOn(a);
    SplitPair(a, b);
    InclusiveOf(ParseInt(a), ParseInt(b), x, y);
  }

  /** Two `--`-free pieces, the first not ending in `-`, joined by `--`: the text has a
      `--` and splits back into the two pieces. */
  lemma SplitPair(a: string, b: string)
    requires !Contains(a, "--") && !Contains(b, "--") && !Contains(a + "-", "--")
    ensures Contains(a + "--" + b, "--")
    ensures Split(a + "--" + b, "--") == [a, b]
  {
    var pages := a + "--" + b;
    assert Join([a, b], "--") == pages;
    assert forall p :: p in [a, b] ==> !Contains(p, "--");
    assert SplitsLeftmost([a, b], "--") by {
      assert [a, b][0] + "--"[..1] == a + "-";
    }
    SplitUnique(pages, "--", [a, b]);
    assert OccursAt(pages, "--", |a|) by {
      assert pages[|a|..|a| + 2] == "--";
    }
    ContainsAt(pages, "--", |a|);
  }

  /** A piece that does not end in `-` cannot start a `--` that runs past its end. */
  lemma NoDashRunOn(a: string)
    requires !Contains(a, "--") && (|a| == 0 || a[|a| - 1] != '-')
    ensures !Contains(a + "-", "--")
  {
    var t := a + "-";
    forall j | 0 <= j && j + 2 <= |t|
      ensures !OccursAt(t, "--", j)
    {
      if j + 2 <= |a| {
        assert !OccursAt(a, "--", j);
        assert a[j..j + 2] == t[j..j + 2];
      } else {
        assert t[j..j + 2][0] == t[j] && t[j] == a[|a| - 1];
      }
    }
  }

  lemma DigitsNoDash(s: string)
    requires AllDigits(s)
    ensures '-' !in s && !Contains(s, "--")
  {
    if Contains(s, "--") {
      ContainsFirstChar(s, "--");
    }
  }

  /** A Mendeley-style field `:D:rest:pdf` is split at every colon, the drive letter
      included, so the path opened is `rest` without its drive: `C:/p/f.pdf` is looked
      up as `/p/f.pdf`. */
  lemma MendeleyDropsDrive(pages: string, d: char, rest: string, probe: string -> Option<nat>)
    requires RangeCount(pages).None?
    requires d != ':' && ':' !in rest && Stripped(rest) && EndsWith(Lower(rest), ".pdf")
    ensures CountPages(pages, ":" + [d] + ":" + rest + ":pdf", probe) == AsInt(probe(rest))
  {
    var file := ":" + [d] + ":" + rest + ":pdf";
    MendeleyPieces(d, rest, file);
    PdfPath(rest);
    assert file[3..3 + |rest|] == rest;
    PdfInFile(file, rest, 3);
    ThirdPieceCount(pages, file, "", [d], rest, "pdf", probe);
    StrippedFixed(rest);
  }

  /** When the third of four colon-separated pieces is the first to name a PDF, that
      is the file probed. */
  lemma ThirdPieceCount(pages: string, file: string, e: string, d: string, p: string, t: string,
                        probe: string -> Option<nat>)
    requires RangeCount(pages).None? && Contains(Lower(file), ".pdf")
    requires Split(file, ":") == [e, d, p, t]
    requires |e| < 4 && |d| < 4 && IsPdf(p)
    ensures CountPages(pages, file, probe) == AsInt(probe(Strip(p)))
  {
    ShortNotPdf(e);
    ShortNotPdf(d);
    ThirdFirst(e, d, p, t, IsPdf);
  }

  lemma ThirdFirst(e: string, d: string, p: string, t: string, keep: string -> bool)
    requires !keep(e) && !keep(d) && keep(p)
    ensures FirstWhere([e, d, p, t], keep) == Some(p)
  {
    var ps := [e, d, p, t];
    assert FirstAt(ps, keep, 2);
    FirstUnique(ps, keep, 2);
  }

  /** A stripped path ending in `.pdf`, in any case, names a PDF. */
  lemma PdfPath(p: string)
    requires Stripped(p) && EndsWith(Lower(p), ".pdf")
    ensures IsPdf(p)
  {
    StrippedFixed(p);
  }

  lemma MendeleyPieces(d: char, rest: string, file: string)
    requires d != ':' && ':' !in rest && file == ":" + [d] + ":" + rest + ":pdf"
    ensures Split(file, ":") == ["", [d], rest, "pdf"]
  {
    var ps := ["", [d], rest, "pdf"];
    assert Join(ps, ":") == file by {
      assert Join(ps[3..], ":") == "pdf";
      assert Join(ps[2..], ":") == rest + ":" + "pdf";
      assert Join(ps[1..], ":") == [d] + ":" + (rest + ":" + "pdf");
    }
    SplitJoin(ps, ':');
  }

  /** Fewer than four characters cannot end in `.pdf`. */
  lemma ShortNotPdf(p: string)
    requires |p| < 4
    ensures !IsPdf(p)
  {
  }

  lemma FirstUnique(ps: seq<string>, keep: string -> bool, m: int)
    requires FirstAt(ps, keep, m)
    ensures FirstWhere(ps, keep) == Some(ps[m])
  {
    var r := FirstWhere(ps, keep);
    var i :| FirstAt(ps, keep, i) && ps[i] == r.value;
    assert !(i < m) && !(m < i);
  }

  /** A `.pdf` ending inside the field is a `.pdf` in the lower-cased field. */
  lemma PdfInFile(file: string, p: string, at: nat)
    requires at + |p| <= |file| && file[at..at + |p|] == p && EndsWith(Lower(p), ".pdf")
    ensures Contains(Lower(file), ".pdf")
  {
    var k := at + |p| - 4;
    forall m | 0 <= m < 4
      ensures Lower(file)[k + m] == ".pdf"[m]
    {
      assert file[k + m] == p[|p| - 4 + m];
      assert Lower(p)[|p| - 4 + m] == ".pdf"[m];
    }
    assert Lower(file)[k..k + 4] == ".pdf";
    ContainsAt(Lower(file), ".pdf", k);
  }

  // ---------------------------------------------------------------------------------
  // desde_bib
  // ---------------------------------------------------------------------------------

  /** A parsed BibTeX entry: field name to text. */
  type Entry = map<string, string>

  /** `entry.get(k, "")` */
  function Get(e: Entry, k: string): string
  {
    if k in e then e[k] else ""
  }

  /** Where a column's cells come from: a field of the entry, or the page count. */
  datatype Source = FieldOf(key: string) | PageCount

  /** The columns of the table, in order, with where each comes from. */
  const BibColumns: seq<(string, Source)> := [
    ("ID", FieldOf("ID")), ("Type", FieldOf("ENTRYTYPE")), ("Title", FieldOf("title")),
    ("Author(s)", FieldOf("author")), ("Year", FieldOf("year")), ("Journal", FieldOf("journal")),
    ("Volume", FieldOf("volume")), ("Number", FieldOf("number")), ("Pages", FieldOf("pages")),
    ("Page Count", PageCount), ("DOI", FieldOf("doi")), ("URL", FieldOf("url")),
    ("Keywords", FieldOf("keywords")), ("Abstract", FieldOf("abstract")),
    ("Publisher", FieldOf("publisher")), ("ISSN", FieldOf("issn")), ("File", FieldOf("file"))]

  function Labels(): (r: seq<string>)
    ensures |r| == |BibColumns| && forall j :: 0 <= j < |BibColumns| ==> r[j] == BibColumns[j].0
  {
    seq(|BibColumns|, j requires 0 <= j < |BibColumns| => BibColumns[j].0)
  }

  /** The page-count cell: the number, or the empty string. */
  function PageCell(c: Option<int>): (v: Value)
    ensures c.Some? <==> v.Int?
    ensures c.Some? ==> v == Int(c.value)
    ensures c.None? ==> v.Text? && |v.s| == 0
  {
    match c
    case None => Text("")
    case Some(n) => Int(n)
  }

  /** One entry's row, before cleaning. */
  function Record(e: Entry, probe: string -> Option<nat>): (r: Row)
    ensures |r| == |BibColumns|
  {
    seq(|BibColumns|, j requires 0 <= j < |BibColumns| =>
      match BibColumns[j].1
      case FieldOf(k) => Text(Get(e, k))
      case PageCount => PageCell(CountPages(Get(e, "pages"), Get(e, "file"), probe)))
  }

  /** `pd.DataFrame(registros)`: one row per entry; no entries give a table without
      columns. */
  function BibFrame(entries: seq<Entry>, probe: string -> Option<nat>): (f: Frame)
    ensures Rectangular(f) && |f.rows| == |entries|
    ensures |entries| > 0 ==> f.columns == Labels()
    ensures |entries| == 0 ==> f.columns == []
  {
    if |entries| == 0 then Frame([], [])
    else Frame(Labels(), seq(|entries|, i requires 0 <= i < |entries| => Record(entries[i], probe)))
  }

  const BibBookName: string := "articulos_bib"

  /** `desde_bib`: one sheet under `nombreHoja`, every entry a row, every text column
      decoded from LaTeX, in a workbook named `articulos_bib`. */
  function FromBib(entries: seq<Entry>, nombreHoja: string, probe: string -> Option<nat>): (w: Workbook)
    ensures w.nombre == BibBookName && Keys(w.hojas) == [nombreHoja]
    ensures w.hojas[0].1.nombre == nombreHoja && |w.hojas[0].1.frame.rows| == |entries|
  {
    var h := CleanLatex(Sheet(nombreHoja, BibFrame(entries, probe)), None);
    Workbook(BibBookName, [(nombreHoja, h)])
  }

  lemma LabelsDistinct()
    ensures Distinct(Labels())
  {
  }

  /** The workbook holds one valid sheet; with entries its columns are the seventeen
      BibTeX columns and every row has a cell for each. */
  lemma FromBibShape(entries: seq<Entry>, nombreHoja: string, probe: string -> Option<nat>)
    ensures var w := FromBib(entries, nombreHoja, probe);
      && Valid(w)
      && GetSheet(w, nombreHoja).Some?
      && WellFormed(w.hojas[0].1.frame)
      && (|entries| > 0 ==> w.hojas[0].1.frame.columns == Labels())
  {
    LabelsDistinct();
  }

  /** Every cell of the sheet: a field column holds the entry's field (empty when the
      entry lacks it) with its LaTeX decoded; the page-count column holds the count or
      the empty string. */
  lemma FromBibCells(entries: seq<Entry>, nombreHoja: string, probe: string -> Option<nat>)
    ensures var f := FromBib(entries, nombreHoja, probe).hojas[0].1.frame;
      forall i, j :: 0 <= i < |entries| && 0 <= j < |BibColumns| ==>
        f.rows[i][j] == match BibColumns[j].1
          case FieldOf(k) => Text(DecodeText(Get(entries[i], k)))
          case PageCount => PageCell(CountPages(Get(entries[i], "pages"), Get(entries[i], "file"), probe))
  {
    var h := Sheet(nombreHoja, BibFrame(entries, probe));
    LabelsDistinct();
    CleanDefault(h);
    forall i, j | 0 <= i < |entries| && 0 <= j < |BibColumns| && BibColumns[j].1.PageCount?
      ensures DecodeValue(h.frame.rows[i][j]) == h.frame.rows[i][j]
    {
      var v := h.frame.rows[i][j];
      if v.Text? {
        EmptyDecodes(v.s);
      }
    }
  }

  lemma EmptyDecodes(s: string)
    requires |s| == 0
    ensures DecodeText(s) == s
  {
    DecodePlain(s);
  }
}
