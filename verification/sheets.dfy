/** A sheet of the workbook (`HojaPandas` in excel_pandas/hoja.py): a named table of
    cells. Every operation builds a new sheet; the name of the sheet it started from is
    carried over, as the `_constructor` override arranges for pandas-derived frames. */
module Sheets {
  import opened Wrappers
  import opened Errors
  import opened PyStr
  import opened Latex

  /** A cell: pandas' missing value, a string, an integer, or a list of strings (the
      keyword lists `TypeColumns` builds). */
  datatype Value = Null | Text(s: string) | Int(n: int) | List(items: seq<string>)

  type Row = seq<Value>

  /** A table without a name: the column labels in order and the rows. */
  datatype Frame = Frame(columns: seq<string>, rows: seq<Row>)

  datatype Sheet = Sheet(nombre: string, frame: Frame)

  predicate Rectangular(f: Frame)
  {
    forall i :: 0 <= i < |f.rows| ==> |f.rows[i]| == |f.columns|
  }

  predicate Distinct(cols: seq<string>)
  {
    forall i, j :: 0 <= i < j < |cols| ==> cols[i] != cols[j]
  }

  /** A frame of the kind the model works on: one cell per column in every row, and no
      column label twice. */
  predicate WellFormed(f: Frame)
  {
    Rectangular(f) && Distinct(f.columns)
  }

  /** The position of a column label, if it is one. */
  function ColumnIndex(cols: seq<string>, c: string): (r: Option<nat>)
    ensures r.Some? ==> r.value < |cols| && cols[r.value] == c
    ensures r.Some? ==> forall j :: 0 <= j < r.value ==> cols[j] != c
    ensures r.None? <==> c !in cols
  {
    if |cols| == 0 then None
    else if cols[0] == c then Some(0)
    else match ColumnIndex(cols[1..], c)
      case None => None
      case Some(j) => Some(j + 1)
  }

  lemma DistinctIndex(cols: seq<string>, j: nat)
    requires Distinct(cols) && j < |cols|
    ensures ColumnIndex(cols, cols[j]) == Some(j)
  {
  }

  // ---------------------------------------------------------------------------------
  // insertar_fila
  // ---------------------------------------------------------------------------------

  /** `pd.Series(valores, index=columns)`: one cell per column, in column order; a column
      the dict lacks gets a missing value and a key that is not a column is dropped. */
  function NewRow(cols: seq<string>, valores: map<string, Value>): (r: Row)
    ensures |r| == |cols|
    ensures forall j :: 0 <= j < |cols| && cols[j] in valores ==> r[j] == valores[cols[j]]
    ensures forall j :: 0 <= j < |cols| && cols[j] !in valores ==> r[j] == Null
  {
    seq(|cols|, j requires 0 <= j < |cols| => if cols[j] in valores then valores[cols[j]] else Null)
  }

  /** Where the new row lands among `n` rows: the end when no index is given, otherwise
      the index read as a Python slice bound (`rows[:k]`): negative counts from the end,
      and out-of-range bounds are clamped to the rows there are. */
  function InsertPosition(index: Option<int>, n: nat): (p: nat)
    ensures p <= n
  {
    match index
    case None => n
    case Some(k) =>
      if k < 0 then (if k + n < 0 then 0 else k + n)
      else if k > n then n
      else k
  }

  /** `insertar_fila`: a new sheet with the row built from `valores` inserted, the
      original left as it was. */
  function InsertRow(h: Sheet, valores: map<string, Value>, index: Option<int>): (r: Sheet)
    ensures r.nombre == h.nombre && r.frame.columns == h.frame.columns
    ensures |r.frame.rows| == |h.frame.rows| + 1
    ensures var p := InsertPosition(index, |h.frame.rows|);
      && (forall i :: 0 <= i < p ==> r.frame.rows[i] == h.frame.rows[i])
      && r.frame.rows[p] == NewRow(h.frame.columns, valores)
      && (forall i :: p < i < |r.frame.rows| ==> r.frame.rows[i] == h.frame.rows[i - 1])
    ensures Rectangular(h.frame) ==> Rectangular(r.frame)
  {
    var rows := h.frame.rows;
    var p := InsertPosition(index, |rows|);
    Sheet(h.nombre, Frame(h.frame.columns, rows[..p] + [NewRow(h.frame.columns, valores)] + rows[p..]))
  }

  /** Dropping the row at position `p`. */
  function RemoveRow(h: Sheet, p: nat): (r: Sheet)
    requires p < |h.frame.rows|
    ensures |r.frame.rows| == |h.frame.rows| - 1
  {
    Sheet(h.nombre, Frame(h.frame.columns, h.frame.rows[..p] + h.frame.rows[p + 1..]))
  }

  /** Inserting a row and then dropping it again gives back the original sheet. */
  lemma InsertThenRemove(h: Sheet, valores: map<string, Value>, index: Option<int>)
    ensures var p := InsertPosition(index, |h.frame.rows|);
      RemoveRow(InsertRow(h, valores, index), p) == h
  {
    var p := InsertPosition(index, |h.frame.rows|);
    var r := InsertRow(h, valores, index);
    assert r.frame.rows[..p] + r.frame.rows[p + 1..] == h.frame.rows;
  }

  /** Without an index the row is appended: the old rows stay first and the new row is last. */
  lemma AppendRow(h: Sheet, valores: map<string, Value>)
    ensures var r := InsertRow(h, valores, None);
      && r == InsertRow(h, valores, Some(|h.frame.rows|))
      && r.frame.rows == h.frame.rows + [NewRow(h.frame.columns, valores)]
  {
    var r := InsertRow(h, valores, None);
    assert r.frame.rows == h.frame.rows + [NewRow(h.frame.columns, valores)];
  }

  /** Index `-1` is a slice bound, so the row goes in before the last row, not after it. */
  lemma InsertAtMinusOne(h: Sheet, valores: map<string, Value>)
    requires |h.frame.rows| > 0
    ensures var r := InsertRow(h, valores, Some(-1));
      var n := |h.frame.rows|;
      && r.frame.rows[n - 1] == NewRow(h.frame.columns, valores)
      && r.frame.rows[n] == h.frame.rows[n - 1]
  {
  }

  /** Every index, read as `rows[:k]` and `rows[k:]`: with `0 <= k <= n` exactly `k` old
      rows come before the new row, with `-n <= k < 0` exactly `-k` old rows come after
      it, and past either end the row goes first or last. */
  lemma InsertAt(h: Sheet, valores: map<string, Value>, k: int)
    ensures var rows := h.frame.rows;
      var n := |rows|;
      var nuevo := NewRow(h.frame.columns, valores);
      var r := InsertRow(h, valores, Some(k)).frame.rows;
      && (0 <= k <= n ==> r == rows[..k] + [nuevo] + rows[k..])
      && (-n <= k < 0 ==> r == rows[..n + k] + [nuevo] + rows[n + k..] && |rows[n + k..]| == -k)
      && (k > n ==> r == rows + [nuevo])
      && (k < -n ==> r == [nuevo] + rows)
  {
    var rows := h.frame.rows;
    var nuevo := NewRow(h.frame.columns, valores);
    if k > |rows| {
      assert rows[..|rows|] == rows && rows[|rows|..] == [];
    } else if k < -|rows| {
      assert rows[..0] == [] && rows[0..] == rows;
    }
  }

  /** Where the new row's cells come from: the value the dict gives the column, or a
      missing value; keys that are not columns leave no trace in the row. */
  lemma NewRowCell(h: Sheet, valores: map<string, Value>, index: Option<int>, c: string)
    requires Distinct(h.frame.columns) && c in h.frame.columns
    ensures var r := InsertRow(h, valores, index);
      var p := InsertPosition(index, |h.frame.rows|);
      var j := ColumnIndex(h.frame.columns, c).value;
      r.frame.rows[p][j] == (if c in valores then valores[c] else Null)
  {
  }

  // ---------------------------------------------------------------------------------
  // limpiar_columnas_latex
  // ---------------------------------------------------------------------------------

  /** `latex_to_unicode` on a cell: strings are decoded, anything else is returned as is. */
  function DecodeValue(v: Value): (r: Value)
    ensures !v.Text? ==> r == v
    ensures v.Text? ==> r.Text? && NoBraces(r.s) && |r.s| <= |v.s|
  {
    match v
    case Text(s) =>
      DecodeShrinks(s);
      Text(DecodeText(s))
    case _ => v
  }

  /** The cell after `n` passes of the decoder. */
  function DecodeTimes(n: nat, v: Value): Value
  {
    if n == 0 then v else DecodeTimes(n - 1, DecodeValue(v))
  }

  /** How often a name appears in a list of names. */
  function Count(cs: seq<string>, c: string): nat
  {
    if |cs| == 0 then 0 else (if cs[0] == c then 1 else 0) + Count(cs[1..], c)
  }

  /** A column's cells replaced by `g` of themselves, everything else kept. */
  function MapColumn(f: Frame, j: nat, g: Value -> Value): (r: Frame)
    requires Rectangular(f) && j < |f.columns|
    ensures r.columns == f.columns && |r.rows| == |f.rows| && Rectangular(r)
    ensures forall i, k :: 0 <= i < |f.rows| && 0 <= k < |f.columns| ==>
      r.rows[i][k] == (if k == j then g(f.rows[i][k]) else f.rows[i][k])
  {
    Frame(f.columns, seq(|f.rows|, i requires 0 <= i < |f.rows| => f.rows[i][j := g(f.rows[i][j])]))
  }

  /** `self[col] = self[col].apply(latex_to_unicode)` when `col` is a column; nothing
      otherwise. */
  function CleanColumn(f: Frame, c: string): (r: Frame)
    requires Rectangular(f)
    ensures r.columns == f.columns && |r.rows| == |f.rows| && Rectangular(r)
  {
    match ColumnIndex(f.columns, c)
    case None => f
    case Some(j) => MapColumn(f, j, DecodeValue)
  }

  /** The loop over the requested names, in order. */
  function CleanColumns(f: Frame, cs: seq<string>): (r: Frame)
    requires Rectangular(f)
    ensures r.columns == f.columns && |r.rows| == |f.rows| && Rectangular(r)
    decreases |cs|
  {
    if |cs| == 0 then f else CleanColumns(CleanColumn(f, cs[0]), cs[1..])
  }

  /** A column pandas gives the `object` dtype: one holding a string or a list. */
  predicate IsObjectColumn(f: Frame, j: nat)
    requires Rectangular(f) && j < |f.columns|
  {
    exists i :: 0 <= i < |f.rows| && (f.rows[i][j].Text? || f.rows[i][j].List?)
  }

  /** `select_dtypes(include="object").columns`, in column order, from position `j` on. */
  function ObjectColumnsFrom(f: Frame, j: nat): (r: seq<string>)
    requires Rectangular(f) && j <= |f.columns|
    ensures forall c :: c in r ==> c in f.columns[j..]
    ensures forall k :: j <= k < |f.columns| && IsObjectColumn(f, k) ==> f.columns[k] in r
    ensures Distinct(f.columns) ==>
      forall k :: j <= k < |f.columns| && !IsObjectColumn(f, k) ==> f.columns[k] !in r
    ensures Distinct(f.columns) ==> forall c :: Count(r, c) <= 1
    decreases |f.columns| - j
  {
    if j == |f.columns| then []
    else
      var rest := ObjectColumnsFrom(f, j + 1);
      if IsObjectColumn(f, j) then
        var r := [f.columns[j]] + rest;
        assert r[1..] == rest;
        assert Distinct(f.columns) ==> Count(rest, f.columns[j]) == 0 by {
          if Distinct(f.columns) {
            CountAbsent(rest, f.columns[j]);
          }
        }
        r
      else rest
  }

  lemma {:induction false} CountAbsent(cs: seq<string>, c: string)
    requires c !in cs
    ensures Count(cs, c) == 0
  {
    if |cs| > 0 {
      CountAbsent(cs[1..], c);
    }
  }

  lemma {:induction false} CountPresent(cs: seq<string>, c: string)
    requires c in cs
    ensures Count(cs, c) >= 1
  {
    if cs[0] != c {
      CountPresent(cs[1..], c);
    }
  }

  function ObjectColumns(f: Frame): seq<string>
    requires Rectangular(f)
  {
    ObjectColumnsFrom(f, 0)
  }

  /** `limpiar_columnas_latex`: decode the named columns, or every text column when no
      list is given. */
  function CleanLatex(h: Sheet, columnas: Option<seq<string>>): (r: Sheet)
    requires Rectangular(h.frame)
    ensures r.nombre == h.nombre && r.frame.columns == h.frame.columns
    ensures |r.frame.rows| == |h.frame.rows| && Rectangular(r.frame)
  {
    var cs := if columnas.Some? then columnas.value else ObjectColumns(h.frame);
    Sheet(h.nombre, CleanColumns(h.frame, cs))
  }

  /** Each cell ends up decoded once for every time its column is named in the list;
      names that are not columns change nothing, and unnamed columns are untouched. */
  lemma {:induction false} CleanColumnsCells(f: Frame, cs: seq<string>)
    requires WellFormed(f)
    ensures forall i, j :: 0 <= i < |f.rows| && 0 <= j < |f.columns| ==>
      CleanColumns(f, cs).rows[i][j] == DecodeTimes(Count(cs, f.columns[j]), f.rows[i][j])
    decreases |cs|
  {
    if |cs| > 0 {
      var g := CleanColumn(f, cs[0]);
      CleanColumnsCells(g, cs[1..]);
      forall i, j | 0 <= i < |f.rows| && 0 <= j < |f.columns|
        ensures CleanColumns(f, cs).rows[i][j] == DecodeTimes(Count(cs, f.columns[j]), f.rows[i][j])
      {
        if f.columns[j] == cs[0] {
          DistinctIndex(f.columns, j);
          assert g.rows[i][j] == DecodeValue(f.rows[i][j]);
        } else {
          match ColumnIndex(f.columns, cs[0])
          case None =>
          case Some(k) =>
            assert k != j;
        }
      }
    }
  }

  /** A sheet cleaned with an explicit list of names. */
  lemma CleanNamedColumns(h: Sheet, cs: seq<string>)
    requires WellFormed(h.frame)
    ensures var r := CleanLatex(h, Some(cs));
      forall i, j :: 0 <= i < |h.frame.rows| && 0 <= j < |h.frame.columns| ==>
        r.frame.rows[i][j] == DecodeTimes(Count(cs, h.frame.columns[j]), h.frame.rows[i][j])
  {
    CleanColumnsCells(h.frame, cs);
  }

  /** Without a list every cell of the sheet is decoded exactly once: text columns are
      all on the default list, once each, and the columns left off it hold no strings. */
  lemma CleanDefault(h: Sheet)
    requires WellFormed(h.frame)
    ensures var r := CleanLatex(h, None);
      forall i, j :: 0 <= i < |h.frame.rows| && 0 <= j < |h.frame.columns| ==>
        r.frame.rows[i][j] == DecodeValue(h.frame.rows[i][j])
  {
    var f := h.frame;
    var cs := ObjectColumns(f);
    assert CleanLatex(h, None).frame == CleanColumns(f, cs);
    CleanColumnsCells(f, cs);
    forall i, j | 0 <= i < |f.rows| && 0 <= j < |f.columns|
      ensures CleanLatex(h, None).frame.rows[i][j] == DecodeValue(f.rows[i][j])
    {
      assert CleanLatex(h, None).frame.rows[i][j] == DecodeTimes(Count(cs, f.columns[j]), f.rows[i][j]);
      if IsObjectColumn(f, j) {
        CountPresent(cs, f.columns[j]);
        assert Count(cs, f.columns[j]) == 1;
        assert DecodeTimes(1, f.rows[i][j]) == DecodeTimes(0, DecodeValue(f.rows[i][j]));
      } else {
        CountAbsent(cs, f.columns[j]);
        assert !f.rows[i][j].Text?;
      }
    }
  }

  /** Naming a column twice decodes it twice, and that is not the same as decoding it
      once: a text column holding `\'{a}` ends up as `á`, not `\'a`. */
  lemma CleanTwiceDiffers()
    ensures var h := Sheet("refs", Frame(["Title"], [[Text("\\'{a}")]]));
      && CleanLatex(h, Some(["Title", "Title"])).frame.rows[0][0] == Text("\U{E1}")
      && CleanLatex(h, Some(["Title"])).frame.rows[0][0] == Text("\\'a")
  {
    var h := Sheet("refs", Frame(["Title"], [[Text("\\'{a}")]]));
    var v := h.frame.rows[0][0];
    CleanNamedColumns(h, ["Title", "Title"]);
    CleanNamedColumns(h, ["Title"]);
    assert Count(["Title", "Title"], "Title") == 2;
    assert Count(["Title"], "Title") == 1;
    DecodeBracedAccent();
    assert DecodeValue(v) == Text("\\'a");
    assert DecodeTimes(2, v) == DecodeValue(DecodeValue(v));
  }

  // ---------------------------------------------------------------------------------
  // tipificar_columnas
  // ---------------------------------------------------------------------------------

  /** `pd.to_numeric(errors="coerce").astype("Int64")` on one cell, with the conversion of
      strings given as `num`: integers stay, anything that is not a number becomes a
      missing value. */
  function Coerce(num: string -> Option<int>, v: Value): (r: Value)
    ensures r.Null? || r.Int?
    ensures v.Int? ==> r == v
    ensures v.Null? || v.List? ==> r.Null?
  {
    match v
    case Null => Null
    case Int(n) => Int(n)
    case Text(s) => (match num(s) case Some(n) => Int(n) case None => Null)
    case List(_) => Null
  }

  /** Coerce the column `c` if the sheet has one. */
  function CoerceColumn(f: Frame, c: string, num: string -> Option<int>): (r: Frame)
    requires Rectangular(f)
    ensures r.columns == f.columns && |r.rows| == |f.rows| && Rectangular(r)
  {
    match ColumnIndex(f.columns, c)
    case None => f
    case Some(j) => MapColumn(f, j, v => Coerce(num, v))
  }

  predicate NonEmpty(k: string)
  {
    |k| > 0
  }

  /** The non-empty strings of a list, in order. */
  function KeepNonEmpty(ks: seq<string>): (r: seq<string>)
    ensures forall k :: k in r ==> k in ks && NonEmpty(k)
    ensures forall k :: k in ks && NonEmpty(k) ==> k in r
  {
    if |ks| == 0 then []
    else if NonEmpty(ks[0]) then [ks[0]] + KeepNonEmpty(ks[1..])
    else KeepNonEmpty(ks[1..])
  }

  function StripAll(ps: seq<string>): (r: seq<string>)
    ensures |r| == |ps| && forall i :: 0 <= i < |ps| ==> r[i] == Strip(ps[i])
  {
    seq(|ps|, i requires 0 <= i < |ps| => Strip(ps[i]))
  }

  /** `[k.strip() for k in x.split(",") if k.strip()]`. */
  function KeywordsOf(x: string): (r: seq<string>)
    ensures forall k :: k in r ==> NonEmpty(k) && Stripped(k) && ',' !in k
  {
    var ps := Split(x, ",");
    var ks := StripAll(ps);
    forall k | k in ks
      ensures Stripped(k) && ',' !in k
    {
      var i :| 0 <= i < |ps| && ks[i] == k;
      NoCharAfterStrip(ps[i], ',');
    }
    KeepNonEmpty(ks)
  }

  lemma NoCharAfterStrip(p: string, c: char)
    requires !Contains(p, [c])
    ensures c !in Strip(p)
  {
    CharContains(p, c);
    var l := StripLeft(p);
    assert c !in l;
  }

  /** Splitting pieces joined by commas: the keyword list is the pieces, stripped, with
      the empty ones dropped, in order. */
  lemma KeywordsOfJoin(ps: seq<string>)
    requires |ps| >= 1 && forall p :: p in ps ==> ',' !in p
    ensures KeywordsOf(Join(ps, ",")) == KeepNonEmpty(StripAll(ps))
  {
    SplitJoin(ps, ',');
  }

  /** `", ".join(ks)`, pieces after the first carrying the space. */
  function Spaced(ks: seq<string>): (r: seq<string>)
    ensures |r| == |ks| && forall i :: 0 <= i < |ks| ==> r[i] == " " + ks[i]
  {
    if |ks| == 0 then [] else [" " + ks[0]] + Spaced(ks[1..])
  }

  lemma {:induction false} JoinCommaSpace(ks: seq<string>)
    requires |ks| >= 1
    ensures Join(ks, ", ") == Join([ks[0]] + Spaced(ks[1..]), ",")
    decreases |ks|
  {
    if |ks| > 1 {
      var tail := [ks[1]] + Spaced(ks[2..]);
      JoinCommaSpace(ks[1..]);
      assert ks[1..][1..] == ks[2..];
      JoinPrefixFirst(" ", tail, ",");
      assert Spaced(ks[1..]) == [" " + ks[1]] + Spaced(ks[2..]);
      var whole := [ks[0]] + Spaced(ks[1..]);
      assert whole[1..] == [" " + tail[0]] + tail[1..];
    }
  }

  /** Text in front of a joined list belongs to its first piece. */
  lemma JoinPrefixFirst(x: string, ps: seq<string>, sep: string)
    requires |ps| >= 1
    ensures x + Join(ps, sep) == Join([x + ps[0]] + ps[1..], sep)
  {
    var qs := [x + ps[0]] + ps[1..];
    assert qs[1..] == ps[1..];
  }

  lemma {:induction false} KeepAllNonEmpty(ks: seq<string>)
    requires forall k :: k in ks ==> NonEmpty(k)
    ensures KeepNonEmpty(ks) == ks
  {
    if |ks| > 0 {
      KeepAllNonEmpty(ks[1..]);
    }
  }

  /** Keywords written the usual way, `", ".join(ks)`, are read back as the same list,
      as long as each is non-empty, has no surrounding whitespace and no comma. */
  lemma KeywordsRoundTrip(ks: seq<string>)
    requires forall k :: k in ks ==> NonEmpty(k) && Stripped(k) && ',' !in k
    ensures KeywordsOf(Join(ks, ", ")) == ks
  {
    if |ks| == 0 {
      NoKeywords(Join(ks, ", "));
    } else {
      var ps := [ks[0]] + Spaced(ks[1..]);
      JoinCommaSpace(ks);
      SpacedNoComma(ks);
      KeywordsOfJoin(ps);
      StripSpaced(ks);
      KeepAllNonEmpty(ks);
    }
  }

  lemma SpacedNoComma(ks: seq<string>)
    requires |ks| >= 1 && forall k :: k in ks ==> ',' !in k
    ensures forall p :: p in [ks[0]] + Spaced(ks[1..]) ==> ',' !in p
  {
    var ps := [ks[0]] + Spaced(ks[1..]);
    forall p | p in ps
      ensures ',' !in p
    {
      var i :| 0 <= i < |ps| && ps[i] == p;
      assert i > 0 ==> p == " " + ks[i];
    }
  }

  /** An empty string has no keywords: a missing `Keywords` cell, read as `""`, gives the
      empty list. */
  lemma NoKeywords(x: string)
    requires |x| == 0
    ensures KeywordsOf(x) == []
  {
    KeywordsOfJoin([x]);
    assert Strip(x) == x;
  }

  lemma StripSpaced(ks: seq<string>)
    requires |ks| >= 1 && forall k :: k in ks ==> Stripped(k)
    ensures StripAll([ks[0]] + Spaced(ks[1..])) == ks
  {
    var ps := [ks[0]] + Spaced(ks[1..]);
    forall i | 0 <= i < |ps|
      ensures Strip(ps[i]) == ks[i]
    {
      assert ks[i] in ks;
      StripSpacedAt(ks, ps, i);
    }
  }

  /** Piece `i` of the spaced list strips back to `ks[i]`. */
  lemma StripSpacedAt(ks: seq<string>, ps: seq<string>, i: nat)
    requires |ks| >= 1 && ps == [ks[0]] + Spaced(ks[1..])
    requires i < |ks| && Stripped(ks[i])
    ensures Strip(ps[i]) == ks[i]
  {
    if i == 0 {
      StrippedFixed(ks[0]);
    } else {
      assert ps[i] == " " + ks[i];
      StripLeadingSpace(ks[i]);
    }
  }

  lemma StripLeadingSpace(k: string)
    requires Stripped(k)
    ensures Strip(" " + k) == k
  {
    assert AllSpace(" ") && AllSpace("");
    StripPadded(" ", k, "");
    assert " " + k + "" == " " + k;
  }

  /** The keyword list of one `Keywords` cell: a missing value reads as `""`, a string is
      split, and anything else has no `split` (Python raises `AttributeError`). */
  function KeywordCell(v: Value): (r: Result<Value, Error>)
    ensures r.Success? <==> v.Null? || v.Text?
    ensures v.Null? ==> r == Success(List([]))
    ensures v.Text? ==> r == Success(List(KeywordsOf(v.s)))
  {
    match v
    case Null => Success(List([]))
    case Text(s) => Success(List(KeywordsOf(s)))
    case _ => Failure(NotAString("Keywords"))
  }

  /** The keyword lists of a whole column, or the failure of its first bad cell. */
  function KeywordColumn(rows: seq<Row>, j: nat): (r: Result<seq<Value>, Error>)
    requires forall i :: 0 <= i < |rows| ==> j < |rows[i]|
    ensures r.Success? <==> forall i :: 0 <= i < |rows| ==> rows[i][j].Null? || rows[i][j].Text?
    ensures r.Success? ==>
      && |r.value| == |rows|
      && forall i :: 0 <= i < |rows| ==> Success(r.value[i]) == KeywordCell(rows[i][j])
  {
    var cells := seq(|rows|, i requires 0 <= i < |rows| => rows[i][j]);
    assert forall i :: 0 <= i < |rows| ==>
      (KeywordCell(cells[i]).Success? <==> rows[i][j].Null? || rows[i][j].Text?);
    Traverse(cells, KeywordCell)
  }

  /** `self[c] = vals`: an existing column is overwritten where it stands, a new one is
      added at the end. */
  function SetColumn(f: Frame, c: string, vals: seq<Value>): (r: Frame)
    requires Rectangular(f) && |vals| == |f.rows|
    ensures Rectangular(r) && |r.rows| == |f.rows|
    ensures c in f.columns ==> r.columns == f.columns
    ensures c !in f.columns ==> r.columns == f.columns + [c]
    ensures var j := ColumnIndex(r.columns, c);
      j.Some? && forall i :: 0 <= i < |r.rows| ==> r.rows[i][j.value] == vals[i]
    ensures forall i, k :: 0 <= i < |f.rows| && 0 <= k < |f.columns| && f.columns[k] != c ==>
      r.rows[i][k] == f.rows[i][k]
  {
    match ColumnIndex(f.columns, c)
    case Some(j) => MapColumnTo(f, j, vals)
    case None =>
      var r := Frame(f.columns + [c], seq(|f.rows|, i requires 0 <= i < |f.rows| => f.rows[i] + [vals[i]]));
      assert ColumnIndex(r.columns, c) == Some(|f.columns|);
      r
  }

  function MapColumnTo(f: Frame, j: nat, vals: seq<Value>): (r: Frame)
    requires Rectangular(f) && j < |f.columns| && |vals| == |f.rows|
    ensures r.columns == f.columns && |r.rows| == |f.rows| && Rectangular(r)
    ensures forall i, k :: 0 <= i < |f.rows| && 0 <= k < |f.columns| ==>
      r.rows[i][k] == (if k == j then vals[i] else f.rows[i][k])
  {
    Frame(f.columns, seq(|f.rows|, i requires 0 <= i < |f.rows| => f.rows[i][j := vals[i]]))
  }

  /** `tipificar_columnas`: `Year` and `Page Count` become integer-or-missing, and a
      `KeywordList` column is derived from `Keywords`. `num` is pandas' reading of a
      string as a number. */
  function TypeColumns(h: Sheet, num: string -> Option<int>): (r: Result<Sheet, Error>)
    requires Rectangular(h.frame)
    ensures r.Success? ==> r.value.nombre == h.nombre && Rectangular(r.value.frame)
    ensures r.Success? ==> |r.value.frame.rows| == |h.frame.rows|
  {
    var f2 := CoerceNumbers(h.frame, num);
    match ColumnIndex(f2.columns, "Keywords")
    case None => Success(Sheet(h.nombre, f2))
    case Some(j) =>
      match KeywordColumn(f2.rows, j)
      case Failure(e) => Failure(e)
      case Success(ks) => Success(Sheet(h.nombre, SetColumn(f2, "KeywordList", ks)))
  }

  /** The condition under which `tipificar_columnas` goes through: every `Keywords` cell,
      if there is such a column, is a string or missing. */
  predicate KeywordsReadable(f: Frame)
    requires Rectangular(f)
  {
    match ColumnIndex(f.columns, "Keywords")
    case None => true
    case Some(k) => forall i :: 0 <= i < |f.rows| ==> f.rows[i][k].Null? || f.rows[i][k].Text?
  }

  /** `Year` and `Page Count` coerced, the rest of the frame as it was. */
  function CoerceNumbers(f: Frame, num: string -> Option<int>): (r: Frame)
    requires Rectangular(f)
    ensures r.columns == f.columns && |r.rows| == |f.rows| && Rectangular(r)
  {
    CoerceColumn(CoerceColumn(f, "Year", num), "Page Count", num)
  }

  predicate IsNumberColumn(c: string)
  {
    c == "Year" || c == "Page Count"
  }

  lemma CoerceNumbersCells(f: Frame, num: string -> Option<int>)
    requires WellFormed(f)
    ensures var r := CoerceNumbers(f, num);
      forall i, j :: 0 <= i < |f.rows| && 0 <= j < |f.columns| ==>
        r.rows[i][j] == (if IsNumberColumn(f.columns[j]) then Coerce(num, f.rows[i][j]) else f.rows[i][j])
  {
    var f1 := CoerceColumn(f, "Year", num);
    CoerceColumnCells(f, "Year", num);
    CoerceColumnCells(f1, "Page Count", num);
  }

  /** `tipificar_columnas` fails exactly when some `Keywords` cell is neither a string nor
      missing (Python's `AttributeError` on `split`). */
  lemma TypeColumnsFails(h: Sheet, num: string -> Option<int>)
    requires WellFormed(h.frame)
    ensures TypeColumns(h, num).Success? <==> KeywordsReadable(h.frame)
  {
    var f := h.frame;
    var f2 := CoerceNumbers(f, num);
    CoerceNumbersCells(f, num);
    match ColumnIndex(f.columns, "Keywords")
    case None =>
    case Some(k) =>
      assert forall i :: 0 <= i < |f.rows| ==> f2.rows[i][k] == f.rows[i][k];
  }

  /** On success every column but `KeywordList` keeps its place, `Year` and `Page Count`
      cells are coerced and the others (`Keywords` among them) are as they were. */
  lemma TypeColumnsCells(h: Sheet, num: string -> Option<int>)
    requires WellFormed(h.frame)
    ensures var r := TypeColumns(h, num);
      var f := h.frame;
      r.Success? ==>
        forall i, j :: 0 <= i < |f.rows| && 0 <= j < |f.columns| && f.columns[j] != "KeywordList" ==>
          && r.value.frame.columns[j] == f.columns[j]
          && r.value.frame.rows[i][j] ==
            (if IsNumberColumn(f.columns[j]) then Coerce(num, f.rows[i][j]) else f.rows[i][j])
  {
    CoerceNumbersCells(h.frame, num);
  }

  /** When there is a `Keywords` column, the `KeywordList` column holds each row's
      keyword list: in place of an existing `KeywordList`, or as a new last column. */
  lemma TypeColumnsKeywords(h: Sheet, num: string -> Option<int>)
    requires WellFormed(h.frame) && "Keywords" in h.frame.columns
    ensures var r := TypeColumns(h, num);
      var f := h.frame;
      var k := ColumnIndex(f.columns, "Keywords").value;
      r.Success? ==>
        var c := ColumnIndex(r.value.frame.columns, "KeywordList");
        && r.value.frame.columns == (if "KeywordList" in f.columns then f.columns else f.columns + ["KeywordList"])
        && c.Some?
        && forall i :: 0 <= i < |f.rows| ==> Success(r.value.frame.rows[i][c.value]) == KeywordCell(f.rows[i][k])
  {
    var f := h.frame;
    var f2 := CoerceNumbers(f, num);
    CoerceNumbersCells(f, num);
    var k := ColumnIndex(f.columns, "Keywords").value;
    assert forall i :: 0 <= i < |f.rows| ==> f2.rows[i][k] == f.rows[i][k];
  }

  /** Coercing one column touches that column's cells and nothing else. */
  lemma CoerceColumnCells(f: Frame, c: string, num: string -> Option<int>)
    requires WellFormed(f)
    ensures var r := CoerceColumn(f, c, num);
      forall i, j :: 0 <= i < |f.rows| && 0 <= j < |f.columns| ==>
        r.rows[i][j] == (if f.columns[j] == c then Coerce(num, f.rows[i][j]) else f.rows[i][j])
  {
    if c in f.columns {
      var j := ColumnIndex(f.columns, c).value;
      forall k | 0 <= k < |f.columns| && f.columns[k] == c
        ensures k == j
      {
        DistinctIndex(f.columns, k);
      }
    }
  }
}
