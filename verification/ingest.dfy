/** Reading sheets into a workbook: `LibroPandas.desde_excel` and
    `LibroPandas.agregar_hoja_desde_archivo` (excel_pandas/libro.py).

    The files themselves are not modelled. What `pd.read_excel(path, sheet_name=None)`
    returns is passed in as a `Book` (the file's sheets, name and table, in file order),
    and `pd.read_csv(path, sep=...)` as a function of the path and the separator. */
module Ingest {
  import opened Wrappers
  import opened Errors
  import opened PyStr
  import opened PyInt
  import opened Sheets
  import opened Ranges
  import opened Workbooks

  /** The sheets of an Excel file, in the file's order. */
  type Book = seq<(string, Frame)>

  /** The workbook entry sheet `i` of the file becomes. */
  function EntryOf(book: Book, i: nat): (string, Sheet)
    requires i < |book|
  {
    (book[i].0, Sheet(book[i].0, book[i].1))
  }

  /** `nombres[i]` on a list of length `n`: a negative index counts from the end, and one
      outside `-n .. n - 1` raises `IndexError`. */
  function PyIndex(n: nat, i: int): (r: Result<nat, Error>)
    ensures r.Success? <==> -(n as int) <= i < n
    ensures r.Success? ==> r.value < n && r.value % n == i % n
    ensures r.Failure? ==> r.error == IndexOutOfRange(i)
  {
    if i < -(n as int) || n <= i then Failure(IndexOutOfRange(i))
    else if i < 0 then Success(i + n)
    else Success(i)
  }

  /** `list(range(n))` */
  function UpTo(n: nat): (r: seq<int>)
    ensures |r| == n && forall i :: 0 <= i < n ==> r[i] == i
    ensures StrictlyIncreasing(r)
  {
    seq(n, i => i)
  }

  /** The indices to import: every sheet when no range is given, otherwise the parsed
      range (its errors propagate). */
  function Selection(hojas: Option<string>, n: nat): (r: Result<seq<int>, Error>)
    ensures r.Success? ==> StrictlyIncreasing(r.value)
    ensures hojas.None? ==> r.Success? && |r.value| == n
    ensures hojas.None? ==> forall k :: 0 <= k < |r.value| ==> r.value[k] >= 0
    ensures hojas.None? ==> forall k :: 0 <= k < n ==> r.value[k] == k
    ensures hojas.Some? ==> r == ParseRange(hojas.value)
  {
    match hojas
    case None => Success(UpTo(n))
    case Some(rango) => ParseRange(rango)
  }

  /** The import loop: each selected index below the sheet count adds that sheet under
      its own name; larger ones are skipped. A negative index is not skipped, so Python
      reads it from the end, and one below `-len` raises. */
  function AddSelected(w: Workbook, book: Book, idx: seq<int>): (r: Result<Workbook, Error>)
    ensures r.Failure? <==> exists k :: 0 <= k < |idx| && idx[k] < -|book|
    ensures r.Failure? ==> exists k :: 0 <= k < |idx| && r.error == IndexOutOfRange(idx[k]) && idx[k] < -|book|
    ensures r.Success? ==> r.value.nombre == w.nombre
    decreases |idx|
  {
    if |idx| == 0 then Success(w)
    else
      var i := idx[0];
      assert forall k :: 0 <= k < |idx| - 1 ==> idx[1..][k] == idx[k + 1];
      if i < |book| then
        match PyIndex(|book|, i)
        case Failure(e) => Failure(e)
        case Success(j) => AddSelected(AddSheet(w, book[j].0, book[j].1), book, idx[1..])
      else AddSelected(w, book, idx[1..])
  }

  /** The workbook's name: the file name, with `.xlsx` removed wherever it occurs. */
  function BookName(path: string): string
  {
    Replace(LastPiece(path, "/"), ".xlsx", "")
  }

  /** `desde_excel` */
  function FromExcel(path: string, hojas: Option<string>, book: Book): (r: Result<Workbook, Error>)
    ensures r.Success? ==> r.value.nombre == BookName(path)
    ensures hojas.None? ==> r.Success?
  {
    match Selection(hojas, |book|)
    case Failure(e) => Failure(e)
    case Success(idx) =>
      if hojas.None? then
        NonNegativeLoop(Empty(BookName(path)), book, idx);
        AddSelected(Empty(BookName(path)), book, idx)
      else AddSelected(Empty(BookName(path)), book, idx)
  }

  /** Non-negative indices never make the import loop raise. */
  lemma NonNegativeLoop(w: Workbook, book: Book, idx: seq<int>)
    requires forall k :: 0 <= k < |idx| ==> idx[k] >= 0
    ensures AddSelected(w, book, idx).Success?
  {
  }

  /** The sheet name of a CSV or TSV file: the given one, or the file name up to its
      first dot. No given name is `None` or `""`, which Python treats alike. */
  function TableName(path: string, nombreHoja: string): (r: string)
    ensures nombreHoja != "" ==> r == nombreHoja
    ensures nombreHoja == "" ==> !Contains(r, ".") && !Contains(r, "/")
    ensures nombreHoja == "" ==>
      var b := LastPiece(path, "/");
      r <= b && (r == b || b[|r|] == '.')
  {
    if nombreHoja != "" then nombreHoja
    else
      var base := LastPiece(path, "/");
      var r := FirstPiece(base, ".");
      PrefixLacks(base, r, "/");
      assert r != base ==> base[|r|] == '.' by {
        if r != base {
          assert base[|r|..|r| + 1] == ".";
        }
      }
      r
  }

  lemma PrefixLacks(s: string, p: string, pat: string)
    requires p <= s && !Contains(s, pat)
    ensures !Contains(p, pat)
  {
    if Contains(p, pat) {
      assert p == s[..|p|];
      OccursInPrefix(s, |p|, pat, Find(p, pat).value);
    }
  }

  /** The extension that selects the reader: the text after the last dot, lower-cased. */
  function Extension(path: string): string
  {
    Lower(LastPiece(path, "."))
  }

  /** `agregar_hoja_desde_archivo`. A CSV file is read with `sep`, a TSV file always with
      a tab; either becomes one sheet. An Excel file brings the selected sheets under
      their own names, except that a single selected index together with a sheet name
      brings that one sheet under the given name; that index is not checked against the
      sheet count, so Python's `IndexError` can surface there. Any other extension is an
      error. */
  function AddFromFile(w: Workbook, path: string, nombreHoja: string, sep: string, hojas: Option<string>,
                       readCsv: (string, string) -> Frame, book: Book): (r: Result<Workbook, Error>)
    ensures r.Failure? && r.error.UnsupportedFormat? <==> Extension(path) !in {"csv", "tsv", "xlsx"}
    ensures r.Failure? && r.error.UnsupportedFormat? ==> r.error.ext == Extension(path)
    ensures Extension(path) in {"csv", "tsv"} ==> r.Success?
    ensures r.Success? ==> r.value.nombre == w.nombre
  {
    var ext := Extension(path);
    if ext == "csv" then Success(AddSheet(w, TableName(path, nombreHoja), readCsv(path, sep)))
    else if ext == "tsv" then Success(AddSheet(w, TableName(path, nombreHoja), readCsv(path, "\t")))
    else if ext == "xlsx" then
      var idx :- Selection(hojas, |book|);
      if |idx| == 1 && nombreHoja != "" then
        var j :- PyIndex(|book|, idx[0]);
        Success(AddSheet(w, nombreHoja, book[j].1))
      else AddSelected(w, book, idx)
    else Failure(UnsupportedFormat(ext))
  }

  // ---------------------------------------------------------------------------------
  // What the imports promise
  // ---------------------------------------------------------------------------------

  /** The entries the import loop adds for non-negative indices: those below the sheet
      count, in the order of the indices. */
  function Selected(book: Book, idx: seq<int>): (r: seq<(string, Sheet)>)
  {
    if |idx| == 0 then []
    else
      (if 0 <= idx[0] < |book| then [EntryOf(book, idx[0])] else []) + Selected(book, idx[1..])
  }

  /** With distinct sheet names and increasing non-negative indices, no sheet replaces
      another: the loop appends the selected sheets, in file order. */
  lemma {:induction false} AddSelectedAppends(w: Workbook, book: Book, idx: seq<int>)
    requires Distinct(Keys(book)) && StrictlyIncreasing(idx)
    requires forall k :: 0 <= k < |idx| ==> idx[k] >= 0
    requires forall k :: 0 <= k < |idx| && idx[k] < |book| ==> book[idx[k]].0 !in Keys(w.hojas)
    ensures AddSelected(w, book, idx) == Success(Workbook(w.nombre, w.hojas + Selected(book, idx)))
    decreases |idx|
  {
    if |idx| > 0 {
      var i, rest := idx[0], idx[1..];
      if i < |book| {
        var w' := AddSheet(w, book[i].0, book[i].1);
        AppendStep(w, book, i);
        TailReady(w, book, idx);
        AddSelectedAppends(w', book, rest);
        AddSelectedFirst(w, book, idx);
        SelectedFirst(book, idx);
        AppendThenRest(w, w', book, idx, EntryOf(book, i), Selected(book, rest));
      } else {
        TailReady(w, book, idx);
        AddSelectedAppends(w, book, rest);
        SkipFirst(w, book, idx);
      }
    } else {
      assert w.hojas + Selected(book, idx) == w.hojas;
    }
  }

  /** The rest of the indices meet the loop's requirements, once the first sheet is in. */
  lemma TailReady(w: Workbook, book: Book, idx: seq<int>)
    requires Distinct(Keys(book)) && StrictlyIncreasing(idx) && |idx| > 0
    requires forall k :: 0 <= k < |idx| ==> idx[k] >= 0
    requires forall k :: 0 <= k < |idx| && idx[k] < |book| ==> book[idx[k]].0 !in Keys(w.hojas)
    ensures StrictlyIncreasing(idx[1..])
    ensures forall k :: 0 <= k < |idx[1..]| ==> idx[1..][k] >= 0
    ensures forall k :: 0 <= k < |idx[1..]| && idx[1..][k] < |book| ==> book[idx[1..][k]].0 !in Keys(w.hojas)
    ensures idx[0] < |book| ==>
      var w' := AddSheet(w, book[idx[0]].0, book[idx[0]].1);
      forall k :: 0 <= k < |idx[1..]| && idx[1..][k] < |book| ==> book[idx[1..][k]].0 !in Keys(w'.hojas)
  {
    var i, rest := idx[0], idx[1..];
    assert forall k :: 0 <= k < |rest| ==> rest[k] == idx[k + 1];
    if i < |book| {
      var w' := AddSheet(w, book[i].0, book[i].1);
      AppendStep(w, book, i);
      forall k | 0 <= k < |rest| && rest[k] < |book|
        ensures book[rest[k]].0 !in Keys(w'.hojas)
      {
        assert i < rest[k];
        assert Keys(book)[i] != Keys(book)[rest[k]];
      }
    }
  }

  /** An index past the last sheet is skipped. */
  lemma SkipFirst(w: Workbook, book: Book, idx: seq<int>)
    requires |idx| > 0 && idx[0] >= |book|
    requires AddSelected(w, book, idx[1..]) == Success(Workbook(w.nombre, w.hojas + Selected(book, idx[1..])))
    ensures AddSelected(w, book, idx) == Success(Workbook(w.nombre, w.hojas + Selected(book, idx)))
  {
    AddSelectedSkip(w, book, idx);
    SelectedSkip(book, idx);
  }

  lemma AddSelectedSkip(w: Workbook, book: Book, idx: seq<int>)
    requires |idx| > 0 && idx[0] >= |book|
    ensures AddSelected(w, book, idx) == AddSelected(w, book, idx[1..])
  {
  }

  lemma SelectedSkip(book: Book, idx: seq<int>)
    requires |idx| > 0 && idx[0] >= |book|
    ensures Selected(book, idx) == Selected(book, idx[1..])
  {
  }

  /** The loop adds the first selected sheet, then the rest after it. */
  lemma AppendThenRest(w: Workbook, w': Workbook, book: Book, idx: seq<int>,
                       e: (string, Sheet), rest: seq<(string, Sheet)>)
    requires |idx| > 0
    requires AddSelected(w, book, idx) == AddSelected(w', book, idx[1..])
    requires AddSelected(w', book, idx[1..]) == Success(Workbook(w.nombre, w.hojas + [e] + rest))
    requires Selected(book, idx) == [e] + rest
    ensures AddSelected(w, book, idx) == Success(Workbook(w.nombre, w.hojas + Selected(book, idx)))
  {
    SeqAssoc(w.hojas, [e], rest);
  }

  lemma AddSelectedFirst(w: Workbook, book: Book, idx: seq<int>)
    requires |idx| > 0 && 0 <= idx[0] < |book|
    ensures AddSelected(w, book, idx) == AddSelected(AddSheet(w, book[idx[0]].0, book[idx[0]].1), book, idx[1..])
  {
    assert PyIndex(|book|, idx[0]) == Success(idx[0]);
  }

  lemma SelectedFirst(book: Book, idx: seq<int>)
    requires |idx| > 0 && 0 <= idx[0] < |book|
    ensures Selected(book, idx) == [EntryOf(book, idx[0])] + Selected(book, idx[1..])
  {
  }

  lemma SeqAssoc<T>(a: seq<T>, b: seq<T>, c: seq<T>)
    ensures a + b + c == a + (b + c)
  {
  }

  /** One pass of the loop for a sheet whose name is not yet a key. */
  lemma AppendStep(w: Workbook, book: Book, i: int)
    requires 0 <= i < |book| && book[i].0 !in Keys(w.hojas)
    ensures PyIndex(|book|, i) == Success(i)
    ensures AddSheet(w, book[i].0, book[i].1) == Workbook(w.nombre, w.hojas + [EntryOf(book, i)])
  {
  }

  /** The file's sheets as workbook entries, in file order. */
  function AllEntries(book: Book): (r: seq<(string, Sheet)>)
    ensures |r| == |book| && forall i :: 0 <= i < |book| ==> r[i] == EntryOf(book, i)
  {
    seq(|book|, i requires 0 <= i < |book| => EntryOf(book, i))
  }

  lemma {:induction false} SelectedSuffix(book: Book, s: nat, idx: seq<int>)
    requires s <= |book| && |idx| == |book| - s
    requires forall k :: 0 <= k < |idx| ==> idx[k] == s + k
    ensures Selected(book, idx) == AllEntries(book)[s..]
    decreases |book| - s
  {
    if s < |book| {
      var rest := idx[1..];
      SelectedSuffix(book, s + 1, rest);
      assert AllEntries(book)[s..] == [EntryOf(book, s)] + AllEntries(book)[s + 1..];
    }
  }

  lemma AllEntriesValid(nombre: string, book: Book)
    requires Distinct(Keys(book))
    ensures Valid(Workbook(nombre, AllEntries(book)))
  {
    assert Keys(AllEntries(book)) == Keys(book);
  }

  /** `desde_excel` runs the import loop over the selection. */
  lemma FromExcelLoop(path: string, hojas: Option<string>, book: Book, idx: seq<int>)
    requires Selection(hojas, |book|) == Success(idx)
    ensures FromExcel(path, hojas, book) == AddSelected(Empty(BookName(path)), book, idx)
  {
  }

  /** With a range that parses, `desde_excel` runs the import loop over its indices. */
  lemma FromExcelRange(path: string, rango: string, book: Book, idx: seq<int>)
    requires ParseRange(rango) == Success(idx)
    ensures FromExcel(path, Some(rango), book) == AddSelected(Empty(BookName(path)), book, idx)
  {
    FromExcelLoop(path, Some(rango), book, idx);
  }

  /** Without a range, `desde_excel` brings every sheet of a file, in the file's order,
      each under its own name. */
  lemma FromExcelAll(path: string, book: Book)
    requires Distinct(Keys(book))
    ensures FromExcel(path, None, book) == Success(Workbook(BookName(path), AllEntries(book)))
    ensures Valid(FromExcel(path, None, book).value)
  {
    var e := Empty(BookName(path));
    AllLoop(e, book);
    FromExcelLoop(path, None, book, UpTo(|book|));
    AllEntriesValid(BookName(path), book);
  }

  /** The loop over every index, starting from no sheets, adds every sheet. */
  lemma AllLoop(w: Workbook, book: Book)
    requires w.hojas == [] && Distinct(Keys(book))
    ensures AddSelected(w, book, UpTo(|book|)) == Success(Workbook(w.nombre, AllEntries(book)))
  {
    var idx := UpTo(|book|);
    AddSelectedAppends(w, book, idx);
    SelectedSuffix(book, 0, idx);
    assert AllEntries(book)[0..] == AllEntries(book);
    assert w.hojas + Selected(book, idx) == Selected(book, idx);
  }

  /** A range that parses to the span `lo .. hi - 1` (as `a-b` does, with `lo = a - 1` and
      `hi = b`) brings the sheets of the span that exist, in file order. */
  lemma FromExcelSpan(path: string, rango: string, book: Book, lo: nat, hi: int)
    requires Distinct(Keys(book)) && ParseRange(rango) == Success(Interval(lo, hi))
    ensures FromExcel(path, Some(rango), book) == Success(Workbook(BookName(path), Selected(book, Interval(lo, hi))))
  {
    FromExcelRange(path, rango, book, Interval(lo, hi));
    SpanLoop(Empty(BookName(path)), book, lo, hi);
  }

  /** A span starting at sheet `0` selects index -1 first: the last sheet of the file
      comes first, then sheets `1 .. hi` in order while they stay below the last one; in a
      file with no sheets, the -1 raises. */
  lemma FromExcelFromZero(path: string, rango: string, book: Book, hi: int)
    requires Distinct(Keys(book)) && ParseRange(rango) == Success(Interval(-1, hi)) && 0 <= hi
    ensures |book| == 0 ==> FromExcel(path, Some(rango), book) == Failure(IndexOutOfRange(-1))
    ensures hi < |book| ==>
      FromExcel(path, Some(rango), book)
        == Success(Workbook(BookName(path), [EntryOf(book, |book| - 1)] + Selected(book, Interval(0, hi))))
  {
    FromExcelRange(path, rango, book, Interval(-1, hi));
    IntervalFromMinusOne(hi);
    var w := Empty(BookName(path));
    if |book| == 0 {
      MinusOneRaises(w, book, Interval(0, hi));
    } else if hi < |book| {
      var w1 := Workbook(w.nombre, [EntryOf(book, |book| - 1)]);
      SpanAfterLast(w1, book, hi);
      LastThenRest(w, book, Interval(0, hi), Selected(book, Interval(0, hi)));
    }
  }

  /** The interval from -1 is -1 followed by the interval from 0. */
  lemma IntervalFromMinusOne(hi: int)
    requires 0 <= hi
    ensures Interval(-1, hi) == [-1] + Interval(0, hi)
  {
  }

  /** On a file without sheets the loop's index -1 raises. */
  lemma MinusOneRaises(w: Workbook, book: Book, rest: seq<int>)
    requires |book| == 0
    ensures AddSelected(w, book, [-1] + rest) == Failure(IndexOutOfRange(-1))
  {
    assert ([-1] + rest)[0] == -1;
  }

  /** Otherwise index -1 adds the last sheet before the rest of the indices are looked at. */
  lemma MinusOneFirst(w: Workbook, book: Book, rest: seq<int>)
    requires |book| > 0
    ensures AddSelected(w, book, [-1] + rest)
      == AddSelected(AddSheet(w, book[|book| - 1].0, book[|book| - 1].1), book, rest)
  {
    var idx := [-1] + rest;
    assert idx[0] == -1 && idx[1..] == rest;
    assert PyIndex(|book|, -1) == Success(|book| - 1);
  }

  /** From no sheets, -1 and then more indices: the last sheet comes first, and the rest
      of the loop goes on from the workbook holding just that sheet. */
  lemma LastThenRest(w: Workbook, book: Book, rest: seq<int>, tail: seq<(string, Sheet)>)
    requires w.hojas == [] && |book| > 0
    requires AddSelected(Workbook(w.nombre, [EntryOf(book, |book| - 1)]), book, rest)
      == Success(Workbook(w.nombre, [EntryOf(book, |book| - 1)] + tail))
    ensures AddSelected(w, book, [-1] + rest) == Success(Workbook(w.nombre, [EntryOf(book, |book| - 1)] + tail))
  {
    calc {
      AddSelected(w, book, [-1] + rest);
    == { MinusOneFirst(w, book, rest); }
      AddSelected(AddSheet(w, book[|book| - 1].0, book[|book| - 1].1), book, rest);
    == { AddToEmpty(w, book, |book| - 1); }
      AddSelected(Workbook(w.nombre, [EntryOf(book, |book| - 1)]), book, rest);
    }
  }

  /** Into a workbook without sheets, sheet `i` becomes the only entry. */
  lemma AddToEmpty(w: Workbook, book: Book, i: nat)
    requires w.hojas == [] && i < |book|
    ensures AddSheet(w, book[i].0, book[i].1) == Workbook(w.nombre, [EntryOf(book, i)])
  {
  }

  /** With the last sheet in, the span below it is appended after it. */
  lemma SpanAfterLast(w: Workbook, book: Book, hi: int)
    requires Distinct(Keys(book)) && 0 <= hi < |book|
    requires w.hojas == [EntryOf(book, |book| - 1)]
    ensures AddSelected(w, book, Interval(0, hi)) == Success(Workbook(w.nombre, w.hojas + Selected(book, Interval(0, hi))))
  {
    LastSheetApart(w, book, hi);
    AddSelectedAppends(w, book, Interval(0, hi));
  }

  /** With only the last sheet in, the sheets below `hi <= n - 1` are still to come. */
  lemma LastSheetApart(w: Workbook, book: Book, hi: int)
    requires Distinct(Keys(book)) && 0 <= hi < |book|
    requires w.hojas == [EntryOf(book, |book| - 1)]
    ensures forall k :: 0 <= k < |Interval(0, hi)| ==> Interval(0, hi)[k] >= 0
    ensures forall k :: 0 <= k < |Interval(0, hi)| && Interval(0, hi)[k] < |book| ==>
      book[Interval(0, hi)[k]].0 !in Keys(w.hojas)
  {
    var idx := Interval(0, hi);
    forall k | 0 <= k < |idx|
      ensures 0 <= idx[k] < |book| - 1
    {
      assert idx[k] in idx;
    }
    forall k | 0 <= k < |idx|
      ensures book[idx[k]].0 !in Keys(w.hojas)
    {
      assert Keys(book)[idx[k]] != Keys(book)[|book| - 1];
      assert Keys(w.hojas) == [book[|book| - 1].0];
    }
  }

  /** The loop over `lo .. hi - 1`, from no sheets, adds the selected sheets in order. */
  lemma SpanLoop(w: Workbook, book: Book, lo: nat, hi: int)
    requires w.hojas == [] && Distinct(Keys(book))
    ensures AddSelected(w, book, Interval(lo, hi)) == Success(Workbook(w.nombre, Selected(book, Interval(lo, hi))))
  {
    var idx := Interval(lo, hi);
    assert forall k :: 0 <= k < |idx| ==> idx[k] in idx;
    AddSelectedAppends(w, book, idx);
    assert w.hojas + Selected(book, idx) == Selected(book, idx);
  }

  /** A single sheet number `n` brings sheet `n`; `n` past the end brings nothing, and
      `0` is read as index -1: the last sheet, or an `IndexError` for an empty file. */
  lemma FromExcelSingle(path: string, book: Book, n: nat)
    ensures var r := FromExcel(path, Some(Show(n)), book);
      && (n == 0 && |book| == 0 ==> r == Failure(IndexOutOfRange(-1)))
      && (n == 0 && |book| > 0 ==> r == Success(Workbook(BookName(path), [EntryOf(book, |book| - 1)])))
      && (1 <= n <= |book| ==> r == Success(Workbook(BookName(path), [EntryOf(book, n - 1)])))
      && (n > |book| ==> r == Success(Empty(BookName(path))))
  {
    SingleNumber(n);
    FromExcelLoop(path, Some(Show(n)), book, [n - 1]);
    SingleLoop(Empty(BookName(path)), book, n);
  }

  /** The loop over the single index `n - 1`, starting from no sheets. */
  lemma SingleLoop(w: Workbook, book: Book, n: nat)
    requires w.hojas == []
    ensures var r := AddSelected(w, book, [n - 1]);
      && (n == 0 && |book| == 0 ==> r == Failure(IndexOutOfRange(-1)))
      && (n == 0 && |book| > 0 ==> r == Success(Workbook(w.nombre, [EntryOf(book, |book| - 1)])))
      && (1 <= n <= |book| ==> r == Success(Workbook(w.nombre, [EntryOf(book, n - 1)])))
      && (n > |book| ==> r == Success(w))
  {
    if n - 1 >= |book| {
      SkipOne(w, book, n - 1);
    } else if n == 0 && |book| > 0 {
      AddOne(w, book, -1, |book| - 1);
    } else if n > 0 {
      AddOne(w, book, n - 1, n - 1);
    }
  }

  /** The loop over a single index past the last sheet adds nothing. */
  lemma SkipOne(w: Workbook, book: Book, i: int)
    requires i >= |book|
    ensures AddSelected(w, book, [i]) == Success(w)
  {
    assert [i][1..] == [];
  }

  /** The loop over a single index that names sheet `j`. */
  lemma AddOne(w: Workbook, book: Book, i: int, j: nat)
    requires w.hojas == [] && PyIndex(|book|, i) == Success(j)
    ensures AddSelected(w, book, [i]) == Success(Workbook(w.nombre, [EntryOf(book, j)]))
  {
    assert [i][1..] == [];
    assert Keys(w.hojas) == [];
    var w' := AddSheet(w, book[j].0, book[j].1);
    assert w'.hojas == [EntryOf(book, j)];
    assert AddSelected(w, book, [i]) == AddSelected(w', book, []);
  }

  /** For a file `stem.ext` in the working directory, neither part holding a dot or a
      slash: the extension is `ext` lower-cased, a CSV or TSV sheet is named `stem`, and
      so is an Excel workbook. */
  lemma PlainFileName(stem: string, ext: string)
    requires '.' !in stem && '.' !in ext && '/' !in stem && '/' !in ext
    ensures Extension(stem + "." + ext) == Lower(ext)
    ensures TableName(stem + "." + ext, "") == stem
    ensures BookName(stem + ".xlsx") == stem
  {
    var path := stem + "." + ext;
    NoSlash(path);
    assert Join([stem, ext], ".") == path by {
      assert Join([stem, ext], ".") == stem + "." + Join([ext], ".");
    }
    SplitJoin([stem, ext], '.');
    var book := stem + ".xlsx";
    NoSlash(book);
    ReplaceSkipsPrefix(stem, ".xlsx", ".xlsx", "");
    ReplaceWhole(".xlsx", "");
  }

  /** A name without a slash is its own last piece. */
  lemma NoSlash(s: string)
    requires '/' !in s
    ensures LastPiece(s, "/") == s
  {
    SplitJoin([s], '/');
  }

  /** A CSV file becomes one sheet holding the table read with `sep`, under the given
      name or the file's; the rest of the workbook is untouched. */
  lemma CsvSheet(w: Workbook, path: string, nombreHoja: string, sep: string, hojas: Option<string>,
                 readCsv: (string, string) -> Frame, book: Book)
    requires Valid(w) && Extension(path) == "csv"
    ensures var r := AddFromFile(w, path, nombreHoja, sep, hojas, readCsv, book);
      var n := TableName(path, nombreHoja);
      && r.Success? && Valid(r.value)
      && GetSheet(r.value, n) == Some(Sheet(n, readCsv(path, sep)))
      && forall k :: k != n ==> GetSheet(r.value, k) == GetSheet(w, k)
  {
    AddSheetSpec(w, TableName(path, nombreHoja), readCsv(path, sep));
  }

  /** A TSV file is read with a tab whatever separator is passed. */
  lemma TsvIgnoresSep(w: Workbook, path: string, nombreHoja: string, sep1: string, sep2: string,
                      hojas: Option<string>, readCsv: (string, string) -> Frame, book: Book)
    requires Extension(path) == "tsv"
    ensures AddFromFile(w, path, nombreHoja, sep1, hojas, readCsv, book)
         == AddFromFile(w, path, nombreHoja, sep2, hojas, readCsv, book)
    ensures AddFromFile(w, path, nombreHoja, sep1, hojas, readCsv, book)
         == Success(AddSheet(w, TableName(path, nombreHoja), readCsv(path, "\t")))
  {
  }

  /** An Excel file imported without a sheet name does what `desde_excel` does, into the
      given workbook. */
  lemma ExcelLikeFromExcel(nombre: string, path: string, sep: string, hojas: Option<string>,
                           readCsv: (string, string) -> Frame, book: Book)
    requires Extension(path) == "xlsx"
    ensures var r := AddFromFile(Empty(nombre), path, "", sep, hojas, readCsv, book);
      var e := FromExcel(path, hojas, book);
      && (r.Success? <==> e.Success?)
      && (r.Success? ==> r.value == Workbook(nombre, e.value.hojas))
      && (r.Failure? ==> r.error == e.error)
  {
    var s := Selection(hojas, |book|);
    var r := AddFromFile(Empty(nombre), path, "", sep, hojas, readCsv, book);
    if s.Success? {
      FromExcelLoop(path, hojas, book, s.value);
      assert r == AddSelected(Empty(nombre), book, s.value);
      AddSelectedRenamed(nombre, BookName(path), book, s.value);
    } else {
      assert r == Failure(s.error);
    }
  }

  /** The import loop does not look at the workbook's name. */
  lemma {:induction false} AddSelectedRenamed(n1: string, n2: string, book: Book, idx: seq<int>)
    ensures AddSelected(Empty(n1), book, idx).Success? ==>
      AddSelected(Empty(n2), book, idx).Success? &&
      AddSelected(Empty(n1), book, idx).value.hojas == AddSelected(Empty(n2), book, idx).value.hojas
    ensures AddSelected(Empty(n1), book, idx).Failure? ==>
      AddSelected(Empty(n1), book, idx) == AddSelected(Empty(n2), book, idx)
  {
    AddSelectedRenames(Empty(n1), Empty(n2).nombre, book, idx);
  }

  lemma {:induction false} AddSelectedRenames(w: Workbook, n2: string, book: Book, idx: seq<int>)
    ensures var a := AddSelected(w, book, idx);
      var b := AddSelected(Workbook(n2, w.hojas), book, idx);
      && (a.Success? <==> b.Success?)
      && (a.Success? ==> b.value == Workbook(n2, a.value.hojas))
      && (a.Failure? ==> a.error == b.error)
    decreases |idx|
  {
    if |idx| > 0 && idx[0] < |book| && PyIndex(|book|, idx[0]).Success? {
      var j := PyIndex(|book|, idx[0]).value;
      AddSelectedRenames(AddSheet(w, book[j].0, book[j].1), n2, book, idx[1..]);
    } else if |idx| > 0 {
      AddSelectedRenames(w, n2, book, idx[1..]);
    }
  }

  /** One selected index with a sheet name: that sheet's table under the given name, or
      an `IndexError` when the index is out of range (indices past the end are not
      skipped here). */
  lemma ExcelNamed(w: Workbook, path: string, nombreHoja: string, sep: string, hojas: Option<string>,
                   readCsv: (string, string) -> Frame, book: Book)
    requires Valid(w) && Extension(path) == "xlsx" && nombreHoja != ""
    requires Selection(hojas, |book|).Success? && |Selection(hojas, |book|).value| == 1
    ensures var i := Selection(hojas, |book|).value[0];
      var r := AddFromFile(w, path, nombreHoja, sep, hojas, readCsv, book);
      && (r.Success? <==> -|book| <= i < |book|)
      && (r.Failure? ==> r.error == IndexOutOfRange(i))
      && (r.Success? ==> Valid(r.value) && GetSheet(r.value, nombreHoja) == Some(Sheet(nombreHoja, book[PyIndex(|book|, i).value].1)))
  {
    var i := Selection(hojas, |book|).value[0];
    if -|book| <= i < |book| {
      AddSheetSpec(w, nombreHoja, book[PyIndex(|book|, i).value].1);
    }
  }
}
