/** The workbook (`LibroPandas` in excel_pandas/libro.py): a name and its sheets, keyed by
    sheet name. The Python dict keeps insertion order, and that order is what an export
    walks, so the sheets are an association list: overwriting a key keeps its place, a
    new key goes last. */
module Workbooks {
  import opened Wrappers
  import opened Errors
  import opened Sheets

  datatype Workbook = Workbook(nombre: string, hojas: seq<(string, Sheet)>)

  /** The keys of an association list, in iteration order. */
  function Keys<V>(es: seq<(string, V)>): (r: seq<string>)
    ensures |r| == |es| && forall i :: 0 <= i < |es| ==> r[i] == es[i].0
  {
    seq(|es|, i requires 0 <= i < |es| => es[i].0)
  }

  /** What the workbook keeps true: no key twice (a dict), and every sheet is stored
      under its own name. */
  predicate Valid(w: Workbook)
  {
    && Distinct(Keys(w.hojas))
    && forall i :: 0 <= i < |w.hojas| ==> w.hojas[i].1.nombre == w.hojas[i].0
  }

  /** The position of key `k`, if it is a key. */
  function Position(es: seq<(string, Sheet)>, k: string): (r: Option<nat>)
    ensures r.Some? ==> r.value < |es| && es[r.value].0 == k
    ensures r.None? <==> k !in Keys(es)
  {
    ColumnIndex(Keys(es), k)
  }

  /** `d.get(k)` */
  function Lookup(es: seq<(string, Sheet)>, k: string): (r: Option<Sheet>)
    ensures r.None? <==> k !in Keys(es)
    ensures r.Some? ==> exists i :: 0 <= i < |es| && es[i] == (k, r.value)
  {
    match Position(es, k)
    case None => None
    case Some(i) => Some(es[i].1)
  }

  /** `d[k] = v`: an existing key is overwritten where it stands, a new one appended. */
  function Put(es: seq<(string, Sheet)>, k: string, v: Sheet): (r: seq<(string, Sheet)>)
    ensures k in Keys(es) ==> Keys(r) == Keys(es)
    ensures k !in Keys(es) ==> Keys(r) == Keys(es) + [k]
  {
    match Position(es, k)
    case None => es + [(k, v)]
    case Some(i) => es[i := (k, v)]
  }

  /** `del d[k]`, for a key that is there. */
  function Delete(es: seq<(string, Sheet)>, k: string): (r: seq<(string, Sheet)>)
    requires k in Keys(es)
    ensures |r| == |es| - 1
  {
    var i := Position(es, k).value;
    es[..i] + es[i + 1..]
  }

  lemma LookupAt(es: seq<(string, Sheet)>, i: nat)
    requires Distinct(Keys(es)) && i < |es|
    ensures Lookup(es, es[i].0) == Some(es[i].1)
  {
    DistinctIndex(Keys(es), i);
  }

  /** After `d[k] = v`, `k` holds `v` and every other key what it held before. */
  lemma PutLookup(es: seq<(string, Sheet)>, k: string, v: Sheet)
    requires Distinct(Keys(es))
    ensures Distinct(Keys(Put(es, k, v)))
    ensures Lookup(Put(es, k, v), k) == Some(v)
    ensures forall k' :: k' != k ==> Lookup(Put(es, k, v), k') == Lookup(es, k')
  {
    var r := Put(es, k, v);
    assert Distinct(Keys(r)) by {
      if k !in Keys(es) {
        assert Keys(r) == Keys(es) + [k];
      }
    }
    LookupAt(r, Position(r, k).value);
    forall k' | k' != k
      ensures Lookup(r, k') == Lookup(es, k')
    {
      if k' in Keys(es) {
        var i := Position(es, k').value;
        assert r[i] == es[i];
        LookupAt(es, i);
        LookupAt(r, i);
      }
    }
  }

  /** After `del d[k]`, `k` is gone and every other key holds what it held before. */
  lemma DeleteLookup(es: seq<(string, Sheet)>, k: string)
    requires Distinct(Keys(es)) && k in Keys(es)
    ensures var r := Delete(es, k);
      && Keys(r) == Keys(es)[..Position(es, k).value] + Keys(es)[Position(es, k).value + 1..]
      && Distinct(Keys(r))
      && Lookup(r, k) == None
      && forall k' :: k' != k ==> Lookup(r, k') == Lookup(es, k')
  {
    var i := Position(es, k).value;
    var r := Delete(es, k);
    DeleteShifts(es, k, i);
    DeleteDropsKey(es, k, i);
    forall k' | k' != k
      ensures Lookup(r, k') == Lookup(es, k')
    {
      DeleteKeeps(es, k, i, k');
    }
  }

  /** The entries after the deleted one move down by one place. */
  lemma DeleteShifts(es: seq<(string, Sheet)>, k: string, i: nat)
    requires k in Keys(es) && Position(es, k) == Some(i)
    ensures forall j :: 0 <= j < |Delete(es, k)| ==> Delete(es, k)[j] == es[if j < i then j else j + 1]
    ensures Keys(Delete(es, k)) == Keys(es)[..i] + Keys(es)[i + 1..]
  {
  }

  lemma DeleteDropsKey(es: seq<(string, Sheet)>, k: string, i: nat)
    requires Distinct(Keys(es)) && k in Keys(es) && Position(es, k) == Some(i)
    requires forall j :: 0 <= j < |Delete(es, k)| ==> Delete(es, k)[j] == es[if j < i then j else j + 1]
    ensures k !in Keys(Delete(es, k))
  {
    var r := Delete(es, k);
    forall j | 0 <= j < |r|
      ensures r[j].0 != k
    {
      var m := if j < i then j else j + 1;
      assert Keys(es)[m] != Keys(es)[i];
    }
  }

  lemma DeleteKeeps(es: seq<(string, Sheet)>, k: string, i: nat, k': string)
    requires Distinct(Keys(es)) && k in Keys(es) && Position(es, k) == Some(i) && k' != k
    requires forall j :: 0 <= j < |Delete(es, k)| ==> Delete(es, k)[j] == es[if j < i then j else j + 1]
    requires Keys(Delete(es, k)) == Keys(es)[..i] + Keys(es)[i + 1..]
    ensures Lookup(Delete(es, k), k') == Lookup(es, k')
  {
    var r := Delete(es, k);
    if k' in Keys(es) {
      var m := Position(es, k').value;
      var j := if m < i then m else m - 1;
      assert r[j] == es[m];
      LookupAt(es, m);
      LookupAt(r, j);
    } else {
      assert k' !in Keys(r);
    }
  }

  // ---------------------------------------------------------------------------------
  // The operations of LibroPandas
  // ---------------------------------------------------------------------------------

  /** `LibroPandas(nombre)`: a workbook without sheets. */
  function Empty(nombre: string): (w: Workbook)
    ensures Valid(w) && w.hojas == []
  {
    Workbook(nombre, [])
  }

  /** `agregar_hoja`: the frame becomes a sheet named `n`, stored under `n`; a sheet
      already under `n` is replaced in its place. */
  function AddSheet(w: Workbook, n: string, frame: Frame): (r: Workbook)
    ensures r.nombre == w.nombre
    ensures n in Keys(w.hojas) ==> Keys(r.hojas) == Keys(w.hojas)
    ensures n !in Keys(w.hojas) ==> Keys(r.hojas) == Keys(w.hojas) + [n]
  {
    Workbook(w.nombre, Put(w.hojas, n, Sheet(n, frame)))
  }

  /** `obtener_hoja`: the sheet under `n`, or `None`; it never fails. */
  function GetSheet(w: Workbook, n: string): (r: Option<Sheet>)
    ensures r.None? <==> n !in Keys(w.hojas)
    ensures Valid(w) && r.Some? ==> r.value.nombre == n
  {
    Lookup(w.hojas, n)
  }

  /** `copiar_hoja`: an absent source is an error; otherwise a copy of its table named
      `nuevo`, stored under `nuevo` (replacing what was there), is added and returned. */
  function CopySheet(w: Workbook, n: string, nuevo: string): (r: Result<(Workbook, Sheet), Error>)
    ensures r.Failure? <==> n !in Keys(w.hojas)
    ensures r.Failure? ==> r.error == SheetNotFound(n)
    ensures r.Success? ==> r.value.1 == Sheet(nuevo, GetSheet(w, n).value.frame)
  {
    match GetSheet(w, n)
    case None => Failure(SheetNotFound(n))
    case Some(hoja) =>
      var copia := Sheet(nuevo, hoja.frame);
      Success((Workbook(w.nombre, Put(w.hojas, nuevo, copia)), copia))
  }

  /** `eliminar_hoja`: an absent name is an error; otherwise that entry is dropped. */
  function RemoveSheet(w: Workbook, n: string): (r: Result<Workbook, Error>)
    ensures r.Failure? <==> n !in Keys(w.hojas)
    ensures r.Failure? ==> r.error == SheetNotFound(n)
    ensures r.Success? ==> r.value.nombre == w.nombre && |r.value.hojas| == |w.hojas| - 1
  {
    if n in Keys(w.hojas) then Success(Workbook(w.nombre, Delete(w.hojas, n))) else Failure(SheetNotFound(n))
  }

  /** `renombrar_hoja`: the old name must be there and the new one must not (so renaming
      a sheet to its own name fails). The sheet is popped and stored again under the new
      name, so it moves to the end, and its `nombre` becomes the new name. */
  function RenameSheet(w: Workbook, actual: string, nuevo: string): (r: Result<Workbook, Error>)
    ensures r.Failure? <==> actual !in Keys(w.hojas) || nuevo in Keys(w.hojas)
    ensures actual !in Keys(w.hojas) ==> r == Failure(SheetNotFound(actual))
    ensures actual in Keys(w.hojas) && nuevo in Keys(w.hojas) ==> r == Failure(SheetExists(nuevo))
    ensures r.Success? ==> r.value.nombre == w.nombre && |r.value.hojas| == |w.hojas|
  {
    if actual !in Keys(w.hojas) then Failure(SheetNotFound(actual))
    else if nuevo in Keys(w.hojas) then Failure(SheetExists(nuevo))
    else
      var hoja := Lookup(w.hojas, actual).value;
      Success(Workbook(w.nombre, Delete(w.hojas, actual) + [(nuevo, Sheet(nuevo, hoja.frame))]))
  }

  // ---------------------------------------------------------------------------------
  // What the operations promise
  // ---------------------------------------------------------------------------------

  /** Adding a sheet keeps the workbook valid; the new sheet is there under its name and
      every other sheet is untouched. */
  lemma AddSheetSpec(w: Workbook, n: string, frame: Frame)
    requires Valid(w)
    ensures var r := AddSheet(w, n, frame);
      && Valid(r)
      && GetSheet(r, n) == Some(Sheet(n, frame))
      && forall k :: k != n ==> GetSheet(r, k) == GetSheet(w, k)
  {
    var r := AddSheet(w, n, frame);
    PutLookup(w.hojas, n, Sheet(n, frame));
    PutNamed(w.hojas, n, Sheet(n, frame));
  }

  lemma PutNamed(es: seq<(string, Sheet)>, k: string, v: Sheet)
    requires forall i :: 0 <= i < |es| ==> es[i].1.nombre == es[i].0
    requires v.nombre == k
    ensures var r := Put(es, k, v);
      forall i :: 0 <= i < |r| ==> r[i].1.nombre == r[i].0
  {
  }

  /** Adding the same sheet twice is the same as adding it once. */
  lemma AddSheetTwice(w: Workbook, n: string, frame: Frame)
    ensures AddSheet(AddSheet(w, n, frame), n, frame) == AddSheet(w, n, frame)
  {
    var r := AddSheet(w, n, frame);
    var i := Position(r.hojas, n).value;
    assert r.hojas[i := (n, Sheet(n, frame))] == r.hojas;
  }

  /** Adding a sheet under a new name and removing it again gives back the workbook,
      order included. */
  lemma RemoveAfterAdd(w: Workbook, n: string, frame: Frame)
    requires n !in Keys(w.hojas)
    ensures RemoveSheet(AddSheet(w, n, frame), n) == Success(w)
  {
    var r := AddSheet(w, n, frame);
    assert Keys(r.hojas) == Keys(w.hojas) + [n];
    assert Keys(r.hojas)[|w.hojas|] == n;
    var i := Position(r.hojas, n).value;
    var ks := Keys(r.hojas);
    assert forall j :: 0 <= j < |w.hojas| ==> ks[j] == Keys(w.hojas)[j] && ks[j] != n;
    assert ColumnIndex(ks, n) == Some(|w.hojas|);
    assert r.hojas[..i] + r.hojas[i + 1..] == w.hojas;
  }

  /** A copy keeps the workbook valid, holds the source's table under the new name, and
      leaves every other sheet, the source among them, as it was. */
  lemma CopySheetSpec(w: Workbook, n: string, nuevo: string)
    requires Valid(w) && n in Keys(w.hojas)
    ensures var r := CopySheet(w, n, nuevo);
      && r.Success?
      && r.value.0 == AddSheet(w, nuevo, GetSheet(w, n).value.frame)
      && Valid(r.value.0)
      && GetSheet(r.value.0, nuevo) == Some(Sheet(nuevo, GetSheet(w, n).value.frame))
      && forall k :: k != nuevo ==> GetSheet(r.value.0, k) == GetSheet(w, k)
  {
    AddSheetSpec(w, nuevo, GetSheet(w, n).value.frame);
  }

  /** Removing keeps the workbook valid; the sheet is gone and the others, in their
      order, are as they were. */
  lemma RemoveSheetSpec(w: Workbook, n: string)
    requires Valid(w) && n in Keys(w.hojas)
    ensures var r := RemoveSheet(w, n);
      && r.Success?
      && Valid(r.value)
      && GetSheet(r.value, n) == None
      && (forall k :: k != n ==> GetSheet(r.value, k) == GetSheet(w, k))
      && Keys(r.value.hojas) == Keys(w.hojas)[..Position(w.hojas, n).value] + Keys(w.hojas)[Position(w.hojas, n).value + 1..]
  {
    DeleteLookup(w.hojas, n);
    DeleteNamed(w.hojas, n);
  }

  lemma DeleteNamed(es: seq<(string, Sheet)>, k: string)
    requires k in Keys(es)
    requires forall i :: 0 <= i < |es| ==> es[i].1.nombre == es[i].0
    ensures var r := Delete(es, k);
      forall i :: 0 <= i < |r| ==> r[i].1.nombre == r[i].0
  {
    var i := Position(es, k).value;
    var r := Delete(es, k);
    assert forall j :: 0 <= j < |r| ==> r[j] == es[if j < i then j else j + 1];
  }

  /** A rename keeps the workbook valid: the old name is gone, the new name holds the
      same table under its new name, as the last sheet, and every other sheet is as it
      was. */
  lemma RenameSheetSpec(w: Workbook, actual: string, nuevo: string)
    requires Valid(w) && actual in Keys(w.hojas) && nuevo !in Keys(w.hojas)
    ensures var r := RenameSheet(w, actual, nuevo);
      && r.Success?
      && Valid(r.value)
      && GetSheet(r.value, actual) == None
      && GetSheet(r.value, nuevo) == Some(Sheet(nuevo, GetSheet(w, actual).value.frame))
      && Keys(r.value.hojas)[|r.value.hojas| - 1] == nuevo
      && forall k :: k != actual && k != nuevo ==> GetSheet(r.value, k) == GetSheet(w, k)
    ensures var r := RenameSheet(w, actual, nuevo);
      var i := Position(w.hojas, actual).value;
      Keys(r.value.hojas) == Keys(w.hojas)[..i] + Keys(w.hojas)[i + 1..] + [nuevo]
  {
    var hoja := Lookup(w.hojas, actual).value;
    var d := Delete(w.hojas, actual);
    DeleteShifts(w.hojas, actual, Position(w.hojas, actual).value);
    assert Keys(d + [(nuevo, Sheet(nuevo, hoja.frame))]) == Keys(d) + [nuevo];
    DeleteLookup(w.hojas, actual);
    DeleteNamed(w.hojas, actual);
    assert Lookup(d, nuevo) == Lookup(w.hojas, nuevo);
    assert nuevo !in Keys(d);
    var v := Sheet(nuevo, hoja.frame);
    assert Put(d, nuevo, v) == d + [(nuevo, v)];
    PutLookup(d, nuevo, v);
    PutNamed(d, nuevo, v);
  }

  /** Renaming there and back leaves every name holding what it held, though the sheet
      now comes last. */
  lemma RenameBack(w: Workbook, a: string, b: string)
    requires Valid(w) && a in Keys(w.hojas) && b !in Keys(w.hojas)
    ensures var r := RenameSheet(w, a, b);
      && r.Success?
      && var back := RenameSheet(r.value, b, a);
      && back.Success?
      && forall k :: GetSheet(back.value, k) == GetSheet(w, k)
  {
    var r := RenameSheet(w, a, b);
    RenameSheetSpec(w, a, b);
    assert a != b;
    RenameSheetSpec(r.value, b, a);
    var back := RenameSheet(r.value, b, a);
    var hoja := GetSheet(w, a).value;
    assert hoja.nombre == a;
    forall k
      ensures GetSheet(back.value, k) == GetSheet(w, k)
    {
      if k == a {
        assert GetSheet(back.value, a) == Some(Sheet(a, hoja.frame));
      }
    }
  }
}
