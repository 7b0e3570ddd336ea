/** The printer-style sheet range of excel_pandas/libro.py (`_parsear_rango_hojas`):
    `"1-3,5,7-9"` names sheets 1 to 3, 5 and 7 to 9, and comes out as the sorted 0-based
    indices `[0, 1, 2, 4, 6, 7, 8]`. */
module Ranges {
  import opened Wrappers
  import opened Errors
  import opened PyStr
  import opened PyInt

  /** One comma-separated part: a single sheet number, or a span `first-last`. */
  datatype Token = Single(n: int) | Span(first: int, last: int)

  /** The 0-based indices a part stands for: `n - 1`, or `range(first - 1, last)`, which is
      empty when `first > last`. */
  function Indices(t: Token): set<int>
  {
    match t
    case Single(n) => {n - 1}
    case Span(a, b) => Between(a - 1, b)
  }

  /** The integers `lo .. hi - 1`. */
  function Between(lo: int, hi: int): (r: set<int>)
    ensures forall x :: x in r <==> lo <= x < hi
    decreases hi - lo
  {
    if lo >= hi then {} else {lo} + Between(lo + 1, hi)
  }

  /** One part: with a `-` in it, exactly two integers around a single `-`; without, one
      integer. Anything else is Python's `ValueError`, from `int()` or from unpacking. */
  function ParseToken(part: string): (r: Result<Token, Error>)
    ensures r.Failure? ==> r.error == BadRangeToken(part)
    ensures r.Success? && r.value.Single? ==> '-' !in part && ParseInt(part) == Some(r.value.n)
    ensures r.Success? && r.value.Span? ==> '-' in part
    ensures '-' !in part ==> (r.Success? <==> ParseInt(part).Some?)
  {
    if '-' in part then
      var ps := Split(part, "-");
      if |ps| == 2 && ParseInt(ps[0]).Some? && ParseInt(ps[1]).Some? then
        Success(Span(ParseInt(ps[0]).value, ParseInt(ps[1]).value))
      else Failure(BadRangeToken(part))
    else
      match ParseInt(part)
      case Some(n) => Success(Single(n))
      case None => Failure(BadRangeToken(part))
  }

  /** A span part is two integers around its only `-`. */
  lemma SpanShape(part: string)
    requires ParseToken(part).Success? && ParseToken(part).value.Span?
    ensures var t := ParseToken(part).value;
      exists a, b :: part == a + "-" + b && '-' !in a && '-' !in b
        && ParseInt(a) == Some(t.first) && ParseInt(b) == Some(t.last)
  {
    var ps := Split(part, "-");
    assert |ps| == 2 && ParseToken(part) == Success(Span(ParseInt(ps[0]).value, ParseInt(ps[1]).value));
    TwoPieces(part, ps);
  }

  lemma TwoPieces(part: string, ps: seq<string>)
    requires ps == Split(part, "-") && |ps| == 2
    ensures part == ps[0] + "-" + ps[1] && '-' !in ps[0] && '-' !in ps[1]
  {
    NoDashInPieces(ps);
    assert Join(ps, "-") == ps[0] + "-" + ps[1];
  }

  lemma NoDashInPieces(ps: seq<string>)
    requires forall p :: p in ps ==> !Contains(p, "-")
    ensures forall p :: p in ps ==> '-' !in p
  {
    forall p | p in ps
      ensures '-' !in p
    {
      CharContains(p, '-');
    }
  }

  /** The parts in order, or the failure of the first bad one. */
  function ParseTokens(parts: seq<string>): (r: Result<seq<Token>, Error>)
    ensures r.Success? <==> forall p :: p in parts ==> ParseToken(p).Success?
    ensures r.Success? ==>
      && |r.value| == |parts|
      && forall i :: 0 <= i < |parts| ==> ParseToken(parts[i]) == Success(r.value[i])
    ensures r.Failure? ==> exists p :: p in parts && r.error == BadRangeToken(p)
  {
    if |parts| == 0 then Success([])
    else
      assert parts == [parts[0]] + parts[1..];
      match ParseToken(parts[0])
      case Failure(e) => Failure(e)
      case Success(t) =>
        match ParseTokens(parts[1..])
        case Failure(e) => Failure(e)
        case Success(ts) =>
          assert forall i :: 1 <= i < |parts| ==> parts[i] == parts[1..][i - 1];
          Success([t] + ts)
  }

  /** Every index named by some token of the list. */
  function AllIndices(ts: seq<Token>): set<int>
  {
    if |ts| == 0 then {} else Indices(ts[0]) + AllIndices(ts[1..])
  }

  lemma {:induction false} AllIndicesMember(ts: seq<Token>, x: int)
    ensures x in AllIndices(ts) <==> exists i :: 0 <= i < |ts| && x in Indices(ts[i])
  {
    if |ts| > 0 {
      AllIndicesMember(ts[1..], x);
      if x in AllIndices(ts[1..]) {
        var i :| 0 <= i < |ts[1..]| && x in Indices(ts[1..][i]);
        assert x in Indices(ts[i + 1]);
      }
      if exists i :: 0 <= i < |ts| && x in Indices(ts[i]) {
        var i :| 0 <= i < |ts| && x in Indices(ts[i]);
        if i > 0 {
          assert x in Indices(ts[1..][i - 1]);
        }
      }
    }
  }

  predicate StrictlyIncreasing(xs: seq<int>)
  {
    forall i, j :: 0 <= i < j < |xs| ==> xs[i] < xs[j]
  }

  /** Adding one index to a sorted, duplicate-free list. */
  function Insert(xs: seq<int>, v: int): (r: seq<int>)
    requires StrictlyIncreasing(xs)
    ensures StrictlyIncreasing(r)
    ensures forall x :: x in r <==> x in xs || x == v
  {
    if |xs| == 0 then [v]
    else if v < xs[0] then [v] + xs
    else if v == xs[0] then xs
    else
      var rest := Insert(xs[1..], v);
      assert forall x :: x in xs[1..] ==> xs[0] < x;
      assert forall k :: 0 <= k < |rest| ==> xs[0] < rest[k] by {
        forall k | 0 <= k < |rest|
          ensures xs[0] < rest[k]
        {
          assert rest[k] in rest;
        }
      }
      [xs[0]] + rest
  }

  /** Adding the indices `lo .. hi - 1`. */
  function AddSpan(xs: seq<int>, lo: int, hi: int): (r: seq<int>)
    requires StrictlyIncreasing(xs)
    ensures StrictlyIncreasing(r)
    ensures forall x :: x in r <==> x in xs || lo <= x < hi
    decreases hi - lo
  {
    if lo >= hi then xs else AddSpan(Insert(xs, lo), lo + 1, hi)
  }

  function AddToken(xs: seq<int>, t: Token): (r: seq<int>)
    requires StrictlyIncreasing(xs)
    ensures StrictlyIncreasing(r)
    ensures forall x :: x in r <==> x in xs || x in Indices(t)
  {
    match t
    case Single(n) => Insert(xs, n - 1)
    case Span(a, b) => AddSpan(xs, a - 1, b)
  }

  /** The set of indices, built up token by token and kept sorted. */
  function Gather(xs: seq<int>, ts: seq<Token>): (r: seq<int>)
    requires StrictlyIncreasing(xs)
    ensures StrictlyIncreasing(r)
    ensures forall x :: x in r <==> x in xs || x in AllIndices(ts)
    decreases |ts|
  {
    if |ts| == 0 then xs else Gather(AddToken(xs, ts[0]), ts[1..])
  }

  /** `_parsear_rango_hojas`: `sorted` of the set of indices every part names, or the
      error of the first part that is neither a number nor a span. */
  function ParseRange(rango: string): (r: Result<seq<int>, Error>)
    ensures r.Success? <==> forall p :: p in Split(rango, ",") ==> ParseToken(p).Success?
    ensures r.Failure? ==> exists p :: p in Split(rango, ",") && r.error == BadRangeToken(p)
    ensures r.Success? ==> StrictlyIncreasing(r.value)
  {
    var tokens := ParseTokens(Split(rango, ","));
    if tokens.Failure? then Failure(tokens.error) else Success(Gather([], tokens.value))
  }

  /** The part names index `x`. */
  predicate Names(part: string, x: int)
  {
    ParseToken(part).Success? && x in Indices(ParseToken(part).value)
  }

  /** The indices of a range are exactly those some part of it names. */
  lemma ParseRangeIndices(rango: string)
    ensures var parts := Split(rango, ",");
      var r := ParseRange(rango);
      r.Success? ==> forall x :: x in r.value <==> exists i :: 0 <= i < |parts| && Names(parts[i], x)
  {
    ParseRangeGathers(rango);
    var parts := Split(rango, ",");
    if ParseRange(rango).Success? {
      TokensIndices(parts, ParseTokens(parts).value);
    }
  }

  lemma ParseRangeGathers(rango: string)
    ensures var tokens := ParseTokens(Split(rango, ","));
      ParseRange(rango).Success? ==> tokens.Success? && ParseRange(rango).value == Gather([], tokens.value)
  {
  }

  lemma TokensIndices(parts: seq<string>, ts: seq<Token>)
    requires ParseTokens(parts) == Success(ts)
    ensures forall x :: x in Gather([], ts) <==> exists i :: 0 <= i < |parts| && Names(parts[i], x)
  {
    forall x
      ensures x in Gather([], ts) <==> exists i :: 0 <= i < |parts| && Names(parts[i], x)
    {
      TokensIndex(parts, ts, x);
    }
  }

  /** An index comes from some token exactly when some part names it. */
  lemma TokensIndex(parts: seq<string>, ts: seq<Token>, x: int)
    requires ParseTokens(parts) == Success(ts)
    ensures x in AllIndices(ts) <==> exists i :: 0 <= i < |parts| && Names(parts[i], x)
  {
    AllIndicesMember(ts, x);
    if exists i :: 0 <= i < |parts| && Names(parts[i], x) {
      var i :| 0 <= i < |parts| && Names(parts[i], x);
      NamesToken(parts[i], ts[i], x);
    }
    if x in AllIndices(ts) {
      var i :| 0 <= i < |ts| && x in Indices(ts[i]);
      NamesToken(parts[i], ts[i], x);
    }
  }

  /** A part that parses to `t` names exactly the indices of `t`. */
  lemma NamesToken(part: string, t: Token, x: int)
    requires ParseToken(part) == Success(t)
    ensures Names(part, x) <==> x in Indices(t)
  {
  }

  /** A sorted, duplicate-free list is determined by its elements. */
  lemma {:induction false} SortedUnique(xs: seq<int>, ys: seq<int>)
    requires StrictlyIncreasing(xs) && StrictlyIncreasing(ys)
    requires forall x :: x in xs <==> x in ys
    ensures xs == ys
    decreases |xs|
  {
    assert |xs| > 0 ==> xs[0] in xs && xs[0] in ys;
    assert |ys| > 0 ==> ys[0] in ys && ys[0] in xs;
    if |xs| > 0 {
      HeadIsLeast(xs, ys[0]);
      HeadIsLeast(ys, xs[0]);
      forall x
        ensures x in xs[1..] <==> x in ys[1..]
      {
        if x in xs[1..] {
          var k :| 1 <= k < |xs| && xs[k] == x;
          assert x in ys && x != ys[0];
          var m :| 0 <= m < |ys| && ys[m] == x;
          assert m >= 1;
        }
        if x in ys[1..] {
          var k :| 1 <= k < |ys| && ys[k] == x;
          assert x in xs && x != xs[0];
          var m :| 0 <= m < |xs| && xs[m] == x;
          assert m >= 1;
        }
      }
      SortedUnique(xs[1..], ys[1..]);
      assert xs == [xs[0]] + xs[1..] && ys == [ys[0]] + ys[1..];
    }
  }

  lemma HeadIsLeast(xs: seq<int>, x: int)
    requires StrictlyIncreasing(xs) && x in xs
    ensures xs[0] <= x
  {
    var k :| 0 <= k < |xs| && xs[k] == x;
    assert k == 0 || xs[0] < xs[k];
  }

  /** The indices `lo .. hi - 1` in order. */
  function Interval(lo: int, hi: int): (r: seq<int>)
    ensures StrictlyIncreasing(r)
    ensures forall x :: x in r <==> lo <= x < hi
    decreases hi - lo
  {
    if lo >= hi then []
    else
      var rest := Interval(lo + 1, hi);
      assert forall k :: 0 <= k < |rest| ==> lo < rest[k] by {
        forall k | 0 <= k < |rest|
          ensures lo < rest[k]
        {
          assert rest[k] in rest;
        }
      }
      [lo] + rest
  }

  /** The decimal numeral of a sheet number is a single part with that number. */
  lemma NumeralToken(n: nat, part: string)
    requires part == Show(n)
    ensures ParseToken(part) == Success(Single(n))
  {
    ParseShow(n);
  }

  /** `"a-b"` is a span; the indices are `a - 1 .. b - 1`, none when `a > b`. */
  lemma SpanToken(a: nat, b: nat, part: string)
    requires part == Show(a) + "-" + Show(b)
    ensures ParseToken(part) == Success(Span(a, b))
  {
    assert part[|Show(a)|] == '-';
    SplitJoin([Show(a), Show(b)], '-');
    assert Join([Show(a), Show(b)], "-") == part;
    ParseShow(a);
    ParseShow(b);
  }

  /** The parts of a range are what lies between its commas. */
  lemma {:induction false} SplitParts(rango: string, parts: seq<string>)
    requires |parts| >= 1 && forall p :: p in parts ==> ',' !in p
    requires rango == Join(parts, ",")
    ensures Split(rango, ",") == parts
  {
    SplitJoin(parts, ',');
  }

  /** From the parts' tokens to the result: the sorted list of the indices they name. */
  lemma IndicesFromTokens(rango: string, parts: seq<string>, ts: seq<Token>, xs: seq<int>)
    requires Split(rango, ",") == parts && |ts| == |parts|
    requires forall i :: 0 <= i < |parts| ==> ParseToken(parts[i]) == Success(ts[i])
    requires StrictlyIncreasing(xs)
    requires forall x :: x in xs <==> exists i :: 0 <= i < |ts| && x in Indices(ts[i])
    ensures ParseRange(rango) == Success(xs)
  {
    ParseRangeIndices(rango);
    forall x
      ensures x in xs <==> exists i :: 0 <= i < |parts| && Names(parts[i], x)
    {
      if x in xs {
        var i :| 0 <= i < |ts| && x in Indices(ts[i]);
        assert Names(parts[i], x);
      }
    }
    SortedUnique(ParseRange(rango).value, xs);
  }

  /** Any two integers around a single `-` make a span, whatever spelling `int()` accepts
      for them (`" 1 - 3"`, `"+1-3"`, `"1_0-12"`). */
  lemma SpanPart(a: string, b: string, x: int, y: int)
    requires '-' !in a && '-' !in b && ParseInt(a) == Some(x) && ParseInt(b) == Some(y)
    ensures ParseToken(a + "-" + b) == Success(Span(x, y))
  {
    var part := a + "-" + b;
    CharContains(b, '-');
    SplitTwo(a, "-", b);
    assert part[|a|] == '-';
  }

  /** A range that is one integer `n` without a dash, in any spelling `int()` accepts,
      selects index `n - 1`. */
  lemma NumberRange(part: string, n: int)
    requires ',' !in part && '-' !in part && ParseInt(part) == Some(n)
    ensures ParseRange(part) == Success([n - 1])
  {
    OnePart(part);
    NumberToken(part, n);
    SinglePartRange(part, n);
  }

  /** Text without a comma is a range of one part. */
  lemma OnePart(part: string)
    requires ',' !in part
    ensures Split(part, ",") == [part]
  {
    SplitParts(part, [part]);
  }

  /** A range whose only part is the number `n` selects index `n - 1`. */
  lemma SinglePartRange(part: string, n: int)
    requires Split(part, ",") == [part] && ParseToken(part) == Success(Single(n))
    ensures ParseRange(part) == Success([n - 1])
  {
    assert (n - 1) in Indices(Single(n));
    IndicesFromTokens(part, [part], [Single(n)], [n - 1]);
  }

  /** A dash-free part that `int()` reads as `n` is the single number `n`. */
  lemma NumberToken(part: string, n: int)
    requires '-' !in part && ParseInt(part) == Some(n)
    ensures ParseToken(part) == Success(Single(n))
  {
  }

  /** A range that is one span `a-b` of integers `x` and `y`, in any spelling `int()`
      accepts, selects `x - 1 .. y - 1` in order. */
  lemma SpanPartRange(a: string, b: string, x: int, y: int)
    requires ',' !in a && ',' !in b
    requires '-' !in a && '-' !in b && ParseInt(a) == Some(x) && ParseInt(b) == Some(y)
    ensures ParseRange(a + "-" + b) == Success(Interval(x - 1, y))
  {
    var part := a + "-" + b;
    SplitParts(part, [part]);
    SpanPart(a, b, x, y);
    SpanIndices(x, y, [Span(x, y)], Interval(x - 1, y));
    IndicesFromTokens(part, [part], [Span(x, y)], Interval(x - 1, y));
  }

  /** A single sheet number `n` selects index `n - 1`. Sheet 0 is not rejected: it gives
      index -1, which Python reads as the last sheet. */
  lemma SingleNumber(n: nat)
    ensures ParseRange(Show(n)) == Success([n - 1])
  {
    var part := Show(n);
    NoCommaInNumeral(n);
    SplitParts(part, [part]);
    NumeralToken(n, part);
    IndicesFromTokens(part, [part], [Single(n)], [n - 1]);
  }

  /** Repeats collapse: the same number `k` times selects its index once. */
  lemma RepeatedNumber(n: nat, k: nat)
    requires k >= 1
    ensures ParseRange(Join(seq(k, i => Show(n)), ",")) == Success([n - 1])
  {
    var parts := seq(k, i => Show(n));
    var ts := seq(k, i => Single(n));
    RepeatedParts(n, parts, ts, [n - 1]);
    SplitParts(Join(parts, ","), parts);
    IndicesFromTokens(Join(parts, ","), parts, ts, [n - 1]);
  }

  lemma RepeatedParts(n: nat, parts: seq<string>, ts: seq<Token>, xs: seq<int>)
    requires |parts| == |ts| >= 1 && xs == [n - 1]
    requires forall i :: 0 <= i < |parts| ==> parts[i] == Show(n) && ts[i] == Single(n)
    ensures forall p :: p in parts ==> ',' !in p
    ensures forall i :: 0 <= i < |parts| ==> ParseToken(parts[i]) == Success(ts[i])
    ensures forall x :: x in xs <==> exists i :: 0 <= i < |ts| && x in Indices(ts[i])
  {
    NoCommaInNumeral(n);
    NumeralToken(n, Show(n));
    assert (n - 1) in Indices(ts[0]);
  }

  /** A span `a-b` selects the indices `a - 1 .. b - 1` in order. */
  lemma SpanRange(a: nat, b: nat)
    ensures ParseRange(Show(a) + "-" + Show(b)) == Success(Interval(a - 1, b))
  {
    var part := Show(a) + "-" + Show(b);
    NoCommaInSpan(a, b);
    SplitParts(part, [part]);
    SpanToken(a, b, part);
    SpanIndices(a, b, [Span(a, b)], Interval(a - 1, b));
    IndicesFromTokens(part, [part], [Span(a, b)], Interval(a - 1, b));
  }

  lemma SpanIndices(a: int, b: int, ts: seq<Token>, xs: seq<int>)
    requires ts == [Span(a, b)] && xs == Interval(a - 1, b)
    ensures forall x :: x in xs <==> exists i :: 0 <= i < |ts| && x in Indices(ts[i])
  {
    forall x | x in xs
      ensures exists i :: 0 <= i < |ts| && x in Indices(ts[i])
    {
      assert x in Indices(ts[0]);
    }
  }

  /** A backwards span is not an error; it selects nothing. */
  lemma BackwardsSpan(a: nat, b: nat)
    requires a > b
    ensures ParseRange(Show(a) + "-" + Show(b)) == Success([])
  {
    SpanRange(a, b);
  }

  /** A part with two dashes is an error: three values to unpack into two. */
  lemma TwoDashes(a: nat, b: nat, c: nat)
    ensures ParseRange(Show(a) + "-" + Show(b) + "-" + Show(c)).Failure?
  {
    var part := Show(a) + "-" + Show(b) + "-" + Show(c);
    NoCommaInSpan(a, b);
    NoCommaInNumeral(c);
    assert ',' !in part;
    SplitParts(part, [part]);
    TwoDashToken(a, b, c, part);
    assert part in Split(part, ",");
  }

  lemma TwoDashToken(a: nat, b: nat, c: nat, part: string)
    requires part == Show(a) + "-" + Show(b) + "-" + Show(c)
    ensures ParseToken(part).Failure?
  {
    var ps := [Show(a), Show(b), Show(c)];
    NoDashInNumeral(a);
    NoDashInNumeral(b);
    NoDashInNumeral(c);
    assert Join(ps[1..], "-") == Show(b) + "-" + Show(c);
    assert Join(ps, "-") == part;
    SplitJoin(ps, '-');
    assert part[|Show(a)|] == '-';
  }

  lemma NoCommaInNumeral(n: nat)
    ensures ',' !in Show(n)
  {
    var s := Show(n);
    assert forall i :: 0 <= i < |s| ==> IsDigit(s[i]);
  }

  lemma NoDashInNumeral(n: nat)
    ensures '-' !in Show(n)
  {
    var s := Show(n);
    assert forall i :: 0 <= i < |s| ==> IsDigit(s[i]);
  }

  lemma NoCommaInSpan(a: nat, b: nat)
    ensures ',' !in Show(a) + "-" + Show(b)
  {
    NoCommaInNumeral(a);
    NoCommaInNumeral(b);
  }

  /** An empty part, as in `"1,,2"` or the empty string, is an error (`int("")`). */
  lemma EmptyPartFails(rango: string)
    requires "" in Split(rango, ",")
    ensures ParseRange(rango).Failure?
  {
    NoDigitNoInt("");
  }
}
