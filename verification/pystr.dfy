/** The handful of Python `str` operations the workbook code relies on:
    `strip`, `lower`, `in`, `find`, `split`, `join`, `replace` and `endswith`. */
module PyStr {
  import opened Wrappers

  /** The characters for which Python's `str.isspace()` holds; `strip()` and `int()` drop them. */
  predicate IsSpace(c: char)
  {
    || c == ' ' || c == '\t' || c == '\n' || c == '\r' || c == '\U{0B}' || c == '\U{0C}'
    || ('\U{1C}' <= c <= '\U{1F}') || c == '\U{85}' || c == '\U{A0}' || c == '\U{1680}'
    || ('\U{2000}' <= c <= '\U{200A}') || c == '\U{2028}' || c == '\U{2029}'
    || c == '\U{202F}' || c == '\U{205F}' || c == '\U{3000}'
  }

  predicate AllSpace(s: string)
  {
    forall i :: 0 <= i < |s| ==> IsSpace(s[i])
  }

  /** Neither end of `s` is whitespace: what `strip()` returns. */
  predicate Stripped(s: string)
  {
    s == [] || (!IsSpace(s[0]) && !IsSpace(s[|s| - 1]))
  }

  /** How many whitespace characters `s` starts with. */
  function LeadingSpaces(s: string): (n: nat)
    ensures n <= |s|
    ensures forall i :: 0 <= i < n ==> IsSpace(s[i])
    ensures n < |s| ==> !IsSpace(s[n])
  {
    if |s| > 0 && IsSpace(s[0]) then
      var n := 1 + LeadingSpaces(s[1..]);
      assert forall i :: 1 <= i < n ==> s[i] == s[1..][i - 1];
      n
    else 0
  }

  /** How many whitespace characters `s` ends with. */
  function TrailingSpaces(s: string): (n: nat)
    ensures n <= |s|
    ensures forall i :: |s| - n <= i < |s| ==> IsSpace(s[i])
    ensures n < |s| ==> !IsSpace(s[|s| - n - 1])
  {
    if |s| > 0 && IsSpace(s[|s| - 1]) then
      var n := 1 + TrailingSpaces(s[..|s| - 1]);
      assert forall i :: 0 <= i < |s| - 1 ==> s[i] == s[..|s| - 1][i];
      n
    else 0
  }

  /** `s.lstrip()` */
  function StripLeft(s: string): (r: string)
    ensures |r| <= |s| && r == s[|s| - |r|..]
    ensures AllSpace(s[..|s| - |r|])
    ensures r == [] || !IsSpace(r[0])
  {
    s[LeadingSpaces(s)..]
  }

  /** `s.rstrip()` */
  function StripRight(s: string): (r: string)
    ensures |r| <= |s| && r == s[..|r|]
    ensures AllSpace(s[|r|..])
    ensures r == [] || !IsSpace(r[|r| - 1])
  {
    s[..|s| - TrailingSpaces(s)]
  }

  /** `s.strip()`: the middle of `s` left after removing whitespace from both ends. */
  function Strip(s: string): (r: string)
    ensures Stripped(r)
    ensures |r| <= |s|
  {
    StripRight(StripLeft(s))
  }

  /** What `strip()` removes is whitespace, and what it keeps is a contiguous piece of `s`. */
  lemma StripIsInfix(s: string)
    ensures var r := Strip(s);
      exists i :: 0 <= i <= |s| - |r| && s[i..i + |r|] == r && AllSpace(s[..i]) && AllSpace(s[i + |r|..])
  {
    var l := StripLeft(s);
    var r := StripRight(l);
    var i := |s| - |l|;
    assert s[i..i + |r|] == r;
    assert s[i + |r|..] == l[|r|..];
  }

  lemma AllSpaceConcat(a: string, b: string)
    requires AllSpace(a) && AllSpace(b)
    ensures AllSpace(a + b)
  {
  }

  /** A count of leading spaces followed by a non-space, or the end, is the count. */
  lemma LeadingSpacesExact(s: string, k: nat)
    requires k <= |s| && forall i :: 0 <= i < k ==> IsSpace(s[i])
    requires k < |s| ==> !IsSpace(s[k])
    ensures LeadingSpaces(s) == k
  {
  }

  lemma TrailingSpacesExact(s: string, k: nat)
    requires k <= |s| && forall i :: |s| - k <= i < |s| ==> IsSpace(s[i])
    requires k < |s| ==> !IsSpace(s[|s| - k - 1])
    ensures TrailingSpaces(s) == k
  {
  }

  lemma StripLeftPadded(w: string, t: string)
    requires AllSpace(w)
    requires t == [] || !IsSpace(t[0])
    ensures StripLeft(w + t) == t
  {
    var s := w + t;
    assert |w| < |s| ==> s[|w|] == t[0];
    LeadingSpacesExact(s, |w|);
    assert s[|w|..] == t;
  }

  lemma StripRightPadded(t: string, w: string)
    requires AllSpace(w)
    requires t == [] || !IsSpace(t[|t| - 1])
    ensures StripRight(t + w) == t
  {
    var s := t + w;
    assert |w| < |s| ==> s[|s| - |w| - 1] == t[|t| - 1];
    TrailingSpacesExact(s, |w|);
    assert s[..|t|] == t;
  }

  /** Whitespace around an already stripped string is exactly what `strip()` removes. */
  lemma StripPadded(w1: string, t: string, w2: string)
    requires AllSpace(w1) && AllSpace(w2) && Stripped(t)
    ensures Strip(w1 + t + w2) == t
  {
    if t == [] {
      assert w1 + t + w2 == w1 + w2;
      AllSpaceConcat(w1, w2);
      StripLeftPadded(w1 + w2, []);
      assert w1 + w2 + [] == w1 + w2;
    } else {
      assert w1 + t + w2 == w1 + (t + w2);
      StripLeftPadded(w1, t + w2);
      StripRightPadded(t, w2);
    }
  }

  /** Stripping a string that needs none changes nothing. */
  lemma StrippedFixed(t: string)
    requires Stripped(t)
    ensures Strip(t) == t
  {
    assert AllSpace([]);
    StripPadded([], t, []);
    assert [] + t + [] == t;
  }

  /** ASCII lower-casing, which is all `str.lower()` changes among the characters the
      workbook code compares against (".pdf", "csv", "tsv", "xlsx"). */
  function LowerChar(c: char): char
  {
    if 'A' <= c <= 'Z' then (c as int + 32) as char else c
  }

  function Lower(s: string): (r: string)
    ensures |r| == |s|
    ensures forall i :: 0 <= i < |s| ==> r[i] == LowerChar(s[i])
  {
    seq(|s|, i requires 0 <= i < |s| => LowerChar(s[i]))
  }

  /** `pat` occurs in `s` starting at position `i`. */
  predicate OccursAt(s: string, pat: string, i: int)
  {
    0 <= i && i + |pat| <= |s| && s[i..i + |pat|] == pat
  }

  /** `s.find(pat, from)`: the first occurrence at or after `from`. */
  function FindFrom(s: string, pat: string, from: nat): (r: Option<nat>)
    requires from <= |s|
    ensures r.Some? ==> from <= r.value && OccursAt(s, pat, r.value)
    ensures r.Some? ==> forall j :: from <= j < r.value ==> !OccursAt(s, pat, j)
    ensures r.None? ==> forall j :: from <= j ==> !OccursAt(s, pat, j)
    decreases |s| - from
  {
    if from + |pat| > |s| then None
    else if s[from..from + |pat|] == pat then Some(from)
    else if from == |s| then None
    else FindFrom(s, pat, from + 1)
  }

  function Find(s: string, pat: string): (r: Option<nat>)
    ensures r.Some? ==> OccursAt(s, pat, r.value)
    ensures r.Some? ==> forall j :: 0 <= j < r.value ==> !OccursAt(s, pat, j)
    ensures r.None? ==> forall j :: !OccursAt(s, pat, j)
  {
    FindFrom(s, pat, 0)
  }

  /** Python's `pat in s`. */
  predicate Contains(s: string, pat: string)
  {
    Find(s, pat).Some?
  }

  lemma ContainsAt(s: string, pat: string, i: int)
    requires OccursAt(s, pat, i)
    ensures Contains(s, pat)
  {
  }

  /** An occurrence inside a prefix is an occurrence in the whole string. */
  lemma OccursInPrefix(s: string, k: nat, pat: string, j: int)
    requires k <= |s|
    requires OccursAt(s[..k], pat, j)
    ensures OccursAt(s, pat, j) && j + |pat| <= k
  {
    assert s[..k][j..j + |pat|] == s[j..j + |pat|];
  }

  /** `s.endswith(suf)` */
  predicate EndsWith(s: string, suf: string)
  {
    |suf| <= |s| && s[|s| - |suf|..] == suf
  }

  /** `sep.join(ps)` */
  function Join(ps: seq<string>, sep: string): string
  {
    if |ps| == 0 then ""
    else if |ps| == 1 then ps[0]
    else ps[0] + sep + Join(ps[1..], sep)
  }

  /** `s.split(sep)` for a non-empty separator: the pieces between the occurrences found
      scanning left to right without overlap. */
  function Split(s: string, sep: string): (r: seq<string>)
    requires |sep| > 0
    ensures |r| >= 1
    ensures Join(r, sep) == s
    ensures forall p :: p in r ==> !Contains(p, sep)
    ensures SplitsLeftmost(r, sep)
    decreases |s|
  {
    match Find(s, sep)
    case None => [s]
    case Some(k) =>
      var rest := Split(s[k + |sep|..], sep);
      var head := s[..k];
      assert !Contains(head, sep) by {
        if Contains(head, sep) {
          OccursInPrefix(s, k, sep, Find(head, sep).value);
        }
      }
      FirstOccurrenceEnds(s, sep, k);
      assert s == head + sep + s[k + |sep|..];
      LeftmostCons(head, rest, sep);
      [head] + rest
  }

  /** Every separator the split cut at is the first one after the piece before it: no
      occurrence starts inside a piece and runs on into the separator that follows. */
  predicate SplitsLeftmost(r: seq<string>, sep: string)
    requires |sep| > 0
  {
    forall k :: 0 <= k < |r| - 1 ==> !Contains(r[k] + sep[..|sep| - 1], sep)
  }

  lemma LeftmostCons(head: string, rest: seq<string>, sep: string)
    requires |sep| > 0 && |rest| >= 1
    requires !Contains(head + sep[..|sep| - 1], sep) && SplitsLeftmost(rest, sep)
    ensures SplitsLeftmost([head] + rest, sep)
  {
    var r := [head] + rest;
    forall k | 0 <= k < |r| - 1
      ensures !Contains(r[k] + sep[..|sep| - 1], sep)
    {
      if k > 0 {
        assert r[k] == rest[k - 1];
      }
    }
  }

  /** Before the first occurrence, nothing overlaps into it. */
  lemma FirstOccurrenceEnds(s: string, sep: string, k: nat)
    requires |sep| > 0 && Find(s, sep) == Some(k)
    ensures !Contains(s[..k] + sep[..|sep| - 1], sep)
  {
    var t := s[..k] + sep[..|sep| - 1];
    assert t == s[..k + |sep| - 1];
    if Contains(t, sep) {
      var j := Find(t, sep).value;
      OccursInPrefix(s, k + |sep| - 1, sep, j);
    }
  }

  /** `split` is the only way to cut `s` at separators, leftmost first, into pieces
      without the separator. */
  lemma {:induction false} SplitUnique(s: string, sep: string, ps: seq<string>)
    requires |sep| > 0 && |ps| >= 1 && Join(ps, sep) == s
    requires forall p :: p in ps ==> !Contains(p, sep)
    requires SplitsLeftmost(ps, sep)
    ensures Split(s, sep) == ps
    decreases |ps|
  {
    if |ps| == 1 {
      assert !Contains(s, sep) by { assert ps[0] in ps; }
    } else {
      var m := |ps[0]|;
      var rest := Join(ps[1..], sep);
      assert s == ps[0] + sep + rest;
      FindAfterPiece(s, sep, ps[0], rest);
      assert s[..m] == ps[0] && s[m + |sep|..] == rest;
      assert forall p :: p in ps[1..] ==> p in ps;
      assert SplitsLeftmost(ps[1..], sep) by {
        forall k | 0 <= k < |ps[1..]| - 1
          ensures !Contains(ps[1..][k] + sep[..|sep| - 1], sep)
        {
          assert ps[1..][k] == ps[k + 1];
        }
      }
      SplitUnique(rest, sep, ps[1..]);
      assert ps == [ps[0]] + ps[1..];
    }
  }

  /** A piece that no occurrence runs out of is followed by the first occurrence. */
  lemma FindAfterPiece(s: string, sep: string, a: string, b: string)
    requires |sep| > 0 && s == a + sep + b && !Contains(a + sep[..|sep| - 1], sep)
    ensures Find(s, sep) == Some(|a|)
  {
    var t := a + sep[..|sep| - 1];
    assert s[|a|..|a| + |sep|] == sep;
    assert OccursAt(s, sep, |a|);
    forall j | 0 <= j < |a|
      ensures !OccursAt(s, sep, j)
    {
      if OccursAt(s, sep, j) {
        assert s[..|a| + |sep| - 1] == t;
        assert t[j..j + |sep|] == s[j..j + |sep|];
        ContainsAt(t, sep, j);
      }
    }
  }

  /** The last piece of a split, Python's `[-1]`. */
  function LastPiece(s: string, sep: string): (r: string)
    requires |sep| > 0
    ensures EndsWith(s, r)
    ensures !Contains(r, sep)
    ensures r != s ==> OccursAt(s, sep, |s| - |r| - |sep|)
  {
    var ps := Split(s, sep);
    JoinEndsWithLast(ps, sep);
    assert |ps| > 1 ==> OccursAt(s, sep, |s| - |ps[|ps| - 1]| - |sep|) by {
      if |ps| > 1 {
        JoinLast(ps, sep);
        var front := Join(ps[..|ps| - 1], sep);
        assert s[|front|..|front| + |sep|] == sep;
      }
    }
    assert |ps| == 1 ==> ps[0] == s;
    ps[|ps| - 1]
  }

  /** The first piece of a split, Python's `[0]`: all of `s`, or the text before the
      first occurrence of `sep`. */
  function FirstPiece(s: string, sep: string): (r: string)
    requires |sep| > 0
    ensures r <= s
    ensures !Contains(r, sep)
    ensures r != s ==> OccursAt(s, sep, |r|) && !Contains(r + sep[..|sep| - 1], sep)
  {
    var ps := Split(s, sep);
    JoinStartsWithFirst(ps, sep);
    assert |ps| > 1 ==> OccursAt(s, sep, |ps[0]|) by {
      if |ps| > 1 {
        assert Join(ps, sep) == ps[0] + sep + Join(ps[1..], sep);
        assert s[|ps[0]|..|ps[0]| + |sep|] == sep;
      }
    }
    assert |ps| == 1 ==> ps[0] == s;
    ps[0]
  }

  /** The last separator of a join comes right before the last piece. */
  lemma {:induction false} JoinLast(ps: seq<string>, sep: string)
    requires |ps| > 1
    ensures Join(ps, sep) == Join(ps[..|ps| - 1], sep) + sep + ps[|ps| - 1]
    decreases |ps|
  {
    if |ps| > 2 {
      JoinLast(ps[1..], sep);
      assert ps[1..][..|ps[1..]| - 1] == ps[..|ps| - 1][1..];
      assert Join(ps[..|ps| - 1], sep) == ps[0] + sep + Join(ps[..|ps| - 1][1..], sep);
    } else {
      assert ps[..1] == [ps[0]];
      assert ps[1..] == [ps[1]];
    }
  }

  lemma {:induction false} JoinEndsWithLast(ps: seq<string>, sep: string)
    requires |ps| >= 1
    ensures EndsWith(Join(ps, sep), ps[|ps| - 1])
  {
    if |ps| > 1 {
      JoinEndsWithLast(ps[1..], sep);
      var j := Join(ps[1..], sep);
      var whole := ps[0] + sep + j;
      assert whole[|whole| - |ps[|ps| - 1]|..] == j[|j| - |ps[|ps| - 1]|..];
    }
  }

  lemma JoinStartsWithFirst(ps: seq<string>, sep: string)
    requires |ps| >= 1
    ensures ps[0] <= Join(ps, sep)
  {
    if |ps| > 1 {
      assert Join(ps, sep) == ps[0] + (sep + Join(ps[1..], sep));
    }
  }

  /** `s.replace(pat, rep)` for a non-empty pattern: left to right, non-overlapping. */
  function Replace(s: string, pat: string, rep: string): string
    requires |pat| > 0
    decreases |s|
  {
    if |s| == 0 then ""
    else if OccursAt(s, pat, 0) then rep + Replace(s[|pat|..], pat, rep)
    else [s[0]] + Replace(s[1..], pat, rep)
  }

  /** Replacing a pattern that does not occur changes nothing. */
  lemma {:induction false} ReplaceAbsent(s: string, pat: string, rep: string)
    requires |pat| > 0
    requires !Contains(s, pat)
    ensures Replace(s, pat, rep) == s
    decreases |s|
  {
    if |s| > 0 {
      assert !OccursAt(s, pat, 0);
      assert !Contains(s[1..], pat) by {
        if Contains(s[1..], pat) {
          var j := Find(s[1..], pat).value;
          assert s[1..][j..j + |pat|] == s[j + 1..j + 1 + |pat|];
          assert OccursAt(s, pat, j + 1);
        }
      }
      ReplaceAbsent(s[1..], pat, rep);
    }
  }

  /** A replacement no longer than its pattern never lengthens the string. */
  lemma {:induction false} ReplaceShrinks(s: string, pat: string, rep: string)
    requires |pat| > 0 && |rep| <= |pat|
    ensures |Replace(s, pat, rep)| <= |s|
    decreases |s|
  {
    if |s| > 0 {
      if OccursAt(s, pat, 0) {
        ReplaceShrinks(s[|pat|..], pat, rep);
      } else {
        ReplaceShrinks(s[1..], pat, rep);
      }
    }
  }

  /** Scanning up to the first occurrence copies the prefix verbatim. */
  lemma {:induction false} ReplaceUpToFirst(s: string, pat: string, rep: string, k: nat)
    requires |pat| > 0
    requires OccursAt(s, pat, k)
    requires forall j :: 0 <= j < k ==> !OccursAt(s, pat, j)
    ensures Replace(s, pat, rep) == s[..k] + rep + Replace(s[k + |pat|..], pat, rep)
    decreases k
  {
    if k > 0 {
      NoEarlierOccurrence(s, pat, k);
      ReplaceUpToFirst(s[1..], pat, rep, k - 1);
      UpToFirstStep(s, pat, rep, k);
    } else {
      assert s[..0] == "";
    }
  }

  /** One step of the scan: the head is copied in front of the rest's result. */
  lemma UpToFirstStep(s: string, pat: string, rep: string, k: nat)
    requires |pat| > 0 && 0 < k && k + |pat| <= |s| && !OccursAt(s, pat, 0)
    requires var t := s[1..];
      Replace(t, pat, rep) == t[..k - 1] + rep + Replace(t[k - 1 + |pat|..], pat, rep)
    ensures Replace(s, pat, rep) == s[..k] + rep + Replace(s[k + |pat|..], pat, rep)
  {
    var t := s[1..];
    ReplaceCopiesHead(s, pat, rep);
    assert t[k - 1 + |pat|..] == s[k + |pat|..];
    assert [s[0]] + t[..k - 1] == s[..k];
    ConsConcat(s[0], t[..k - 1], rep, Replace(s[k + |pat|..], pat, rep), s[..k]);
  }

  lemma ConsConcat(c: char, a: string, b: string, d: string, x: string)
    requires x == [c] + a
    ensures [c] + (a + b + d) == x + b + d
  {
  }

  /** Where the pattern does not start, the first character is copied. */
  lemma ReplaceCopiesHead(s: string, pat: string, rep: string)
    requires |pat| > 0 && |s| > 0 && !OccursAt(s, pat, 0)
    ensures Replace(s, pat, rep) == [s[0]] + Replace(s[1..], pat, rep)
  {
  }

  lemma NoEarlierOccurrence(s: string, pat: string, k: nat)
    requires 0 < k && OccursAt(s, pat, k)
    requires forall j :: 0 <= j < k ==> !OccursAt(s, pat, j)
    ensures OccursAt(s[1..], pat, k - 1)
    ensures forall j :: 0 <= j < k - 1 ==> !OccursAt(s[1..], pat, j)
  {
    OccursShift(s, pat, k - 1);
    forall j | 0 <= j < k - 1
      ensures !OccursAt(s[1..], pat, j)
    {
      OccursShift(s, pat, j);
    }
  }

  /** Dropping the first character shifts every occurrence one place left. */
  lemma OccursShift(s: string, pat: string, j: nat)
    requires |s| > 0
    ensures OccursAt(s[1..], pat, j) <==> OccursAt(s, pat, j + 1)
  {
    if j + |pat| <= |s| - 1 {
      assert s[1..][j..j + |pat|] == s[j + 1..j + 1 + |pat|];
    }
  }

  /** `s.replace(pat, rep) == rep.join(s.split(pat))`: the two Python operations agree. */
  lemma {:induction false} ReplaceIsJoinOfSplit(s: string, pat: string, rep: string)
    requires |pat| > 0
    ensures Replace(s, pat, rep) == Join(Split(s, pat), rep)
    decreases |s|
  {
    match Find(s, pat)
    case None =>
      ReplaceAbsent(s, pat, rep);
    case Some(k) =>
      var rest := s[k + |pat|..];
      ReplaceUpToFirst(s, pat, rep, k);
      ReplaceIsJoinOfSplit(rest, pat, rep);
      assert Split(s, pat) == [s[..k]] + Split(rest, pat);
      var ps := Split(s, pat);
      assert ps[1..] == Split(rest, pat);
  }

  /** For a one-character separator, splitting undoes joining pieces that do not
      contain it. */
  lemma {:induction false} SplitJoin(ps: seq<string>, c: char)
    requires |ps| >= 1
    requires forall p :: p in ps ==> c !in p
    ensures Split(Join(ps, [c]), [c]) == ps
    decreases |ps|
  {
    var s := Join(ps, [c]);
    if |ps| == 1 {
      if Find(ps[0], [c]).Some? {
        OccurrenceOfChar(ps[0], c);
      }
    } else {
      var head := ps[0];
      var tail := Join(ps[1..], [c]);
      assert s == head + [c] + tail;
      assert OccursAt(s, [c], |head|) by {
        assert s[|head|..|head| + 1] == [c];
      }
      forall j | 0 <= j < |head|
        ensures !OccursAt(s, [c], j)
      {
        assert s[j] == head[j];
        assert head[j] in head;
      }
      assert Find(s, [c]) == Some(|head|);
      assert s[|head| + 1..] == tail;
      SplitJoin(ps[1..], c);
    }
  }

  lemma OccurrenceOfChar(s: string, c: char)
    requires Find(s, [c]).Some?
    ensures c in s
  {
    var j := Find(s, [c]).value;
    assert s[j..j + 1] == [c];
    assert s[j] == c;
  }

  lemma ContainsFirstChar(s: string, pat: string)
    requires |pat| > 0 && Contains(s, pat)
    ensures pat[0] in s
  {
    var j := Find(s, pat).value;
    assert s[j..j + |pat|][0] == s[j];
  }

  /** Every character of an occurrence is a character of the string. */
  lemma OccurrenceChars(s: string, pat: string, j: int, c: char)
    requires OccursAt(s, pat, j) && c in pat
    ensures c in s
  {
    var k :| 0 <= k < |pat| && pat[k] == c;
    assert s[j..j + |pat|][k] == s[j + k];
  }

  /** A pattern with a character the string lacks cannot be replaced in it. */
  lemma ReplaceMissingChar(s: string, pat: string, rep: string, c: char)
    requires |pat| > 0 && c in pat && c !in s
    ensures Replace(s, pat, rep) == s
  {
    if Contains(s, pat) {
      OccurrenceChars(s, pat, Find(s, pat).value, c);
    }
    ReplaceAbsent(s, pat, rep);
  }

  /** A prefix without the pattern's first character is copied through unchanged. */
  lemma {:induction false} ReplaceSkipsPrefix(a: string, b: string, pat: string, rep: string)
    requires |pat| > 0 && pat[0] !in a
    ensures Replace(a + b, pat, rep) == a + Replace(b, pat, rep)
    decreases |a|
  {
    if |a| > 0 {
      var s := a + b;
      assert s[0] == a[0];
      assert !OccursAt(s, pat, 0);
      assert s[1..] == a[1..] + b;
      ReplaceSkipsPrefix(a[1..], b, pat, rep);
      assert a == [a[0]] + a[1..];
    } else {
      assert a + b == b;
    }
  }

  /** A string with one occurrence of the separator, none of whose first character
      comes before it, splits into the two sides. */
  lemma SplitTwo(a: string, sep: string, b: string)
    requires |sep| > 0 && sep[0] !in a && !Contains(b, sep)
    ensures Split(a + sep + b, sep) == [a, b]
  {
    var s := a + sep + b;
    forall j | 0 <= j < |a|
      ensures !OccursAt(s, sep, j)
    {
      assert s[j] == a[j];
      if j + |sep| <= |s| {
        assert s[j..j + |sep|][0] == s[j];
      }
    }
    assert s[|a|..|a| + |sep|] == sep;
    assert OccursAt(s, sep, |a|);
    var f := Find(s, sep);
    assert f.Some? && f.value >= |a|;
    assert f.value == |a|;
    assert s[|a| + |sep|..] == b;
  }

  /** The pattern alone is replaced whole. */
  lemma ReplaceWhole(pat: string, rep: string)
    requires |pat| > 0
    ensures Replace(pat, pat, rep) == rep
  {
    assert OccursAt(pat, pat, 0);
    assert pat[|pat|..] == "";
  }

  /** A string whose only candidate start for the pattern is its first position, where the
      pattern does not occur, is left alone. */
  lemma ReplaceNotAtHead(s: string, pat: string, rep: string)
    requires |pat| > 0 && |s| > 0
    requires !OccursAt(s, pat, 0) && pat[0] !in s[1..]
    ensures Replace(s, pat, rep) == s
  {
    ReplaceMissingChar(s[1..], pat, rep, pat[0]);
    assert s == [s[0]] + s[1..];
  }

  /** A one-character pattern occurs exactly when the character is in the string. */
  lemma CharContains(s: string, c: char)
    ensures c in s <==> Contains(s, [c])
  {
    if c in s {
      var k :| 0 <= k < |s| && s[k] == c;
      assert s[k..k + 1] == [c];
      ContainsAt(s, [c], k);
    }
    if Contains(s, [c]) {
      OccurrenceOfChar(s, c);
    }
  }
}
