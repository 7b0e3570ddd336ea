/** The LaTeX accent decoder applied to the text cells of a sheet (`latex_to_unicode`
    in excel_pandas/hoja.py). */
module Latex {
  import opened PyStr

  /** The replacement table of `latex_to_unicode`, in the order Python iterates its dict
      literal, cut into the groups it is written in. Each key is the raw string of the
      source: the first key of the last group, `r"\\ss"`, is two backslashes followed by
      `ss`. */
  const LowerA: seq<(string, string)> := [("\\'a", "\U{E1}"), ("\\\"a", "\U{E4}"), ("\\`a", "\U{E0}"), ("\\~a", "\U{E3}")]
  const LowerE: seq<(string, string)> := [("\\'e", "\U{E9}"), ("\\\"e", "\U{EB}"), ("\\`e", "\U{E8}")]
  const LowerI: seq<(string, string)> := [("\\'i", "\U{ED}"), ("\\\"i", "\U{EF}"), ("\\`i", "\U{EC}")]
  const LowerO: seq<(string, string)> := [("\\'o", "\U{F3}"), ("\\\"o", "\U{F6}"), ("\\`o", "\U{F2}"), ("\\~o", "\U{F5}")]
  const LowerU: seq<(string, string)> := [("\\'u", "\U{FA}"), ("\\\"u", "\U{FC}"), ("\\`u", "\U{F9}")]
  const UpperA: seq<(string, string)> := [("\\'A", "\U{C1}"), ("\\\"A", "\U{C4}"), ("\\`A", "\U{C0}"), ("\\~A", "\U{C3}")]
  const UpperE: seq<(string, string)> := [("\\'E", "\U{C9}"), ("\\\"E", "\U{CB}"), ("\\`E", "\U{C8}")]
  const UpperI: seq<(string, string)> := [("\\'I", "\U{CD}"), ("\\\"I", "\U{CF}"), ("\\`I", "\U{CC}")]
  const UpperO: seq<(string, string)> := [("\\'O", "\U{D3}"), ("\\\"O", "\U{D6}"), ("\\`O", "\U{D2}"), ("\\~O", "\U{D5}")]
  const UpperU: seq<(string, string)> := [("\\'U", "\U{DA}"), ("\\\"U", "\U{DC}"), ("\\`U", "\U{D9}")]
  const TildeN: seq<(string, string)> := [("\\~n", "\U{F1}"), ("\\~N", "\U{D1}")]
  const Cedilla: seq<(string, string)> := [("\\c{c}", "\U{E7}"), ("\\c{C}", "\U{C7}")]
  const SharpSAndY: seq<(string, string)> := [("\\\\ss", "\U{DF}"), ("\\'y", "\U{FD}"), ("\\'Y", "\U{DD}")]

  const Groups: seq<seq<(string, string)>> := [
    LowerA, LowerE, LowerI, LowerO, LowerU, UpperA, UpperE, UpperI, UpperO, UpperU,
    TildeN, Cedilla, SharpSAndY
  ]

  function Flatten(gs: seq<seq<(string, string)>>): seq<(string, string)>
  {
    if |gs| == 0 then [] else gs[0] + Flatten(gs[1..])
  }

  /** The whole table: 41 entries. */
  const Replacements: seq<(string, string)> := Flatten(Groups)

  /** Every key is an escape: a backslash, then at least two more characters, replaced by
      a single character. */
  predicate EscapeTable(tbl: seq<(string, string)>)
  {
    forall i :: 0 <= i < |tbl| ==> |tbl[i].0| >= 3 && tbl[i].0[0] == '\\' && |tbl[i].1| == 1
  }

  predicate EscapeGroups(gs: seq<seq<(string, string)>>)
  {
    forall k :: 0 <= k < |gs| ==> EscapeTable(gs[k])
  }

  lemma {:induction false} FlattenEscapes(gs: seq<seq<(string, string)>>)
    requires EscapeGroups(gs)
    ensures EscapeTable(Flatten(gs))
  {
    if |gs| > 0 {
      FlattenEscapes(gs[1..]);
    }
  }

  lemma GroupsAreEscapes()
    ensures EscapeGroups(Groups)
  {
    assert EscapeTable(LowerA) && EscapeTable(LowerE) && EscapeTable(LowerI) by {}
    assert EscapeTable(LowerO) && EscapeTable(LowerU) && EscapeTable(UpperA) by {}
    assert EscapeTable(UpperE) && EscapeTable(UpperI) && EscapeTable(UpperO) by {}
    assert EscapeTable(UpperU) && EscapeTable(TildeN) && EscapeTable(Cedilla) by {}
    assert EscapeTable(SharpSAndY) by {}
  }

  lemma ReplacementsAreEscapes()
    ensures EscapeTable(Replacements)
  {
    GroupsAreEscapes();
    FlattenEscapes(Groups);
  }

  /** `for latex, char in tbl: text = text.replace(latex, char)` */
  function ApplyTable(s: string, tbl: seq<(string, string)>): string
    requires EscapeTable(tbl)
    decreases |tbl|
  {
    if |tbl| == 0 then s else ApplyTable(Replace(s, tbl[0].0, tbl[0].1), tbl[1..])
  }

  predicate NoBraces(s: string)
  {
    '{' !in s && '}' !in s
  }

  /** `re.sub(r"[{}]", "", s)` */
  function DropBraces(s: string): (r: string)
    ensures NoBraces(r)
    ensures |r| <= |s|
    ensures NoBraces(s) ==> r == s
  {
    if |s| == 0 then ""
    else if s[0] == '{' || s[0] == '}' then DropBraces(s[1..])
    else
      assert s == [s[0]] + s[1..];
      [s[0]] + DropBraces(s[1..])
  }

  /** `latex_to_unicode` on a string: the table replacements in order, then the braces go. */
  function DecodeText(s: string): (r: string)
    ensures NoBraces(r)
  {
    ReplacementsAreEscapes();
    DropBraces(ApplyTable(s, Replacements))
  }

  lemma {:induction false} ApplyTableShrinks(s: string, tbl: seq<(string, string)>)
    requires EscapeTable(tbl)
    ensures |ApplyTable(s, tbl)| <= |s|
    decreases |tbl|
  {
    if |tbl| > 0 {
      ReplaceShrinks(s, tbl[0].0, tbl[0].1);
      ApplyTableShrinks(Replace(s, tbl[0].0, tbl[0].1), tbl[1..]);
    }
  }

  lemma {:induction false} ApplyTableNoBackslash(s: string, tbl: seq<(string, string)>)
    requires EscapeTable(tbl)
    requires '\\' !in s
    ensures ApplyTable(s, tbl) == s
    decreases |tbl|
  {
    if |tbl| > 0 {
      var pat := tbl[0].0;
      if Contains(s, pat) {
        ContainsFirstChar(s, pat);
      }
      ReplaceAbsent(s, pat, tbl[0].1);
      ApplyTableNoBackslash(s, tbl[1..]);
    }
  }

  /** Decoding never lengthens a string: every escape is replaced by a single character. */
  lemma DecodeShrinks(s: string)
    ensures |DecodeText(s)| <= |s|
  {
    ReplacementsAreEscapes();
    ApplyTableShrinks(s, Replacements);
  }

  /** Text without backslashes or braces comes through unchanged. */
  lemma DecodePlain(s: string)
    requires '\\' !in s && NoBraces(s)
    ensures DecodeText(s) == s
  {
    ReplacementsAreEscapes();
    ApplyTableNoBackslash(s, Replacements);
  }

  /** Running two tables one after the other is running their concatenation. */
  lemma {:induction false} ApplyTableAppend(s: string, t1: seq<(string, string)>, t2: seq<(string, string)>)
    requires EscapeTable(t1) && EscapeTable(t2)
    ensures EscapeTable(t1 + t2)
    ensures ApplyTable(s, t1 + t2) == ApplyTable(ApplyTable(s, t1), t2)
    decreases |t1|
  {
    if |t1| == 0 {
      assert t1 + t2 == t2;
    } else {
      assert (t1 + t2)[1..] == t1[1..] + t2;
      ApplyTableAppend(Replace(s, t1[0].0, t1[0].1), t1[1..], t2);
    }
  }

  /** A table whose every key mentions a character the text lacks leaves the text alone. */
  lemma {:induction false} ApplyTableWithout(s: string, tbl: seq<(string, string)>, c: char)
    requires EscapeTable(tbl)
    requires MarkedGroup(tbl, c) && c !in s
    ensures ApplyTable(s, tbl) == s
    decreases |tbl|
  {
    if |tbl| > 0 {
      ReplaceMissingChar(s, tbl[0].0, tbl[0].1, c);
      ApplyTableWithout(s, tbl[1..], c);
    }
  }

  /** Decoding group by group: if `ts` records the text before and after each group of
      the table, the decoded text is the last of them with its braces dropped. */
  lemma {:induction false} ApplyFlattenChain(gs: seq<seq<(string, string)>>, ts: seq<string>)
    requires EscapeGroups(gs)
    requires |ts| == |gs| + 1
    requires forall k :: 0 <= k < |gs| ==> ApplyTable(ts[k], gs[k]) == ts[k + 1]
    ensures EscapeTable(Flatten(gs))
    ensures ApplyTable(ts[0], Flatten(gs)) == ts[|gs|]
    decreases |gs|
  {
    FlattenEscapes(gs);
    if |gs| > 0 {
      ApplyFlattenChain(gs[1..], ts[1..]);
      FlattenEscapes(gs[1..]);
      ApplyTableAppend(ts[0], gs[0], Flatten(gs[1..]));
    }
  }

  lemma DecodeByGroups(s: string, ts: seq<string>)
    requires EscapeGroups(Groups)
    requires |ts| == |Groups| + 1 && ts[0] == s
    requires forall k :: 0 <= k < |Groups| ==> ApplyTable(ts[k], Groups[k]) == ts[k + 1]
    ensures DecodeText(s) == DropBraces(ts[|Groups|])
  {
    ApplyFlattenChain(Groups, ts);
  }

  /** `\'a` becomes `á`. */
  lemma DecodeAcute()
    ensures DecodeText("\\'a") == "\U{E1}"
  {
    var s, a := "\\'a", "\U{E1}";
    GroupsAreEscapes();
    ReplaceUpToFirst(s, LowerA[0].0, LowerA[0].1, 0);
    assert Replace(s, LowerA[0].0, LowerA[0].1) == a;
    ApplyTableNoBackslash(a, LowerA[1..]);
    forall k | 1 <= k < |Groups|
      ensures ApplyTable(a, Groups[k]) == a
    {
      ApplyTableNoBackslash(a, Groups[k]);
    }
    DecodeByGroups(s, [s] + seq(|Groups|, _ => a));
  }

  /** A character every key of the group mentions, for all groups but the last. */
  const GroupMarks: string := "aeiouAEIOU~c"

  predicate MarkedGroup(tbl: seq<(string, string)>, c: char)
  {
    forall i :: 0 <= i < |tbl| ==> c in tbl[i].0
  }

  lemma GroupsAreMarked()
    ensures |GroupMarks| == |Groups| - 1
    ensures forall k :: 0 <= k < |GroupMarks| ==> MarkedGroup(Groups[k], GroupMarks[k])
  {
    assert MarkedGroup(LowerA, 'a') && MarkedGroup(LowerE, 'e') && MarkedGroup(LowerI, 'i');
    assert MarkedGroup(LowerO, 'o') && MarkedGroup(LowerU, 'u') && MarkedGroup(UpperA, 'A');
    assert MarkedGroup(UpperE, 'E') && MarkedGroup(UpperI, 'I') && MarkedGroup(UpperO, 'O');
    assert MarkedGroup(UpperU, 'U') && MarkedGroup(TildeN, '~') && MarkedGroup(Cedilla, 'c');
  }

  /** Groups whose mark the text lacks leave it alone. */
  lemma SkipMarkedGroups(s: string, lo: nat, hi: nat)
    requires lo <= hi <= |GroupMarks|
    requires forall k :: lo <= k < hi ==> GroupMarks[k] !in s
    ensures EscapeGroups(Groups)
    ensures forall k :: lo <= k < hi ==> ApplyTable(s, Groups[k]) == s
  {
    GroupsAreEscapes();
    GroupsAreMarked();
    forall k | lo <= k < hi
      ensures ApplyTable(s, Groups[k]) == s
    {
      ApplyTableWithout(s, Groups[k], GroupMarks[k]);
    }
  }

  /** Braces around the letter hide an escape from the table, and dropping them afterwards
      leaves a fresh escape behind: decoding `\'{a}` gives `\'a`, which a second
      decoding turns into `á`. Decoding is therefore not idempotent, and a column named
      twice in the list given to the cleaning step is decoded twice. */
  lemma DecodeBracedAccent()
    ensures DecodeText("\\'{a}") == "\\'a"
    ensures DecodeText(DecodeText("\\'{a}")) == "\U{E1}"
  {
    BracedAccentOnce();
    DecodeAcute();
  }

  lemma BracedAccentOnce()
    ensures DecodeText("\\'{a}") == "\\'a"
  {
    var s := "\\'{a}";
    BracedAccentFirstGroup();
    BracedAccentOtherGroups();
    DecodeFixed(s);
    DropBracedA(s, "\\'a");
  }

  /** A text no group changes only loses its braces. */
  lemma DecodeFixed(s: string)
    requires forall k :: 0 <= k < |Groups| ==> ApplyTable(s, Groups[k]) == s
    ensures DecodeText(s) == DropBraces(s)
  {
    GroupsAreEscapes();
    DecodeByGroups(s, seq(|Groups| + 1, _ => s));
  }

  lemma DropBracedA(s: string, t: string)
    requires s == "\\'{a}" && t == "\\'a"
    ensures DropBraces(s) == t
  {
    assert s[4..][1..] == "" && s[3..][1..] == s[4..] && s[2..][1..] == s[3..];
    assert s[1..][1..] == s[2..] && s[1..] == s[1..];
    assert DropBraces(s[4..]) == "";
    assert DropBraces(s[3..]) == "a";
    assert DropBraces(s[2..]) == "a";
    assert DropBraces(s[1..]) == "'a";
  }

  lemma BracedAccentFirstGroup()
    ensures ApplyTable("\\'{a}", LowerA) == "\\'{a}"
  {
    var s := "\\'{a}";
    assert s[2] != LowerA[0].0[2];
    ReplaceNotAtHead(s, LowerA[0].0, LowerA[0].1);
    ReplaceMissingChar(s, LowerA[1].0, LowerA[1].1, '"');
    ReplaceMissingChar(s, LowerA[2].0, LowerA[2].1, '`');
    ReplaceMissingChar(s, LowerA[3].0, LowerA[3].1, '~');
  }

  lemma BracedAccentOtherGroups()
    ensures forall k :: 1 <= k < |Groups| ==> ApplyTable("\\'{a}", Groups[k]) == "\\'{a}"
  {
    var s := "\\'{a}";
    SkipMarkedGroups(s, 1, |GroupMarks|);
    ReplaceMissingChar(s, SharpSAndY[0].0, SharpSAndY[0].1, 's');
    ReplaceMissingChar(s, SharpSAndY[1].0, SharpSAndY[1].1, 'y');
    ReplaceMissingChar(s, SharpSAndY[2].0, SharpSAndY[2].1, 'Y');
  }

  /** The table's key for `ß` is two backslashes and `ss`, as the raw string is written:
      the text `\\ss` decodes to `ß`, while the usual LaTeX `\ss` is left as it is
      (`DecodeSingleSharpS`). */
  lemma DecodeDoubledSharpS()
    ensures DecodeText("\\\\ss") == "\U{DF}"
  {
    var s, sharp := "\\\\ss", "\U{DF}";
    SkipMarkedGroups(s, 0, |GroupMarks|);
    ReplaceUpToFirst(s, SharpSAndY[0].0, SharpSAndY[0].1, 0);
    ApplyTableNoBackslash(sharp, SharpSAndY[1..]);
    DecodeByGroups(s, seq(|Groups|, _ => s) + [sharp]);
  }

  lemma DecodeSingleSharpS()
    ensures DecodeText("\\ss") == "\\ss"
  {
    var s := "\\ss";
    SkipMarkedGroups(s, 0, |GroupMarks|);
    ReplaceNotAtHead(s, SharpSAndY[0].0, SharpSAndY[0].1);
    ReplaceMissingChar(s, SharpSAndY[1].0, SharpSAndY[1].1, 'y');
    ReplaceMissingChar(s, SharpSAndY[2].0, SharpSAndY[2].1, 'Y');
    DecodeFixed(s);
  }

}
