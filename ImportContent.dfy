/** create_three_parallel_content: the batch import tool's writer of the
    three-parallel format, and what the chapter parser reads back from it. */
module ImportContent {
  import opened Text
  import opened Corpus
  import opened ParallelText

  /** `[p.strip() for p in pieces if p.strip()]`. */
  function StrippedNonBlank(pieces: seq<string>): (r: seq<string>)
    ensures |r| <= |pieces|
  {
    if pieces == [] then []
    else
      var p := Strip(pieces[|pieces| - 1]);
      StrippedNonBlank(pieces[..|pieces| - 1]) + (if p != [] then [p] else [])
  }

  /** The paragraphs of one language's text: its non-blank "\n\n"-separated
      pieces, stripped. */
  function Paras(s: string): seq<string> {
    StrippedNonBlank(Split(s, BlankLine))
  }

  /** What every paragraph is: non-empty, stripped, free of blank lines. */
  predicate GoodPara(p: string) {
    p != [] && IsTrimmed(p) && !Contains(p, BlankLine)
  }

  function ParaAt(ps: seq<string>, i: nat): string {
    if i < |ps| then ps[i] else ""
  }

  /** The non-empty entries of ps, in order. */
  function Present(ps: seq<string>): seq<string> {
    if ps == [] then []
    else Present(ps[..|ps| - 1]) + (if ps[|ps| - 1] != [] then [ps[|ps| - 1]] else [])
  }

  /** The lines of group i: the paragraphs present at position i, in the
      order wenyan, zh, en. */
  function GroupAt(wp: seq<string>, zp: seq<string>, ep: seq<string>, i: nat): seq<string> {
    Present([ParaAt(wp, i), ParaAt(zp, i), ParaAt(ep, i)])
  }

  /** The groups for positions 0..n-1; a position where no language has a
      paragraph contributes no group. */
  function GroupsUpTo(wp: seq<string>, zp: seq<string>, ep: seq<string>, n: nat): seq<string> {
    if n == 0 then []
    else
      var lines := GroupAt(wp, zp, ep, n - 1);
      GroupsUpTo(wp, zp, ep, n - 1) + (if lines != [] then [Join(lines, "\n")] else [])
  }

  /** The file content written for the three texts. */
  function ThreeParallel(wenyan: string, zh: string, en: string): string {
    if wenyan == [] && zh == [] && en == [] then ""
    else
      var wp, zp, ep := Paras(wenyan), Paras(zh), Paras(en);
      Join(GroupsUpTo(wp, zp, ep, Max3(|wp|, |zp|, |ep|)), BlankLine)
  }

  lemma GroupsUpToSnoc(wp: seq<string>, zp: seq<string>, ep: seq<string>, i: nat, lines: seq<string>)
    requires lines == GroupAt(wp, zp, ep, i)
    ensures GroupsUpTo(wp, zp, ep, i + 1)
            == GroupsUpTo(wp, zp, ep, i) + (if lines != [] then [Join(lines, "\n")] else [])
  {
  }

  /** create_three_parallel_content(wenyan, zh, en). */
  method CreateThreeParallelContent(wenyan: string, zh: string, en: string) returns (content: string)
    ensures content == ThreeParallel(wenyan, zh, en)
  {
    if wenyan == [] && zh == [] && en == [] {
      return "";
    }
    var wp, zp, ep := Paras(wenyan), Paras(zh), Paras(en);
    var groups := ParallelGroups(wp, zp, ep);
    content := Join(groups, BlankLine);
  }

  /** The group loop: position by position, the present paragraphs joined
      with "\n". */
  method ParallelGroups(wp: seq<string>, zp: seq<string>, ep: seq<string>) returns (groups: seq<string>)
    ensures groups == GroupsUpTo(wp, zp, ep, Max3(|wp|, |zp|, |ep|))
  {
    var maxParas := Max3(|wp|, |zp|, |ep|);
    groups := [];
    var i := 0;
    while i < maxParas
      invariant i <= maxParas
      invariant groups == GroupsUpTo(wp, zp, ep, i)
    {
      var w := if i < |wp| then wp[i] else "";
      var z := if i < |zp| then zp[i] else "";
      var e := if i < |ep| then ep[i] else "";
      var groupLines: seq<string> := [];
      if w != [] {
        groupLines := groupLines + [w];
      }
      if z != [] {
        groupLines := groupLines + [z];
      }
      if e != [] {
        groupLines := groupLines + [e];
      }
      PresentThree(w, z, e);
      assert groupLines == GroupAt(wp, zp, ep, i);
      GroupsUpToSnoc(wp, zp, ep, i, groupLines);
      if groupLines != [] {
        groups := groups + [Join(groupLines, "\n")];
      }
      i := i + 1;
    }
  }

  lemma {:induction false} StrippedNonBlankGood(pieces: seq<string>)
    requires forall k :: 0 <= k < |pieces| ==> !Contains(pieces[k], BlankLine)
    ensures forall k :: 0 <= k < |StrippedNonBlank(pieces)| ==> GoodPara(StrippedNonBlank(pieces)[k])
  {
    if pieces != [] {
      var last := pieces[|pieces| - 1];
      StrippedNonBlankGood(pieces[..|pieces| - 1]);
      StripShape(last);
      var i, j :| 0 <= i <= j <= |last| && Strip(last) == last[i..j];
      NotContainsSlice(last, BlankLine, i, j);
    }
  }

  /** Every paragraph of a text is non-empty, stripped and holds no blank line. */
  lemma ParasGood(s: string)
    ensures forall k :: 0 <= k < |Paras(s)| ==> GoodPara(Paras(s)[k])
  {
    SplitPiecesAvoidSep(s, BlankLine);
    StrippedNonBlankGood(Split(s, BlankLine));
  }

  /** Below the longest paragraph list every position has a group. */
  lemma {:induction false} GroupsCount(wp: seq<string>, zp: seq<string>, ep: seq<string>, n: nat)
    requires forall k :: 0 <= k < |wp| ==> wp[k] != []
    requires forall k :: 0 <= k < |zp| ==> zp[k] != []
    requires forall k :: 0 <= k < |ep| ==> ep[k] != []
    requires n <= Max3(|wp|, |zp|, |ep|)
    ensures |GroupsUpTo(wp, zp, ep, n)| == n
    ensures forall i :: 0 <= i < n ==> GroupsUpTo(wp, zp, ep, n)[i] == Join(GroupAt(wp, zp, ep, i), "\n")
  {
    if n > 0 {
      GroupsCount(wp, zp, ep, n - 1);
      var prev := GroupsUpTo(wp, zp, ep, n - 1);
      var lines := GroupAt(wp, zp, ep, n - 1);
      var here := [ParaAt(wp, n - 1), ParaAt(zp, n - 1), ParaAt(ep, n - 1)];
      PresentShape(here);
      if n - 1 < |wp| {
        assert here[0] != [];
      } else if n - 1 < |zp| {
        assert here[1] != [];
      } else {
        assert here[2] != [];
      }
      var g := Join(lines, "\n");
      assert GroupsUpTo(wp, zp, ep, n) == prev + [g];
      forall i | 0 <= i < n
        ensures GroupsUpTo(wp, zp, ep, n)[i] == Join(GroupAt(wp, zp, ep, i), "\n")
      {
        if i < n - 1 {
          assert GroupsUpTo(wp, zp, ep, n)[i] == prev[i];
        }
      }
    }
  }

  /** The present entries are non-empty entries of ps; there are none only
      when every entry is empty. */
  lemma {:induction false} PresentShape(ps: seq<string>)
    ensures forall k :: 0 <= k < |Present(ps)| ==> Present(ps)[k] != [] && Present(ps)[k] in ps
    ensures Present(ps) == [] <==> forall k :: 0 <= k < |ps| ==> ps[k] == []
  {
    if ps != [] {
      var init := ps[..|ps| - 1];
      PresentShape(init);
      assert forall k :: 0 <= k < |init| ==> init[k] == ps[k];
    }
  }

  /** Present on three entries, written out. */
  lemma PresentThree(w: string, z: string, e: string)
    ensures Present([w, z, e]) == (if w != [] then [w] else []) + (if z != [] then [z] else []) + (if e != [] then [e] else [])
  {
    assert [w, z, e][..2] == [w, z];
    assert Present([w, z, e]) == Present([w, z]) + (if e != [] then [e] else []);
    assert [w, z][..1] == [w];
    assert Present([w, z]) == Present([w]) + (if z != [] then [z] else []);
    assert [w][..0] == [];
    assert Present([w]) == Present([]) + (if w != [] then [w] else []);
  }

  /** Joining a and b with one newline makes no blank line when neither has
      one and neither has whitespace at the seam. */
  lemma NoBlankAcross(a: string, b: string)
    requires GoodPara(a) && GoodPara(b)
    ensures GoodPara(a + "\n" + b)
  {
    var s := a + "\n" + b;
    forall k | 0 <= k
      ensures !OccursAt(s, BlankLine, k)
    {
      if k + 2 <= |a| {
        assert s[k..k + 2] == a[k..k + 2];
        assert !OccursAt(a, BlankLine, k);
      } else if k == |a| - 1 {
        assert s[k] == a[|a| - 1];
      } else if k == |a| {
        assert s[k + 1] == b[0];
      } else if k + 2 <= |s| {
        assert s[k..k + 2] == b[k - |a| - 1..k - |a| + 1];
        assert !OccursAt(b, BlankLine, k - |a| - 1);
      }
    }
    assert IndexOf(s, BlankLine) == -1;
  }

  /** A group's text is itself a paragraph-like block: no blank line inside. */
  lemma {:induction false} JoinLinesGood(ls: seq<string>)
    requires ls != []
    requires forall k :: 0 <= k < |ls| ==> GoodPara(ls[k])
    ensures GoodPara(Join(ls, "\n"))
  {
    if |ls| >= 2 {
      JoinLinesGood(ls[1..]);
      NoBlankAcross(ls[0], Join(ls[1..], "\n"));
    }
  }

  lemma GroupGood(wp: seq<string>, zp: seq<string>, ep: seq<string>, i: nat)
    requires forall k :: 0 <= k < |wp| ==> GoodPara(wp[k])
    requires forall k :: 0 <= k < |zp| ==> GoodPara(zp[k])
    requires forall k :: 0 <= k < |ep| ==> GoodPara(ep[k])
    requires i < Max3(|wp|, |zp|, |ep|)
    ensures GroupAt(wp, zp, ep, i) != [] && GoodPara(Join(GroupAt(wp, zp, ep, i), "\n"))
  {
    var here := [ParaAt(wp, i), ParaAt(zp, i), ParaAt(ep, i)];
    assert forall k :: 0 <= k < 3 ==> here[k] == [] || GoodPara(here[k]);
    PresentShape(here);
    if i < |wp| {
      assert here[0] != [];
    } else if i < |zp| {
      assert here[1] != [];
    } else {
      assert here[2] != [];
    }
    var lines := Present(here);
    forall k | 0 <= k < |lines|
      ensures GoodPara(lines[k])
    {
      var j :| 0 <= j < 3 && here[j] == lines[k];
    }
    JoinLinesGood(lines);
  }

  /** No group contains a blank line, so the groups are exactly the pieces
      the parser's "\n\n" split will see; there is one group per position up
      to the longest paragraph list. */
  lemma GroupsGood(wp: seq<string>, zp: seq<string>, ep: seq<string>)
    requires forall k :: 0 <= k < |wp| ==> GoodPara(wp[k])
    requires forall k :: 0 <= k < |zp| ==> GoodPara(zp[k])
    requires forall k :: 0 <= k < |ep| ==> GoodPara(ep[k])
    ensures |GroupsUpTo(wp, zp, ep, Max3(|wp|, |zp|, |ep|))| == Max3(|wp|, |zp|, |ep|)
    ensures forall i :: 0 <= i < Max3(|wp|, |zp|, |ep|) ==> GoodPara(GroupsUpTo(wp, zp, ep, Max3(|wp|, |zp|, |ep|))[i])
  {
    var n := Max3(|wp|, |zp|, |ep|);
    GroupsCount(wp, zp, ep, n);
    forall i | 0 <= i < n
      ensures GoodPara(GroupsUpTo(wp, zp, ep, n)[i])
    {
      GroupGood(wp, zp, ep, i);
    }
  }

  /** The written content has one group per position up to the longest
      paragraph list of the three texts, and no group holds a blank line. */
  lemma GroupsHaveNoBlankLine(wenyan: string, zh: string, en: string)
    ensures var wp, zp, ep := Paras(wenyan), Paras(zh), Paras(en);
            var groups := GroupsUpTo(wp, zp, ep, Max3(|wp|, |zp|, |ep|));
            |groups| == Max3(|wp|, |zp|, |ep|)
            && forall i :: 0 <= i < |groups| ==> GoodPara(groups[i])
  {
    ParasGood(wenyan);
    ParasGood(zh);
    ParasGood(en);
    GroupsGood(Paras(wenyan), Paras(zh), Paras(en));
  }

  /** Stripped non-empty single lines come back unchanged from the parser's
      line cleaning. */
  lemma {:induction false} TrimNonBlankClean(ls: seq<string>)
    requires CleanLines(ls)
    ensures TrimNonBlank(ls) == ls
  {
    if ls != [] {
      StripFixesTrimmed(ls[0]);
      TrimNonBlankClean(ls[1..]);
    }
  }

  /** A group written from clean lines is read back as those lines. */
  lemma GroupLinesOfJoin(ls: seq<string>)
    requires ls != [] && CleanLines(ls)
    ensures GroupLines(Join(ls, "\n")) == ls
  {
    forall k | 0 <= k < |ls|
      ensures SeparatesCleanly(ls[k], "\n")
    {
      NoNewlineSeparates(ls[k], "\n");
    }
    SplitJoin(ls, "\n");
    TrimNonBlankClean(ls);
  }

  /** When every group has a line, the parser keeps every group. */
  lemma {:induction false} NonBlankGroupsAll(groups: seq<string>)
    requires forall k :: 0 <= k < |groups| ==> GroupLines(groups[k]) != []
    ensures |NonBlankGroups(groups)| == |groups|
    ensures forall k :: 0 <= k < |groups| ==> NonBlankGroups(groups)[k] == GroupLines(groups[k])
  {
    if groups != [] {
      var init := groups[..|groups| - 1];
      NonBlankGroupsAll(init);
      assert NonBlankGroups(groups) == NonBlankGroups(init) + [GroupLines(groups[|groups| - 1])];
    }
  }

  /** Groups joined with "\n\n" start and end with the groups' own
      non-space characters. */
  lemma {:induction false} JoinGroupsTrimmed(groups: seq<string>)
    requires groups != []
    requires forall k :: 0 <= k < |groups| ==> GoodPara(groups[k])
    ensures Join(groups, BlankLine) != [] && IsTrimmed(Join(groups, BlankLine))
  {
    var g := groups[0];
    assert GoodPara(g);
    if |groups| >= 2 {
      var rest := Join(groups[1..], BlankLine);
      JoinGroupsTrimmed(groups[1..]);
      assert Join(groups, BlankLine) == g + BlankLine + rest;
      assert (g + BlankLine + rest)[0] == g[0];
      assert (g + BlankLine + rest)[|g + BlankLine + rest| - 1] == rest[|rest| - 1];
    }
  }

  /** The parser's grouping of the written content gives the groups back. */
  lemma ContentGroups(groups: seq<string>)
    requires groups != []
    requires forall k :: 0 <= k < |groups| ==> GoodPara(groups[k])
    ensures ParallelText.Groups(Join(groups, BlankLine)) == groups
  {
    var c := Join(groups, BlankLine);
    JoinGroupsTrimmed(groups);
    StripFixesTrimmed(c);
    forall k | 0 <= k < |groups|
      ensures SeparatesCleanly(groups[k], BlankLine)
    {
      BlankLineFollows(groups[k]);
    }
    SplitJoin(groups, BlankLine);
  }

  lemma BlankLineFollows(g: string)
    requires GoodPara(g)
    ensures SeparatesCleanly(g, BlankLine)
  {
    NewlinesSeparateCleanly(g, BlankLine);
  }

  lemma ParsedParagraphs(text: string)
    ensures ParseContent(Some(text)).paragraphs == ParagraphsOf(text)
  {
  }

  /** A paragraph that is also a single line. */
  predicate SingleLine(p: string) {
    '\n' !in p
  }

  /** With the same number of single-line paragraphs in every language,
      group i holds exactly paragraph i of each language. */
  lemma EqualCountGroups(wp: seq<string>, zp: seq<string>, ep: seq<string>, i: nat)
    requires |wp| == |zp| == |ep| && i < |wp|
    requires forall k :: 0 <= k < |wp| ==> GoodPara(wp[k]) && SingleLine(wp[k])
    requires forall k :: 0 <= k < |zp| ==> GoodPara(zp[k]) && SingleLine(zp[k])
    requires forall k :: 0 <= k < |ep| ==> GoodPara(ep[k]) && SingleLine(ep[k])
    ensures GroupAt(wp, zp, ep, i) == [wp[i], zp[i], ep[i]]
    ensures GroupLines(Join(GroupAt(wp, zp, ep, i), "\n")) == [wp[i], zp[i], ep[i]]
  {
    PresentThree(wp[i], zp[i], ep[i]);
    GroupLinesOfJoin([wp[i], zp[i], ep[i]]);
  }

  /** Round trip: when the three texts have the same number of paragraphs
      and every paragraph is one line, the chapter parser reads the written
      content back as exactly those paragraphs, position by position. */
  lemma RoundTrip(wenyan: string, zh: string, en: string)
    requires |Paras(wenyan)| == |Paras(zh)| == |Paras(en)|
    requires forall k :: 0 <= k < |Paras(wenyan)| ==> SingleLine(Paras(wenyan)[k])
    requires forall k :: 0 <= k < |Paras(zh)| ==> SingleLine(Paras(zh)[k])
    requires forall k :: 0 <= k < |Paras(en)| ==> SingleLine(Paras(en)[k])
    ensures var ps := ParseContent(Some(ThreeParallel(wenyan, zh, en))).paragraphs;
            && |ps| == |Paras(wenyan)|
            && forall i :: 0 <= i < |ps| ==> ps[i] == Paragraph(Paras(wenyan)[i], Paras(zh)[i], Paras(en)[i])
  {
    var wp, zp, ep := Paras(wenyan), Paras(zh), Paras(en);
    var content := ThreeParallel(wenyan, zh, en);
    ParasGood(wenyan);
    ParasGood(zh);
    ParasGood(en);
    ParsedParagraphs(content);
    if |wp| == 0 {
      assert content == "";
      ParseContentOfBlank(content);
    } else {
      EqualCountLines(wp, zp, ep);
      var groups := GroupsUpTo(wp, zp, ep, |wp|);
      assert content == Join(groups, BlankLine);
      ParseGroups(groups, wp, zp, ep);
    }
  }

  /** Parsing groups that each read back as one position's three lines. */
  lemma ParseGroups(groups: seq<string>, wp: seq<string>, zp: seq<string>, ep: seq<string>)
    requires |groups| == |wp| == |zp| == |ep| >= 1
    requires forall k :: 0 <= k < |groups| ==> GoodPara(groups[k])
    requires forall k :: 0 <= k < |groups| ==> GroupLines(groups[k]) == [wp[k], zp[k], ep[k]]
    ensures var ps := ParagraphsOf(Join(groups, BlankLine));
            && |ps| == |wp|
            && forall i :: 0 <= i < |ps| ==> ps[i] == Paragraph(wp[i], zp[i], ep[i])
  {
    ContentGroups(groups);
    NonBlankGroupsAll(groups);
    var lines := NonBlankGroups(groups);
    forall i | 0 <= i < |groups|
      ensures AlignAll(lines)[i] == Paragraph(wp[i], zp[i], ep[i])
    {
      AlignAllAt(lines, i);
    }
  }

  /** The groups written for equal counts of single-line paragraphs: one
      per position, each read back as that position's three lines. */
  lemma EqualCountLines(wp: seq<string>, zp: seq<string>, ep: seq<string>)
    requires |wp| == |zp| == |ep|
    requires forall k :: 0 <= k < |wp| ==> GoodPara(wp[k]) && SingleLine(wp[k])
    requires forall k :: 0 <= k < |zp| ==> GoodPara(zp[k]) && SingleLine(zp[k])
    requires forall k :: 0 <= k < |ep| ==> GoodPara(ep[k]) && SingleLine(ep[k])
    ensures var groups := GroupsUpTo(wp, zp, ep, |wp|);
            && |groups| == |wp|
            && (forall k :: 0 <= k < |groups| ==> GoodPara(groups[k]))
            && (forall k :: 0 <= k < |groups| ==> GroupLines(groups[k]) == [wp[k], zp[k], ep[k]])
  {
    var n := |wp|;
    GroupsGood(wp, zp, ep);
    GroupsCount(wp, zp, ep, n);
    forall k | 0 <= k < n
      ensures GroupLines(GroupsUpTo(wp, zp, ep, n)[k]) == [wp[k], zp[k], ep[k]]
    {
      EqualCountGroups(wp, zp, ep, k);
    }
  }

  /** The misalignment of unequal counts: a group without an original line
      is read back with its vernacular line in the original's place and its
      English line in the vernacular's place. */
  lemma MissingOriginalShifts(zh: string, en: string)
    requires GoodPara(zh) && SingleLine(zh) && GoodPara(en) && SingleLine(en)
    ensures Align(GroupLines(Join(Present(["", zh, en]), "\n"))) == Paragraph(zh, en, "")
  {
    PresentThree("", zh, en);
    GroupLinesOfJoin([zh, en]);
  }
}
