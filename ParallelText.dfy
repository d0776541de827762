/** The three-parallel text format: paragraph groups separated by "\n\n",
    each group one to three lines (classical original, vernacular, English).
    `ParseThreeParallelFile` is the server's parser, `ParseThreeParallelStatic`
    the static builder's copy, which returns only the three joined strings. */
module ParallelText {
  import opened Text
  import opened Corpus

  /** What the parser returns for one chapter file. */
  datatype ParsedFile = ParsedFile(wenyan: string, zh: string, en: string, paragraphs: seq<Paragraph>)

  const EmptyFile := ParsedFile("", "", "", [])

  /** Separator between paragraph groups and between joined paragraphs. */
  const BlankLine := "\n\n"

  /** The lines of a group that are not blank, each stripped:
      `[line.strip() for line in lines if line.strip()]`. */
  function TrimNonBlank(lines: seq<string>): (r: seq<string>)
    ensures |r| <= |lines|
    ensures forall k :: 0 <= k < |r| ==> r[k] != [] && IsTrimmed(r[k])
  {
    if lines == [] then []
    else
      StripShape(lines[0]);
      (if IsBlank(lines[0]) then [] else [Strip(lines[0])]) + TrimNonBlank(lines[1..])
  }

  /** A line as the parser keeps it: non-empty, stripped, one line. */
  predicate CleanLine(s: string) {
    s != [] && IsTrimmed(s) && '\n' !in s
  }

  predicate CleanLines(lines: seq<string>) {
    forall j :: 0 <= j < |lines| ==> CleanLine(lines[j])
  }

  /** The non-blank, stripped lines of one paragraph group. */
  function GroupLines(group: string): (r: seq<string>)
    ensures CleanLines(r)
  {
    var pieces := Split(group, "\n");
    SplitPiecesAvoidSep(group, "\n");
    forall k | 0 <= k < |pieces| ensures '\n' !in pieces[k] {
      ContainsChar(pieces[k], '\n');
    }
    TrimNonBlankKeepsNoNewline(pieces);
    TrimNonBlank(pieces)
  }

  lemma {:induction false} TrimNonBlankKeepsNoNewline(lines: seq<string>)
    requires forall k :: 0 <= k < |lines| ==> '\n' !in lines[k]
    ensures forall k :: 0 <= k < |TrimNonBlank(lines)| ==> '\n' !in TrimNonBlank(lines)[k]
  {
    if lines != [] {
      StripShape(lines[0]);
      TrimNonBlankKeepsNoNewline(lines[1..]);
    }
  }

  /** The alignment policy: line 1 is the original, line 2 the vernacular,
      line 3 the English; missing lines become "" and lines past the third
      are dropped. The parser aligns only groups with at least one line; an
      empty list would give an all-empty paragraph. */
  function Align(lines: seq<string>): Paragraph
  {
    if |lines| >= 3 then Paragraph(lines[0], lines[1], lines[2])
    else if |lines| == 2 then Paragraph(lines[0], lines[1], "")
    else if |lines| == 1 then Paragraph(lines[0], "", "")
    else Paragraph("", "", "")
  }

  /** The line lists of the groups that have at least one non-blank line, in
      group order. */
  function NonBlankGroups(groups: seq<string>): (r: seq<seq<string>>)
    ensures |r| <= |groups|
  {
    if groups == [] then []
    else
      var lines := GroupLines(groups[|groups| - 1]);
      NonBlankGroups(groups[..|groups| - 1]) + (if lines == [] then [] else [lines])
  }

  /** The aligned paragraph of every group, in order. */
  function AlignAll(groups: seq<seq<string>>): (r: seq<Paragraph>)
    ensures |r| == |groups|
  {
    if groups == [] then [] else AlignAll(groups[..|groups| - 1]) + [Align(groups[|groups| - 1])]
  }

  /** The original-language column of a list of paragraphs. */
  function Wenyans(ps: seq<Paragraph>): (r: seq<string>)
    ensures |r| == |ps|
  {
    if ps == [] then [] else Wenyans(ps[..|ps| - 1]) + [ps[|ps| - 1].wenyan]
  }

  /** The vernacular column of a list of paragraphs. */
  function Zhs(ps: seq<Paragraph>): (r: seq<string>)
    ensures |r| == |ps|
  {
    if ps == [] then [] else Zhs(ps[..|ps| - 1]) + [ps[|ps| - 1].zh]
  }

  /** The English column of a list of paragraphs. */
  function Ens(ps: seq<Paragraph>): (r: seq<string>)
    ensures |r| == |ps|
  {
    if ps == [] then [] else Ens(ps[..|ps| - 1]) + [ps[|ps| - 1].en]
  }

  lemma {:induction false} AlignAllAt(groups: seq<seq<string>>, k: nat)
    requires k < |groups|
    ensures AlignAll(groups)[k] == Align(groups[k])
  {
    if k < |groups| - 1 {
      AlignAllAt(groups[..|groups| - 1], k);
    }
  }

  lemma {:induction false} ColumnsAt(ps: seq<Paragraph>, k: nat)
    requires k < |ps|
    ensures Wenyans(ps)[k] == ps[k].wenyan
    ensures Zhs(ps)[k] == ps[k].zh
    ensures Ens(ps)[k] == ps[k].en
  {
    if k < |ps| - 1 {
      ColumnsAt(ps[..|ps| - 1], k);
    }
  }

  /** Every kept group has at least one line, and every line is clean. */
  lemma {:induction false} NonBlankGroupsClean(groups: seq<string>)
    ensures forall k :: 0 <= k < |NonBlankGroups(groups)| ==>
      |NonBlankGroups(groups)[k]| >= 1 && CleanLines(NonBlankGroups(groups)[k])
  {
    if groups != [] {
      NonBlankGroupsClean(groups[..|groups| - 1]);
    }
  }

  lemma NonBlankGroupsStep(groups: seq<string>, i: nat)
    requires i < |groups|
    ensures NonBlankGroups(groups[..i + 1]) == NonBlankGroups(groups[..i])
      + (if GroupLines(groups[i]) == [] then [] else [GroupLines(groups[i])])
  {
    assert groups[..i + 1][..i] == groups[..i];
  }

  /** One step of the parser loop: a group with lines adds its aligned
      paragraph (and that paragraph's fields to the columns); a blank group
      adds nothing. */
  lemma ParseStep(groups: seq<string>, i: nat)
    requires i < |groups|
    ensures var ps := AlignAll(NonBlankGroups(groups[..i]));
            var ps' := AlignAll(NonBlankGroups(groups[..i + 1]));
            var lines := GroupLines(groups[i]);
            && (lines == [] ==> ps' == ps)
            && (lines != [] ==>
                  && ps' == ps + [Align(lines)]
                  && Wenyans(ps') == Wenyans(ps) + [Align(lines).wenyan]
                  && Zhs(ps') == Zhs(ps) + [Align(lines).zh]
                  && Ens(ps') == Ens(ps) + [Align(lines).en])
  {
    NonBlankGroupsStep(groups, i);
    var lines := GroupLines(groups[i]);
    var gs := NonBlankGroups(groups[..i]);
    if lines == [] {
      assert gs + [] == gs;
    } else {
      AlignAllSnoc(gs, lines);
      ColumnsSnoc(AlignAll(gs), Align(lines));
    }
  }

  lemma AlignAllSnoc(groups: seq<seq<string>>, lines: seq<string>)
    ensures AlignAll(groups + [lines]) == AlignAll(groups) + [Align(lines)]
  {
    assert (groups + [lines])[..|groups|] == groups;
  }

  lemma ColumnsSnoc(ps: seq<Paragraph>, p: Paragraph)
    ensures Wenyans(ps + [p]) == Wenyans(ps) + [p.wenyan]
    ensures Zhs(ps + [p]) == Zhs(ps) + [p.zh]
    ensures Ens(ps + [p]) == Ens(ps) + [p.en]
  {
    assert (ps + [p])[..|ps|] == ps;
  }

  /** The paragraph groups of file content: the stripped content cut at each
      "\n\n" (no groups for blank content). */
  function Groups(content: string): seq<string>
  {
    var c := Strip(content);
    if c == [] then [] else Split(c, BlankLine)
  }

  /** The paragraphs of file content: one per non-blank group, aligned. */
  function ParagraphsOf(content: string): seq<Paragraph>
  {
    AlignAll(NonBlankGroups(Groups(content)))
  }

  /** What the alignment policy guarantees of every parsed paragraph: a
      non-empty original, three stripped single-line fields, and an English
      line only where there is a vernacular one. */
  predicate WellFormed(p: Paragraph) {
    && p.wenyan != [] && IsTrimmed(p.wenyan) && IsTrimmed(p.zh) && IsTrimmed(p.en)
    && '\n' !in p.wenyan && '\n' !in p.zh && '\n' !in p.en
    && (p.en != [] ==> p.zh != [])
  }

  lemma AlignWellFormed(lines: seq<string>)
    requires |lines| >= 1 && CleanLines(lines)
    ensures WellFormed(Align(lines))
  {
  }

  lemma ParagraphsWellFormed(text: string)
    ensures forall k :: 0 <= k < |ParagraphsOf(text)| ==> WellFormed(ParagraphsOf(text)[k])
  {
    var groups := NonBlankGroups(Groups(text));
    NonBlankGroupsClean(Groups(text));
    forall k | 0 <= k < |groups|
      ensures WellFormed(AlignAll(groups)[k])
    {
      AlignAllAt(groups, k);
      AlignWellFormed(groups[k]);
    }
  }

  /** The parse of a chapter file; None stands for a file that is missing. */
  function ParseContent(content: Option<string>): (r: ParsedFile)
  {
    match content
    case None => EmptyFile
    case Some(text) =>
      var ps := ParagraphsOf(text);
      ParsedFile(Join(Wenyans(ps), BlankLine), Join(Zhs(ps), BlankLine), Join(Ens(ps), BlankLine), ps)
  }

  /** Every paragraph the parser yields is well formed. */
  lemma ParseContentWellFormed(content: Option<string>)
    ensures forall k :: 0 <= k < |ParseContent(content).paragraphs| ==> WellFormed(ParseContent(content).paragraphs[k])
  {
    if content.Some? {
      ParagraphsWellFormed(content.value);
    }
  }

  lemma ParseContentOfBlank(text: string)
    requires Strip(text) == []
    ensures ParseContent(Some(text)) == EmptyFile
  {
  }

  lemma ParseContentOfGroups(text: string, ps: seq<Paragraph>)
    requires Strip(text) != []
    requires ps == AlignAll(NonBlankGroups(Split(Strip(text), BlankLine)))
    ensures ParseContent(Some(text)) == ParsedFile(Join(Wenyans(ps), BlankLine), Join(Zhs(ps), BlankLine), Join(Ens(ps), BlankLine), ps)
  {
  }

  /** Each joined column splits back, at "\n\n", into exactly that column of
      the paragraphs: an empty field still holds its place. */
  lemma {:induction false} ColumnsSplitBack(content: Option<string>)
    requires ParseContent(content).paragraphs != []
    ensures Split(ParseContent(content).wenyan, BlankLine) == Wenyans(ParseContent(content).paragraphs)
    ensures Split(ParseContent(content).zh, BlankLine) == Zhs(ParseContent(content).paragraphs)
    ensures Split(ParseContent(content).en, BlankLine) == Ens(ParseContent(content).paragraphs)
  {
    var r := ParseContent(content);
    var ps := r.paragraphs;
    ParseContentWellFormed(content);
    assert r.wenyan == Join(Wenyans(ps), BlankLine);
    assert r.zh == Join(Zhs(ps), BlankLine);
    assert r.en == Join(Ens(ps), BlankLine);
    forall k | 0 <= k < |ps|
      ensures '\n' !in Wenyans(ps)[k] && '\n' !in Zhs(ps)[k] && '\n' !in Ens(ps)[k]
    {
      ColumnsAt(ps, k);
      assert WellFormed(ps[k]);
    }
    LinesSplitBack(Wenyans(ps));
    LinesSplitBack(Zhs(ps));
    LinesSplitBack(Ens(ps));
  }

  /** Single-line pieces joined with "\n\n" split back into the same pieces. */
  lemma LinesSplitBack(col: seq<string>)
    requires |col| >= 1
    requires forall k :: 0 <= k < |col| ==> '\n' !in col[k]
    ensures Split(Join(col, BlankLine), BlankLine) == col
  {
    forall k | 0 <= k < |col|
      ensures SeparatesCleanly(col[k], BlankLine)
    {
      NoNewlineSeparates(col[k], BlankLine);
    }
    SplitJoin(col, BlankLine);
  }

  /** app.py's parser loop: walk the groups, align each, and collect the
      three language columns and the paragraph records. */
  method CollectGroups(groups: seq<string>)
    returns (wenyanParts: seq<string>, zhParts: seq<string>, enParts: seq<string>, paragraphs: seq<Paragraph>)
    ensures paragraphs == AlignAll(NonBlankGroups(groups))
    ensures wenyanParts == Wenyans(paragraphs)
    ensures zhParts == Zhs(paragraphs)
    ensures enParts == Ens(paragraphs)
  {
    wenyanParts, zhParts, enParts, paragraphs := [], [], [], [];
    var i := 0;
    while i < |groups|
      invariant 0 <= i <= |groups|
      invariant paragraphs == AlignAll(NonBlankGroups(groups[..i]))
      invariant wenyanParts == Wenyans(paragraphs)
      invariant zhParts == Zhs(paragraphs)
      invariant enParts == Ens(paragraphs)
    {
      ParseStep(groups, i);
      var lines := GroupLines(groups[i]);
      if |lines| >= 1 {
        // the three branches of the source differ only in which fields they fill
        var wenyan, zh, en;
        if |lines| >= 3 {
          wenyan, zh, en := lines[0], lines[1], lines[2];
        } else if |lines| == 2 {
          wenyan, zh, en := lines[0], lines[1], "";
        } else {
          wenyan, zh, en := lines[0], "", "";
        }
        wenyanParts, zhParts, enParts := wenyanParts + [wenyan], zhParts + [zh], enParts + [en];
        paragraphs := paragraphs + [Paragraph(wenyan, zh, en)];
      }
      i := i + 1;
    }
    assert groups[..|groups|] == groups;
  }

  /** app.py's parser: a missing or blank file yields nothing; otherwise the
      groups between blank lines are collected and each column joined. */
  method ParseThreeParallelFile(file: Option<string>) returns (r: ParsedFile)
    ensures r == ParseContent(file)
  {
    if file.None? {
      return EmptyFile;
    }
    var content := Strip(file.value);
    if content == [] {
      ParseContentOfBlank(file.value);
      return EmptyFile;
    }
    var wenyanParts, zhParts, enParts, paragraphs := CollectGroups(Split(content, BlankLine));
    ParseContentOfGroups(file.value, paragraphs);
    r := ParsedFile(Join(wenyanParts, BlankLine), Join(zhParts, BlankLine), Join(enParts, BlankLine), paragraphs);
  }

  /** build_static.py's parser loop, which keeps only the three column lists. */
  method CollectColumns(groups: seq<string>) returns (wenyanParts: seq<string>, zhParts: seq<string>, enParts: seq<string>)
    ensures wenyanParts == Wenyans(AlignAll(NonBlankGroups(groups)))
    ensures zhParts == Zhs(AlignAll(NonBlankGroups(groups)))
    ensures enParts == Ens(AlignAll(NonBlankGroups(groups)))
  {
    wenyanParts, zhParts, enParts := [], [], [];
    ghost var paragraphs: seq<Paragraph> := [];
    var i := 0;
    while i < |groups|
      invariant 0 <= i <= |groups|
      invariant paragraphs == AlignAll(NonBlankGroups(groups[..i]))
      invariant wenyanParts == Wenyans(paragraphs)
      invariant zhParts == Zhs(paragraphs)
      invariant enParts == Ens(paragraphs)
    {
      ParseStep(groups, i);
      var lines := GroupLines(groups[i]);
      if |lines| >= 1 {
        var wenyan, zh, en;
        if |lines| >= 3 {
          wenyan, zh, en := lines[0], lines[1], lines[2];
        } else if |lines| == 2 {
          wenyan, zh, en := lines[0], lines[1], "";
        } else {
          wenyan, zh, en := lines[0], "", "";
        }
        wenyanParts, zhParts, enParts := wenyanParts + [wenyan], zhParts + [zh], enParts + [en];
        paragraphs := paragraphs + [Paragraph(wenyan, zh, en)];
      }
      i := i + 1;
    }
    assert groups[..|groups|] == groups;
  }

  /** build_static.py's copy of the parser; it yields the same strings as
      app.py's parser. */
  method ParseThreeParallelStatic(file: Option<string>) returns (wenyan: string, zh: string, en: string)
    ensures wenyan == ParseContent(file).wenyan
    ensures zh == ParseContent(file).zh
    ensures en == ParseContent(file).en
  {
    if file.None? {
      return "", "", "";
    }
    var content := Strip(file.value);
    if content == [] {
      return "", "", "";
    }
    var wenyanParts, zhParts, enParts := CollectColumns(Split(content, BlankLine));
    ParseContentOfGroups(file.value, AlignAll(NonBlankGroups(Split(content, BlankLine))));
    wenyan, zh, en := Join(wenyanParts, BlankLine), Join(zhParts, BlankLine), Join(enParts, BlankLine);
  }
}
