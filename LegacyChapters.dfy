/** The older single-language chapter files (wenyan.txt, zh.txt, en.txt in a
    book directory): chapters start at lines beginning with "## ", and the
    three languages are merged chapter by chapter into one book. */
module LegacyChapters {
  import opened Text
  import opened Corpus

  /** One chapter of a single-language file. */
  datatype Section = Section(title: string, content: string)

  /** The scanner's state after some lines: the chapters already emitted,
      the title of the open chapter and its body lines so far. */
  datatype ScanState = ScanState(done: seq<Section>, title: string, body: seq<string>)

  const HeaderMark: string := "## "

  predicate IsHeader(line: string) {
    StartsWith(line, HeaderMark)
  }

  /** The title a header line announces. */
  function HeaderTitle(line: string): string
    requires IsHeader(line)
  {
    Strip(line[|HeaderMark|..])
  }

  /** Closing the open chapter: it is emitted only when it has a title or at
      least one body line. */
  function Flush(title: string, body: seq<string>): seq<Section> {
    if body != [] || title != [] then [Section(Strip(title), Strip(Join(body, "\n")))] else []
  }

  /** One line of the scan: a header closes the open chapter and opens a new
      one; any other line joins the open chapter's body. */
  function Step(st: ScanState, line: string): ScanState {
    if IsHeader(line) then ScanState(st.done + Flush(st.title, st.body), HeaderTitle(line), [])
    else ScanState(st.done, st.title, st.body + [line])
  }

  /** The scan over the lines, one line at a time. */
  function Scan(lines: seq<string>): ScanState {
    if lines == [] then ScanState([], "", [])
    else Step(Scan(lines[..|lines| - 1]), lines[|lines| - 1])
  }

  /** The chapters the scan yields once the last chapter is closed. */
  function ParseLines(lines: seq<string>): seq<Section> {
    var st := Scan(lines);
    st.done + Flush(st.title, st.body)
  }

  /** parse_chapters_from_text(text): never empty; when the scan yields
      nothing the whole stripped text is one untitled chapter. */
  function Sections(text: string): (r: seq<Section>)
    ensures |r| >= 1
  {
    var chs := ParseLines(SplitLines(text));
    if chs == [] then [Section("", Strip(text))] else chs
  }

  lemma ScanSnoc(lines: seq<string>, i: nat)
    requires i < |lines|
    ensures Scan(lines[..i + 1]) == Step(Scan(lines[..i]), lines[i])
  {
    assert lines[..i + 1][..i] == lines[..i];
  }

  /** The line loop with its three pieces of state. */
  method ScanLines(lines: seq<string>) returns (chapters: seq<Section>, curTitle: string, curLines: seq<string>)
    ensures Scan(lines) == ScanState(chapters, curTitle, curLines)
  {
    chapters := [];
    curTitle := "";
    curLines := [];
    var i := 0;
    while i < |lines|
      invariant i <= |lines|
      invariant Scan(lines[..i]) == ScanState(chapters, curTitle, curLines)
    {
      var line := lines[i];
      ghost var before := ScanState(chapters, curTitle, curLines);
      if StartsWith(line, "## ") {
        if curLines != [] || curTitle != [] {
          chapters := chapters + [Section(Strip(curTitle), Strip(Join(curLines, "\n")))];
        }
        assert chapters == before.done + Flush(before.title, before.body);
        curTitle := Strip(line[3..]);
        curLines := [];
      } else {
        curLines := curLines + [line];
      }
      assert ScanState(chapters, curTitle, curLines) == Step(before, line);
      ScanSnoc(lines, i);
      i := i + 1;
    }
    assert lines[..i] == lines;
  }

  /** The whole parser: the scan, the last chapter closed, and the
      whole-text fallback. */
  method SplitChapters(text: string) returns (chapters: seq<Section>)
    ensures chapters == Sections(text)
  {
    var curTitle, curLines;
    chapters, curTitle, curLines := ScanLines(SplitLines(text));
    if curLines != [] || curTitle != [] {
      chapters := chapters + [Section(Strip(curTitle), Strip(Join(curLines, "\n")))];
    }
    if chapters == [] {
      chapters := [Section("", Strip(text))];
    }
  }

  /** A header line with a blank title. */
  predicate BlankHeader(line: string) {
    IsHeader(line) && HeaderTitle(line) == []
  }

  /** Every line is a header with a blank title. */
  predicate OnlyBlankHeaders(lines: seq<string>) {
    forall k :: 0 <= k < |lines| ==> BlankHeader(lines[k])
  }

  lemma {:induction false} ScanBlank(lines: seq<string>)
    ensures Scan(lines) == ScanState([], "", []) <==> OnlyBlankHeaders(lines)
  {
    if lines != [] {
      var init := lines[..|lines| - 1];
      var last := lines[|lines| - 1];
      ScanBlank(init);
      StepEmpty(Scan(init), last);
      assert OnlyBlankHeaders(lines) <==> OnlyBlankHeaders(init) && BlankHeader(last) by {
        assert lines == init + [last];
      }
    }
  }

  lemma StepEmpty(st: ScanState, line: string)
    ensures Step(st, line) == ScanState([], "", []) <==> st == ScanState([], "", []) && BlankHeader(line)
  {
  }

  /** The scan yields no chapter exactly when every line is a header with a
      blank title (or there are no lines); only then does the whole-text
      fallback apply. */
  lemma ParseLinesEmpty(lines: seq<string>)
    ensures ParseLines(lines) == [] <==> OnlyBlankHeaders(lines)
  {
    ScanBlank(lines);
  }

  lemma {:induction false} ScanNoHeader(lines: seq<string>)
    requires forall k :: 0 <= k < |lines| ==> !IsHeader(lines[k])
    ensures Scan(lines) == ScanState([], "", lines)
  {
    if lines != [] {
      ScanNoHeader(lines[..|lines| - 1]);
      assert lines[..|lines| - 1] + [lines[|lines| - 1]] == lines;
    }
  }

  /** Without any header line the text is a single untitled chapter holding
      all its lines, joined with "\n" and stripped. */
  lemma NoHeaderSingle(text: string)
    requires forall k :: 0 <= k < |SplitLines(text)| ==> !IsHeader(SplitLines(text)[k])
    ensures Sections(text) == [Section("", Strip(Join(SplitLines(text), "\n")))]
  {
    var lines := SplitLines(text);
    ScanNoHeader(lines);
    if lines == [] {
      assert text == [];
    } else {
      assert Strip("") == "";
    }
  }

  predicate AllTrimmed(ss: seq<Section>) {
    forall k :: 0 <= k < |ss| ==> IsTrimmed(ss[k].title) && IsTrimmed(ss[k].content)
  }

  lemma FlushTrimmed(title: string, body: seq<string>)
    ensures AllTrimmed(Flush(title, body))
  {
    StripShape(title);
    StripShape(Join(body, "\n"));
  }

  lemma {:induction false} ScanTrimmed(lines: seq<string>)
    ensures AllTrimmed(Scan(lines).done)
  {
    if lines != [] {
      var st := Scan(lines[..|lines| - 1]);
      ScanTrimmed(lines[..|lines| - 1]);
      FlushTrimmed(st.title, st.body);
    }
  }

  /** Every chapter's title and content are stripped. */
  lemma SectionsTrimmed(text: string)
    ensures AllTrimmed(Sections(text))
  {
    var st := Scan(SplitLines(text));
    ScanTrimmed(SplitLines(text));
    FlushTrimmed(st.title, st.body);
    StripShape(text);
  }

  /** A chapter that writing out and reading back keeps: a non-blank trimmed
      title and trimmed content none of whose lines looks like a header. */
  predicate Writable(s: Section) {
    && s.title != [] && IsTrimmed(s.title) && IsTrimmed(s.content)
    && forall k :: 0 <= k < |Split(s.content, "\n")| ==> !IsHeader(Split(s.content, "\n")[k])
  }

  /** The lines of a chapter file: for each chapter its header line, then its
      content line by line. */
  function FormatLines(ss: seq<Section>): seq<string> {
    if ss == [] then []
    else
      var s := ss[|ss| - 1];
      FormatLines(ss[..|ss| - 1]) + ["## " + s.title] + Split(s.content, "\n")
  }

  lemma {:induction false} ScanBody(prefix: seq<string>, body: seq<string>)
    requires forall k :: 0 <= k < |body| ==> !IsHeader(body[k])
    ensures var st := Scan(prefix);
            Scan(prefix + body) == ScanState(st.done, st.title, st.body + body)
  {
    if body == [] {
      assert prefix + body == prefix;
    } else {
      var init := body[..|body| - 1];
      var last := body[|body| - 1];
      ScanBody(prefix, init);
      SnocConcat(prefix, body);
      SnocConcat(Scan(prefix).body, body);
      assert Scan(prefix + body) == Step(Scan(prefix + init), last);
    }
  }

  lemma ScanHeader(prefix: seq<string>, title: string)
    requires IsTrimmed(title)
    ensures var st := Scan(prefix);
            Scan(prefix + ["## " + title]) == ScanState(st.done + Flush(st.title, st.body), title, [])
  {
    assert (prefix + ["## " + title])[..|prefix|] == prefix;
    assert ("## " + title)[3..] == title;
    StripFixesTrimmed(title);
  }

  lemma FlushWritable(s: Section)
    requires Writable(s)
    ensures Flush(s.title, Split(s.content, "\n")) == [s]
  {
    JoinSplit(s.content, "\n");
    StripFixesTrimmed(s.title);
    StripFixesTrimmed(s.content);
  }

  lemma {:induction false} ScanFormat(ss: seq<Section>)
    requires ss != []
    requires forall k :: 0 <= k < |ss| ==> Writable(ss[k])
    ensures var s := ss[|ss| - 1];
            Scan(FormatLines(ss)) == ScanState(ss[..|ss| - 1], s.title, Split(s.content, "\n"))
    decreases |ss|, 1
  {
    var s := ss[|ss| - 1];
    var prefix := FormatLines(ss[..|ss| - 1]);
    ScanToHeader(ss);
    assert FormatLines(ss) == prefix + ["## " + s.title] + Split(s.content, "\n");
    ScanBody(prefix + ["## " + s.title], Split(s.content, "\n"));
  }

  /** Scanning up to the last chapter's header has closed every earlier
      chapter. */
  lemma {:induction false} ScanToHeader(ss: seq<Section>)
    requires ss != []
    requires forall k :: 0 <= k < |ss| ==> Writable(ss[k])
    ensures var s := ss[|ss| - 1];
            Scan(FormatLines(ss[..|ss| - 1]) + ["## " + s.title]) == ScanState(ss[..|ss| - 1], s.title, [])
    decreases |ss|, 0
  {
    var init := ss[..|ss| - 1];
    var s := ss[|ss| - 1];
    var prefix := FormatLines(init);
    ScanHeader(prefix, s.title);
    if init == [] {
      assert Scan(prefix) == ScanState([], "", []);
    } else {
      ScanFormat(init);
      FlushWritable(init[|init| - 1]);
      ButLast(init);
    }
  }

  /** Writing chapters out as header and content lines and scanning them
      back gives the same chapters. */
  lemma FormatRoundTrip(ss: seq<Section>)
    requires forall k :: 0 <= k < |ss| ==> Writable(ss[k])
    ensures ParseLines(FormatLines(ss)) == ss
  {
    if ss != [] {
      ScanFormat(ss);
      FlushWritable(ss[|ss| - 1]);
      ButLast(ss);
    }
  }

  /** The number of merged chapters: the shortest language when all three
      have chapters, else the longest. */
  function MergedCount(w: seq<Section>, z: seq<Section>, e: seq<Section>): nat {
    if w != [] && z != [] && e != [] then Min3(|w|, |z|, |e|) else Max3(|w|, |z|, |e|)
  }

  function ContentAt(ss: seq<Section>, i: nat): string {
    if i < |ss| then ss[i].content else ""
  }

  function TitleAt(ss: seq<Section>, i: nat): string {
    if i < |ss| then ss[i].title else ""
  }

  /** The numbered title used when no language names chapter i. */
  function FallbackTitle(i: nat): (r: string)
    ensures r != []
  {
    "第" + NatToString(i + 1) + "章"
  }

  /** Chapter i's title: the first non-blank of the three languages' titles,
      in the order wenyan, zh, en; else the numbered fallback. Never empty. */
  function MergedTitle(w: seq<Section>, z: seq<Section>, e: seq<Section>, i: nat): (r: string)
    ensures r != []
    ensures r == TitleAt(w, i) || r == TitleAt(z, i) || r == TitleAt(e, i) || r == FallbackTitle(i)
  {
    if TitleAt(w, i) != [] then TitleAt(w, i)
    else if TitleAt(z, i) != [] then TitleAt(z, i)
    else if TitleAt(e, i) != [] then TitleAt(e, i)
    else FallbackTitle(i)
  }

  /** Chapter i of the merge, numbered from one; a language without a
      chapter i contributes "". */
  predicate MergedAt(w: seq<Section>, z: seq<Section>, e: seq<Section>, i: nat, ch: Chapter) {
    && ch.id == i + 1 && ch.title == MergedTitle(w, z, e, i)
    && ch.wenyan == ContentAt(w, i) && ch.zh == ContentAt(z, i) && ch.en == ContentAt(e, i)
    && ch.paragraphs == []
  }

  /** The merge loop of the static builder. */
  method MergeLegacy(w: seq<Section>, z: seq<Section>, e: seq<Section>) returns (chapters: seq<Chapter>)
    ensures |chapters| == MergedCount(w, z, e)
    ensures forall i :: 0 <= i < |chapters| ==> MergedAt(w, z, e, i, chapters[i])
  {
    var n := if w != [] && z != [] && e != [] then Min3(|w|, |z|, |e|) else Max3(|w|, |z|, |e|);
    chapters := [];
    var i := 0;
    while i < n
      invariant i <= n
      invariant |chapters| == i
      invariant forall k :: 0 <= k < i ==> MergedAt(w, z, e, k, chapters[k])
    {
      var wc := if i < |w| then w[i].content else "";
      var zc := if i < |z| then z[i].content else "";
      var ec := if i < |e| then e[i].content else "";
      var title := if i < |w| then w[i].title else "";
      if title == [] {
        title := if i < |z| then z[i].title else "";
      }
      if title == [] {
        title := if i < |e| then e[i].title else "";
      }
      if title == [] {
        title := "第" + NatToString(i + 1) + "章";
      }
      chapters := chapters + [Chapter(i + 1, title, wc, zc, ec, [])];
      i := i + 1;
    }
  }

  /** A legacy book directory (wenyan.txt, zh.txt, en.txt; a missing file
      reads as ""): each text is split into chapters, the chapters are
      merged, and the book gets the directory name as id and title and a
      single category "default" titled "章节". A chapter's title is the first
      non-empty one of the three languages, else 第N章, and legacy chapters
      carry no paragraphs. Because a split never yields
      nothing, the merge always takes the shortest language's count, and
      every chapter holds each language's chapter at the same position. */
  method LoadLegacyBook(bookId: string, wenyanText: string, zhText: string, enText: string) returns (book: Book)
    ensures book.id == bookId && book.title == bookId
    ensures |book.categories| == 1
    ensures book.categories[0].id == "default" && book.categories[0].title == "章节"
    ensures var w, z, e := Sections(wenyanText), Sections(zhText), Sections(enText);
            var chs := book.categories[0].chapters;
            && |chs| == Min3(|w|, |z|, |e|)
            && forall i :: 0 <= i < |chs| ==>
                 && chs[i].id == i + 1 && chs[i].title == MergedTitle(w, z, e, i) && chs[i].title != []
                 && chs[i].wenyan == w[i].content && chs[i].zh == z[i].content && chs[i].en == e[i].content
                 && chs[i].paragraphs == []
  {
    var w := SplitChapters(wenyanText);
    var z := SplitChapters(zhText);
    var e := SplitChapters(enText);
    var chapters := MergeLegacy(w, z, e);
    book := Book(bookId, bookId, [Category("default", "章节", chapters)]);
  }

  lemma ButLast<T>(s: seq<T>)
    requires s != []
    ensures s[..|s| - 1] + [s[|s| - 1]] == s
  {
  }

  lemma SnocConcat<T>(a: seq<T>, b: seq<T>)
    requires b != []
    ensures (a + b)[..|a + b| - 1] == a + b[..|b| - 1]
    ensures a + b == a + b[..|b| - 1] + [b[|b| - 1]]
  {
    assert b == b[..|b| - 1] + [b[|b| - 1]];
  }
}
