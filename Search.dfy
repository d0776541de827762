/** search_in_books: case-insensitive substring search over chapter titles and
    the three language fields of every paragraph, one result per matching
    chapter, ranked by the number of matches. */
module Search {
  import opened Text
  import opened Corpus
  import opened Highlight

  /** The language labels of content matches: 'wenyan', 'baihua', 'english'. */
  datatype Language = Wenyan | Baihua | English

  datatype Match =
    | TitleMatch(content: string, highlight: string)
    | ContentMatch(language: Language, paragraphId: nat, content: string, highlight: string,
                   fullParagraph: Paragraph)

  datatype SearchResult = SearchResult(book: Book, category: Category, chapter: Chapter,
                                       matches: seq<Match>, relevanceScore: nat)

  /** The languages in the order the source visits them. */
  const Languages: seq<Language> := [Wenyan, Baihua, English]

  function LangRank(l: Language): nat {
    match l
    case Wenyan => 0
    case Baihua => 1
    case English => 2
  }

  /** The paragraph field searched for a language ('baihua' reads `zh`). */
  function LangText(p: Paragraph, l: Language): string {
    match l
    case Wenyan => p.wenyan
    case Baihua => p.zh
    case English => p.en
  }

  /** `query.lower().strip()`. */
  function QueryKey(query: string): (key: string)
    ensures |key| <= |query|
  {
    Strip(Lower(query))
  }

  predicate SearchesTitles(scope: string) {
    scope == "all" || scope == "title"
  }

  predicate SearchesContent(scope: string) {
    scope == "all" || scope == "content"
  }

  /** An absent or empty book filter lets every book through. */
  predicate PassesFilter(filter: Option<string>, book: Book) {
    filter.None? || filter.value == "" || book.id == filter.value
  }

  /** The context window around the first occurrence p of the key in the
      lowered text: from max(0, p - 50) to min(len, p + len(query) + 50),
      measured with the length of the raw query. */
  function ContextBounds(text: string, query: string, key: string): (b: (nat, nat))
    requires Contains(Lower(text), key)
    ensures b.0 <= IndexOf(Lower(text), key) <= b.1 <= |text|
    ensures b.1 - b.0 <= |query| + 100
  {
    var p := IndexOf(Lower(text), key);
    (if p - 50 > 0 then p - 50 else 0, if |text| < p + |query| + 50 then |text| else p + |query| + 50)
  }

  function Context(text: string, query: string, key: string): string
    requires Contains(Lower(text), key)
  {
    var b := ContextBounds(text, query, key);
    text[b.0..b.1]
  }

  /** The match (if any) for one language of the paragraph at index idx. */
  function LangMatch(p: Paragraph, l: Language, idx: nat, query: string, key: string): seq<Match> {
    var text := LangText(p, l);
    if Contains(Lower(text), key) then
      var ctx := Context(text, query, key);
      [ContentMatch(l, idx + 1, ctx, HighlightText(ctx, query), p)]
    else []
  }

  /** Matches for the languages ls of one paragraph, in order. */
  function LangsMatches(p: Paragraph, ls: seq<Language>, idx: nat, query: string, key: string): seq<Match> {
    if ls == [] then []
    else LangsMatches(p, ls[..|ls| - 1], idx, query, key) + LangMatch(p, ls[|ls| - 1], idx, query, key)
  }

  /** Content matches of a paragraph list, paragraph by paragraph. */
  function ContentMatches(paras: seq<Paragraph>, query: string, key: string): seq<Match> {
    if paras == [] then []
    else ContentMatches(paras[..|paras| - 1], query, key)
         + LangsMatches(paras[|paras| - 1], Languages, |paras| - 1, query, key)
  }

  function TitleMatches(ch: Chapter, scope: string, query: string, key: string): seq<Match> {
    if SearchesTitles(scope) && Contains(Lower(ch.title), key) then
      [TitleMatch(ch.title, HighlightText(ch.title, query))]
    else []
  }

  /** All matches of one chapter: the title match first, then the content. */
  function ChapterMatches(ch: Chapter, scope: string, query: string, key: string): seq<Match> {
    TitleMatches(ch, scope, query, key)
    + (if SearchesContent(scope) then ContentMatches(ch.paragraphs, query, key) else [])
  }

  function ChapterResult(b: Book, c: Category, ch: Chapter, scope: string, query: string, key: string): seq<SearchResult> {
    var m := ChapterMatches(ch, scope, query, key);
    if m != [] then [SearchResult(b, c, ch, m, |m|)] else []
  }

  /** Results for the chapters chs of category c of book b, in order. */
  function ChapterResults(b: Book, c: Category, chs: seq<Chapter>, scope: string, query: string, key: string): seq<SearchResult> {
    if chs == [] then []
    else ChapterResults(b, c, chs[..|chs| - 1], scope, query, key) + ChapterResult(b, c, chs[|chs| - 1], scope, query, key)
  }

  function CategoryResults(b: Book, cats: seq<Category>, scope: string, query: string, key: string): seq<SearchResult> {
    if cats == [] then []
    else CategoryResults(b, cats[..|cats| - 1], scope, query, key)
         + ChapterResults(b, cats[|cats| - 1], cats[|cats| - 1].chapters, scope, query, key)
  }

  /** Unsorted results in book -> category -> chapter order. */
  function BookResults(books: seq<Book>, filter: Option<string>, scope: string, query: string, key: string): seq<SearchResult> {
    if books == [] then []
    else
      var b := books[|books| - 1];
      BookResults(books[..|books| - 1], filter, scope, query, key)
      + (if PassesFilter(filter, b) then CategoryResults(b, b.categories, scope, query, key) else [])
  }

  /** Stable insertion by descending score: x goes before the first element
      whose score it reaches. */
  function InsertByScore(x: SearchResult, ys: seq<SearchResult>): seq<SearchResult> {
    if ys == [] || x.relevanceScore >= ys[0].relevanceScore then [x] + ys
    else [ys[0]] + InsertByScore(x, ys[1..])
  }

  /** `results.sort(key=relevance_score, reverse=True)`: a stable sort. */
  function SortByScore(xs: seq<SearchResult>): seq<SearchResult> {
    if xs == [] then [] else InsertByScore(xs[0], SortByScore(xs[1..]))
  }

  /** search_in_books(query, search_scope, book_filter). */
  function SearchInBooksSpec(books: seq<Book>, query: string, scope: string, filter: Option<string>): seq<SearchResult> {
    var key := QueryKey(query);
    if key == [] then [] else SortByScore(BookResults(books, filter, scope, query, key))
  }

  // ---------------------------------------------------------------------
  // The imperative search

  lemma LangsMatchesSnoc(p: Paragraph, ls: seq<Language>, t: nat, idx: nat, query: string, key: string)
    requires t < |ls|
    ensures LangsMatches(p, ls[..t + 1], idx, query, key)
            == LangsMatches(p, ls[..t], idx, query, key) + LangMatch(p, ls[t], idx, query, key)
  {
    assert ls[..t + 1][..t] == ls[..t];
  }

  lemma LangsMatchesStep(p: Paragraph, ls: seq<Language>, t: nat, idx: nat, query: string, key: string,
                         base: seq<Match>, before: seq<Match>, after: seq<Match>)
    requires t < |ls|
    requires before == base + LangsMatches(p, ls[..t], idx, query, key)
    requires after == before + LangMatch(p, ls[t], idx, query, key)
    ensures after == base + LangsMatches(p, ls[..t + 1], idx, query, key)
  {
    LangsMatchesSnoc(p, ls, t, idx, query, key);
  }

  lemma ContentMatchesSnoc(paras: seq<Paragraph>, i: nat, query: string, key: string)
    requires i < |paras|
    ensures ContentMatches(paras[..i + 1], query, key)
            == ContentMatches(paras[..i], query, key) + LangsMatches(paras[i], Languages, i, query, key)
  {
    assert paras[..i + 1][..i] == paras[..i];
  }

  lemma ContentMatchesStep(paras: seq<Paragraph>, i: nat, query: string, key: string,
                           titles: seq<Match>, before: seq<Match>, after: seq<Match>)
    requires i < |paras|
    requires before == titles + ContentMatches(paras[..i], query, key)
    requires after == before + LangsMatches(paras[i], Languages, i, query, key)
    ensures after == titles + ContentMatches(paras[..i + 1], query, key)
  {
    ContentMatchesSnoc(paras, i, query, key);
    AppendAssoc(titles, ContentMatches(paras[..i], query, key), LangsMatches(paras[i], Languages, i, query, key));
  }

  lemma AppendAssoc<T>(a: seq<T>, b: seq<T>, c: seq<T>)
    ensures a + b + c == a + (b + c)
  {
  }

  /** The innermost loop body: the match, if any, for one language of a
      paragraph, with its context window. */
  method MatchLanguage(p: Paragraph, lang: Language, idx: nat, query: string, key: string)
    returns (found: seq<Match>)
    ensures found == LangMatch(p, lang, idx, query, key)
  {
    found := [];
    var text := LangText(p, lang);
    var lowered := Lower(text);
    if Contains(lowered, key) {
      var pos := IndexOf(lowered, key);
      var start := if pos - 50 > 0 then pos - 50 else 0;
      var end := if |text| < pos + |query| + 50 then |text| else pos + |query| + 50;
      var context := text[start..end];
      assert context == Context(text, query, key);
      found := [ContentMatch(lang, idx + 1, context, HighlightText(context, query), p)];
    }
  }

  /** The loop over the three languages of the paragraph at index idx. */
  method MatchParagraph(p: Paragraph, idx: nat, query: string, key: string) returns (found: seq<Match>)
    ensures found == LangsMatches(p, Languages, idx, query, key)
  {
    found := [];
    var t := 0;
    assert LangsMatches(p, Languages[..0], idx, query, key) == [];
    while t < |Languages|
      invariant t <= |Languages|
      invariant found == LangsMatches(p, Languages[..t], idx, query, key)
    {
      ghost var before := found;
      var m := MatchLanguage(p, Languages[t], idx, query, key);
      found := found + m;
      LangsMatchesStep(p, Languages, t, idx, query, key, [], before, found);
      t := t + 1;
    }
    assert Languages[..t] == Languages;
  }

  /** The loop over the paragraphs of a chapter (`enumerate(paragraphs)`). */
  method MatchContent(paras: seq<Paragraph>, query: string, key: string) returns (found: seq<Match>)
    ensures found == ContentMatches(paras, query, key)
  {
    found := [];
    var idx := 0;
    while idx < |paras|
      invariant idx <= |paras|
      invariant found == ContentMatches(paras[..idx], query, key)
    {
      ghost var before := found;
      var m := MatchParagraph(paras[idx], idx, query, key);
      found := found + m;
      ContentMatchesStep(paras, idx, query, key, [], before, found);
      idx := idx + 1;
    }
    assert paras[..idx] == paras;
  }

  /** The loop body for one chapter: the title match, then the content. */
  method MatchChapter(ch: Chapter, scope: string, query: string, key: string) returns (matches: seq<Match>)
    ensures matches == ChapterMatches(ch, scope, query, key)
  {
    matches := [];
    if SearchesTitles(scope) {
      if Contains(Lower(ch.title), key) {
        matches := matches + [TitleMatch(ch.title, HighlightText(ch.title, query))];
      }
    }
    if SearchesContent(scope) {
      var content := MatchContent(ch.paragraphs, query, key);
      matches := matches + content;
    } else {
      assert matches + [] == matches;
    }
  }

  lemma ChapterResultsStep(b: Book, c: Category, chs: seq<Chapter>, k: nat, scope: string, query: string, key: string,
                           base: seq<SearchResult>, before: seq<SearchResult>, after: seq<SearchResult>)
    requires k < |chs|
    requires before == base + ChapterResults(b, c, chs[..k], scope, query, key)
    requires after == before + ChapterResult(b, c, chs[k], scope, query, key)
    ensures after == base + ChapterResults(b, c, chs[..k + 1], scope, query, key)
  {
    assert chs[..k + 1][..k] == chs[..k];
    AppendAssoc(base, ChapterResults(b, c, chs[..k], scope, query, key), ChapterResult(b, c, chs[k], scope, query, key));
  }

  lemma CategoryResultsStep(b: Book, cats: seq<Category>, j: nat, scope: string, query: string, key: string,
                            base: seq<SearchResult>, before: seq<SearchResult>, after: seq<SearchResult>)
    requires j < |cats|
    requires before == base + CategoryResults(b, cats[..j], scope, query, key)
    requires after == before + ChapterResults(b, cats[j], cats[j].chapters, scope, query, key)
    ensures after == base + CategoryResults(b, cats[..j + 1], scope, query, key)
  {
    assert cats[..j + 1][..j] == cats[..j];
    AppendAssoc(base, CategoryResults(b, cats[..j], scope, query, key), ChapterResults(b, cats[j], cats[j].chapters, scope, query, key));
  }

  lemma BookResultsStep(books: seq<Book>, i: nat, filter: Option<string>, scope: string, query: string, key: string,
                        before: seq<SearchResult>, after: seq<SearchResult>)
    requires i < |books|
    requires before == BookResults(books[..i], filter, scope, query, key)
    requires PassesFilter(filter, books[i]) ==> after == before + CategoryResults(books[i], books[i].categories, scope, query, key)
    requires !PassesFilter(filter, books[i]) ==> after == before
    ensures after == BookResults(books[..i + 1], filter, scope, query, key)
  {
    assert books[..i + 1][..i] == books[..i];
    if !PassesFilter(filter, books[i]) {
      assert before + [] == before;
    }
  }

  /** search_in_books: the three nested loops, then the sort. */
  method SearchInBooks(books: seq<Book>, query: string, scope: string, filter: Option<string>)
    returns (results: seq<SearchResult>)
    ensures results == SearchInBooksSpec(books, query, scope, filter)
  {
    results := [];
    var key := Strip(Lower(query));
    if key == [] {
      return;
    }
    var i := 0;
    while i < |books|
      invariant i <= |books|
      invariant results == BookResults(books[..i], filter, scope, query, key)
    {
      var book := books[i];
      ghost var before := results;
      if PassesFilter(filter, book) {
        var cats := book.categories;
        var j := 0;
        assert cats[..0] == [];
        while j < |cats|
          invariant j <= |cats|
          invariant results == before + CategoryResults(book, cats[..j], scope, query, key)
        {
          var category := cats[j];
          var chs := category.chapters;
          ghost var catBase := results;
          var k := 0;
          assert chs[..0] == [];
          while k < |chs|
            invariant k <= |chs|
            invariant results == catBase + ChapterResults(book, category, chs[..k], scope, query, key)
          {
            ghost var prev := results;
            var matches := MatchChapter(chs[k], scope, query, key);
            if matches != [] {
              results := results + [SearchResult(book, category, chs[k], matches, |matches|)];
            }
            assert results == prev + ChapterResult(book, category, chs[k], scope, query, key);
            ChapterResultsStep(book, category, chs, k, scope, query, key, catBase, prev, results);
            k := k + 1;
          }
          assert chs[..k] == chs;
          CategoryResultsStep(book, cats, j, scope, query, key, before, catBase, results);
          j := j + 1;
        }
        assert cats[..j] == cats;
      }
      BookResultsStep(books, i, filter, scope, query, key, before, results);
      i := i + 1;
    }
    assert books[..i] == books;
    results := SortByScore(results);
  }
}
