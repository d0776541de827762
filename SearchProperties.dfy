/** What search_in_books promises: the early returns, one result per
    matching chapter with its score, the order of the matches inside a
    result, and the stable descending order of the results. */
module SearchProperties {
  import opened Text
  import opened Corpus
  import opened Search
  import opened Highlight

  // ---------------------------------------------------------------------
  // The score sort

  predicate ScoreSorted(rs: seq<SearchResult>) {
    forall i, j :: 0 <= i < j < |rs| ==> rs[i].relevanceScore >= rs[j].relevanceScore
  }

  /** The results with score n, in their order: the sort is stable when it
      keeps this sequence for every n. */
  function WithScore(rs: seq<SearchResult>, n: nat): seq<SearchResult> {
    if rs == [] then []
    else (if rs[0].relevanceScore == n then [rs[0]] else []) + WithScore(rs[1..], n)
  }

  lemma {:induction false} InsertByScorePerm(x: SearchResult, ys: seq<SearchResult>)
    ensures multiset(InsertByScore(x, ys)) == multiset(ys) + multiset{x}
  {
    if ys == [] || x.relevanceScore >= ys[0].relevanceScore {
    } else {
      InsertByScorePerm(x, ys[1..]);
      assert ys == [ys[0]] + ys[1..];
    }
  }

  lemma {:induction false} InsertByScoreSorted(x: SearchResult, ys: seq<SearchResult>)
    requires ScoreSorted(ys)
    ensures ScoreSorted(InsertByScore(x, ys))
  {
    if ys == [] || x.relevanceScore >= ys[0].relevanceScore {
      var r := [x] + ys;
      forall i, j | 0 <= i < j < |r|
        ensures r[i].relevanceScore >= r[j].relevanceScore
      {
        if i == 0 {
          assert ys[0].relevanceScore >= ys[j - 1].relevanceScore;
        }
      }
    } else {
      var tail := InsertByScore(x, ys[1..]);
      InsertByScoreSorted(x, ys[1..]);
      InsertByScoreBounded(x, ys[1..], ys[0].relevanceScore);
      var r := [ys[0]] + tail;
      forall i, j | 0 <= i < j < |r|
        ensures r[i].relevanceScore >= r[j].relevanceScore
      {
        if i > 0 {
          assert r[i] == tail[i - 1] && r[j] == tail[j - 1];
        }
      }
    }
  }

  /** A bound on the scores of x and of ys bounds the insertion. */
  lemma InsertByScoreBounded(x: SearchResult, ys: seq<SearchResult>, bound: nat)
    requires x.relevanceScore <= bound
    requires forall k :: 0 <= k < |ys| ==> ys[k].relevanceScore <= bound
    ensures forall k :: 0 <= k < |InsertByScore(x, ys)| ==> InsertByScore(x, ys)[k].relevanceScore <= bound
  {
    var r := InsertByScore(x, ys);
    InsertByScorePerm(x, ys);
    forall k | 0 <= k < |r|
      ensures r[k].relevanceScore <= bound
    {
      assert r[k] in multiset(r);
      if r[k] != x {
        assert r[k] in multiset(ys);
        var m :| 0 <= m < |ys| && ys[m] == r[k];
      }
    }
  }

  lemma {:induction false} InsertByScoreStable(x: SearchResult, ys: seq<SearchResult>, n: nat)
    requires ScoreSorted(ys)
    ensures WithScore(InsertByScore(x, ys), n)
            == (if x.relevanceScore == n then [x] else []) + WithScore(ys, n)
  {
    if ys == [] || x.relevanceScore >= ys[0].relevanceScore {
      assert ([x] + ys)[1..] == ys;
    } else {
      InsertByScoreStable(x, ys[1..], n);
      var tail := InsertByScore(x, ys[1..]);
      assert ([ys[0]] + tail)[1..] == tail;
      assert ys[0].relevanceScore > x.relevanceScore;
    }
  }

  /** The sort orders by descending score and loses or adds nothing. */
  lemma {:induction false} SortByScoreSorted(xs: seq<SearchResult>)
    ensures ScoreSorted(SortByScore(xs))
    ensures multiset(SortByScore(xs)) == multiset(xs)
  {
    if xs != [] {
      SortByScoreSorted(xs[1..]);
      InsertByScoreSorted(xs[0], SortByScore(xs[1..]));
      InsertByScorePerm(xs[0], SortByScore(xs[1..]));
      assert xs == [xs[0]] + xs[1..];
    }
  }

  /** Results with equal scores keep their relative order. */
  lemma {:induction false} SortByScoreStable(xs: seq<SearchResult>, n: nat)
    ensures WithScore(SortByScore(xs), n) == WithScore(xs, n)
  {
    if xs != [] {
      SortByScoreStable(xs[1..], n);
      SortByScoreSorted(xs[1..]);
      InsertByScoreStable(xs[0], SortByScore(xs[1..]), n);
    }
  }

  // ---------------------------------------------------------------------
  // Which results there are

  /** r is the result for its chapter: its matches are all of the chapter's
      matches, there is at least one, and the score is their number. */
  predicate Answered(r: SearchResult, scope: string, query: string, key: string) {
    && r.matches == ChapterMatches(r.chapter, scope, query, key)
    && r.matches != []
    && r.relevanceScore == |r.matches|
  }

  lemma {:induction false} ChapterResultsMembers(b: Book, c: Category, chs: seq<Chapter>, scope: string, query: string, key: string)
    ensures forall r :: r in ChapterResults(b, c, chs, scope, query, key)
                        <==> r.book == b && r.category == c && r.chapter in chs && Answered(r, scope, query, key)
  {
    if chs != [] {
      var init := chs[..|chs| - 1];
      var last := chs[|chs| - 1];
      ChapterResultsMembers(b, c, init, scope, query, key);
      assert chs == init + [last];
    }
  }

  lemma {:induction false} CategoryResultsMembers(b: Book, cats: seq<Category>, scope: string, query: string, key: string)
    ensures forall r :: r in CategoryResults(b, cats, scope, query, key)
                        <==> r.book == b && r.category in cats && r.chapter in r.category.chapters
                             && Answered(r, scope, query, key)
  {
    if cats != [] {
      var init := cats[..|cats| - 1];
      var last := cats[|cats| - 1];
      CategoryResultsMembers(b, init, scope, query, key);
      ChapterResultsMembers(b, last, last.chapters, scope, query, key);
      assert cats == init + [last];
    }
  }

  lemma {:induction false} BookResultsMembers(books: seq<Book>, filter: Option<string>, scope: string, query: string, key: string)
    ensures forall r :: r in BookResults(books, filter, scope, query, key)
                        <==> r.book in books && PassesFilter(filter, r.book) && r.category in r.book.categories
                             && r.chapter in r.category.chapters && Answered(r, scope, query, key)
  {
    if books != [] {
      var init := books[..|books| - 1];
      var last := books[|books| - 1];
      BookResultsMembers(init, filter, scope, query, key);
      CategoryResultsMembers(last, last.categories, scope, query, key);
      assert books == init + [last];
    }
  }

  /** The results are exactly one per chapter that has at least one match,
      in a book the filter lets through; there are none for a blank query. */
  lemma SearchMembers(books: seq<Book>, query: string, scope: string, filter: Option<string>)
    ensures forall r :: r in SearchInBooksSpec(books, query, scope, filter)
                        <==> QueryKey(query) != [] && r.book in books && PassesFilter(filter, r.book)
                             && r.category in r.book.categories && r.chapter in r.category.chapters
                             && Answered(r, scope, query, QueryKey(query))
  {
    var key := QueryKey(query);
    if key != [] {
      var unsorted := BookResults(books, filter, scope, query, key);
      BookResultsMembers(books, filter, scope, query, key);
      SortByScoreSorted(unsorted);
      assert forall r :: r in SortByScore(unsorted) <==> r in multiset(SortByScore(unsorted));
      assert forall r :: r in unsorted <==> r in multiset(unsorted);
    }
  }

  /** Every score is the number of matches, and at least one. */
  lemma SearchScores(books: seq<Book>, query: string, scope: string, filter: Option<string>)
    ensures forall i :: 0 <= i < |SearchInBooksSpec(books, query, scope, filter)| ==>
              var r := SearchInBooksSpec(books, query, scope, filter)[i];
              r.relevanceScore == |r.matches| >= 1
  {
    SearchMembers(books, query, scope, filter);
    var res := SearchInBooksSpec(books, query, scope, filter);
    forall i | 0 <= i < |res|
      ensures res[i].relevanceScore == |res[i].matches| >= 1
    {
      assert res[i] in res;
    }
  }

  /** Results come by non-increasing score; among equal scores they keep the
      book -> category -> chapter traversal order. */
  lemma SearchOrder(books: seq<Book>, query: string, scope: string, filter: Option<string>)
    requires QueryKey(query) != []
    ensures ScoreSorted(SearchInBooksSpec(books, query, scope, filter))
    ensures forall n: nat :: WithScore(SearchInBooksSpec(books, query, scope, filter), n)
                             == WithScore(BookResults(books, filter, scope, query, QueryKey(query)), n)
  {
    var unsorted := BookResults(books, filter, scope, query, QueryKey(query));
    SortByScoreSorted(unsorted);
    forall n: nat
      ensures WithScore(SortByScore(unsorted), n) == WithScore(unsorted, n)
    {
      SortByScoreStable(unsorted, n);
    }
  }

  // ---------------------------------------------------------------------
  // The early returns

  lemma {:induction false} CategoryResultsOutOfScope(b: Book, cats: seq<Category>, scope: string, query: string, key: string)
    requires !SearchesTitles(scope) && !SearchesContent(scope)
    ensures CategoryResults(b, cats, scope, query, key) == []
  {
    if cats != [] {
      var last := cats[|cats| - 1];
      CategoryResultsOutOfScope(b, cats[..|cats| - 1], scope, query, key);
      ChapterResultsOutOfScope(b, last, last.chapters, scope, query, key);
    }
  }

  lemma {:induction false} ChapterResultsOutOfScope(b: Book, c: Category, chs: seq<Chapter>, scope: string, query: string, key: string)
    requires !SearchesTitles(scope) && !SearchesContent(scope)
    ensures ChapterResults(b, c, chs, scope, query, key) == []
  {
    if chs != [] {
      ChapterResultsOutOfScope(b, c, chs[..|chs| - 1], scope, query, key);
      assert ChapterMatches(chs[|chs| - 1], scope, query, key) == [];
    }
  }

  /** No scope but 'all', 'title' or 'content' finds anything. */
  lemma {:induction false} BookResultsOutOfScope(books: seq<Book>, filter: Option<string>, scope: string, query: string, key: string)
    requires !SearchesTitles(scope) && !SearchesContent(scope)
    ensures BookResults(books, filter, scope, query, key) == []
  {
    if books != [] {
      var last := books[|books| - 1];
      BookResultsOutOfScope(books[..|books| - 1], filter, scope, query, key);
      CategoryResultsOutOfScope(last, last.categories, scope, query, key);
    }
  }

  /** A filter that no book passes leaves nothing. */
  lemma {:induction false} BookResultsFilteredOut(books: seq<Book>, filter: Option<string>, scope: string, query: string, key: string)
    requires forall k :: 0 <= k < |books| ==> !PassesFilter(filter, books[k])
    ensures BookResults(books, filter, scope, query, key) == []
  {
    if books != [] {
      BookResultsFilteredOut(books[..|books| - 1], filter, scope, query, key);
    }
  }

  /** A blank query, a scope other than 'all', 'title' and 'content', or a
      non-empty book filter naming no book each give no results. */
  lemma SearchEmptyCases(books: seq<Book>, query: string, scope: string, filter: Option<string>)
    ensures QueryKey(query) == [] ==> SearchInBooksSpec(books, query, scope, filter) == []
    ensures scope != "all" && scope != "title" && scope != "content"
            ==> SearchInBooksSpec(books, query, scope, filter) == []
    ensures (filter.Some? && filter.value != "" && forall k :: 0 <= k < |books| ==> books[k].id != filter.value)
            ==> SearchInBooksSpec(books, query, scope, filter) == []
  {
    var key := QueryKey(query);
    if scope != "all" && scope != "title" && scope != "content" {
      BookResultsOutOfScope(books, filter, scope, query, key);
    }
    if filter.Some? && filter.value != "" && forall k :: 0 <= k < |books| ==> books[k].id != filter.value {
      BookResultsFilteredOut(books, filter, scope, query, key);
    }
  }

  // ---------------------------------------------------------------------
  // The matches of one chapter

  /** Position of a match in a chapter's list: the title match before the
      content, content by paragraph and then wenyan, baihua, english. */
  function Rank(m: Match): nat {
    match m
    case TitleMatch(_, _) => 0
    case ContentMatch(l, id, _, _, _) => 3 * id + LangRank(l)
  }

  /** The context window holds the first occurrence of the key whenever the
      key is no longer than the query, as query.lower().strip() is. */
  lemma ContextHoldsKey(text: string, query: string, key: string)
    requires Contains(Lower(text), key)
    requires |key| <= |query|
    ensures Contains(Lower(Context(text, query, key)), key)
  {
    var p := IndexOf(Lower(text), key);
    var b := ContextBounds(text, query, key);
    assert b.0 <= p && p + |key| <= b.1;
    LowerSlice(text, b.0, b.1);
    assert Lower(text)[b.0..b.1][p - b.0..p - b.0 + |key|] == Lower(text)[p..p + |key|];
    assert OccursAt(Lower(text[b.0..b.1]), key, p - b.0);
  }

  lemma LangMatchShape(p: Paragraph, l: Language, idx: nat, query: string, key: string)
    ensures LangMatch(p, l, idx, query, key) == [] <==> !Contains(Lower(LangText(p, l)), key)
    ensures |LangMatch(p, l, idx, query, key)| <= 1
    ensures forall i :: 0 <= i < |LangMatch(p, l, idx, query, key)| ==>
              LangMatch(p, l, idx, query, key)[i] == ContentMatch(l, idx + 1, Context(LangText(p, l), query, key),
                                                                   HighlightText(Context(LangText(p, l), query, key), query), p)
  {
  }

  lemma LangsMatchesThree(p: Paragraph, idx: nat, query: string, key: string)
    ensures LangsMatches(p, Languages, idx, query, key)
            == LangMatch(p, Wenyan, idx, query, key) + LangMatch(p, Baihua, idx, query, key)
               + LangMatch(p, English, idx, query, key)
  {
    assert Languages[..0] == [];
    LangsMatchesSnoc(p, Languages, 0, idx, query, key);
    LangsMatchesSnoc(p, Languages, 1, idx, query, key);
    LangsMatchesSnoc(p, Languages, 2, idx, query, key);
    assert Languages[..3] == Languages;
  }

  /** s is empty or one content match for language l of paragraph p at
      index idx. */
  predicate OneFor(s: seq<Match>, l: Language, idx: nat, p: Paragraph) {
    |s| <= 1 && forall i :: 0 <= i < |s| ==>
      s[i].ContentMatch? && s[i].language == l && s[i].paragraphId == idx + 1 && s[i].fullParagraph == p
  }

  lemma ThreeLanguages(w: seq<Match>, z: seq<Match>, e: seq<Match>, idx: nat, p: Paragraph)
    requires OneFor(w, Wenyan, idx, p) && OneFor(z, Baihua, idx, p) && OneFor(e, English, idx, p)
    ensures forall i :: 0 <= i < |w + z + e| ==>
              (w + z + e)[i].ContentMatch? && (w + z + e)[i].paragraphId == idx + 1 && (w + z + e)[i].fullParagraph == p
    ensures forall i, j :: 0 <= i < j < |w + z + e| ==> Rank((w + z + e)[i]) < Rank((w + z + e)[j])
    ensures forall i :: 0 <= i < |w + z + e| && (w + z + e)[i].language == Wenyan ==> w != []
    ensures forall i :: 0 <= i < |w + z + e| && (w + z + e)[i].language == Baihua ==> z != []
    ensures forall i :: 0 <= i < |w + z + e| && (w + z + e)[i].language == English ==> e != []
    ensures w != [] ==> (w + z + e)[0] == w[0]
    ensures z != [] ==> (w + z + e)[|w|] == z[0]
    ensures e != [] ==> (w + z + e)[|w| + |z|] == e[0]
  {
  }

  lemma LangMatchOne(p: Paragraph, l: Language, idx: nat, query: string, key: string)
    ensures OneFor(LangMatch(p, l, idx, query, key), l, idx, p)
    ensures LangMatch(p, l, idx, query, key) != [] <==> Contains(Lower(LangText(p, l)), key)
  {
  }

  /** The matches of one paragraph: at most one per language, in language
      order, each for a field containing the key, and one for every such
      field. */
  lemma ParagraphMatchesShape(p: Paragraph, idx: nat, query: string, key: string)
    ensures var pm := LangsMatches(p, Languages, idx, query, key);
      && (forall i :: 0 <= i < |pm| ==>
            && pm[i].ContentMatch? && pm[i].paragraphId == idx + 1 && pm[i].fullParagraph == p
            && Contains(Lower(LangText(p, pm[i].language)), key))
      && (forall i, j :: 0 <= i < j < |pm| ==> Rank(pm[i]) < Rank(pm[j]))
      && (forall l :: Contains(Lower(LangText(p, l)), key) <==>
            exists i :: 0 <= i < |pm| && pm[i].ContentMatch? && pm[i].language == l)
  {
    var w := LangMatch(p, Wenyan, idx, query, key);
    var z := LangMatch(p, Baihua, idx, query, key);
    var e := LangMatch(p, English, idx, query, key);
    LangsMatchesThree(p, idx, query, key);
    LangMatchOne(p, Wenyan, idx, query, key);
    LangMatchOne(p, Baihua, idx, query, key);
    LangMatchOne(p, English, idx, query, key);
    ThreeLanguages(w, z, e, idx, p);
    var pm := w + z + e;
    forall i | 0 <= i < |pm|
      ensures Contains(Lower(LangText(p, pm[i].language)), key)
    {
      match pm[i].language
      case Wenyan =>
      case Baihua =>
      case English =>
    }
    forall l | Contains(Lower(LangText(p, l)), key)
      ensures exists i :: 0 <= i < |pm| && pm[i].ContentMatch? && pm[i].language == l
    {
      match l
      case Wenyan => assert pm[0] == w[0];
      case Baihua => assert pm[|w|] == z[0];
      case English => assert pm[|w| + |z|] == e[0];
    }
  }

  /** m is a content match for a paragraph of paras whose field in m's
      language holds the key. */
  predicate SoundMatch(m: Match, paras: seq<Paragraph>, key: string) {
    && m.ContentMatch? && 1 <= m.paragraphId <= |paras| && m.fullParagraph == paras[m.paragraphId - 1]
    && Contains(Lower(LangText(m.fullParagraph, m.language)), key)
  }

  /** ms has a match for language l of the paragraph at index k. */
  predicate HasMatchFor(ms: seq<Match>, k: nat, l: Language) {
    exists i :: 0 <= i < |ms| && ms[i].ContentMatch? && ms[i].paragraphId == k + 1 && ms[i].language == l
  }

  lemma ContentMatchesUnfold(paras: seq<Paragraph>, query: string, key: string)
    requires paras != []
    ensures ContentMatches(paras, query, key)
            == ContentMatches(paras[..|paras| - 1], query, key)
               + LangsMatches(paras[|paras| - 1], Languages, |paras| - 1, query, key)
  {
  }

  lemma SoundAppend(cm: seq<Match>, pm: seq<Match>, paras: seq<Paragraph>, key: string)
    requires paras != []
    requires forall i :: 0 <= i < |cm| ==> SoundMatch(cm[i], paras[..|paras| - 1], key)
    requires forall i :: 0 <= i < |pm| ==>
               && pm[i].ContentMatch? && pm[i].paragraphId == |paras| && pm[i].fullParagraph == paras[|paras| - 1]
               && Contains(Lower(LangText(paras[|paras| - 1], pm[i].language)), key)
    ensures forall i :: 0 <= i < |cm + pm| ==> SoundMatch((cm + pm)[i], paras, key)
  {
    forall i | 0 <= i < |cm + pm|
      ensures SoundMatch((cm + pm)[i], paras, key)
    {
      if i < |cm| {
        assert (cm + pm)[i] == cm[i];
        assert paras[..|paras| - 1][cm[i].paragraphId - 1] == paras[cm[i].paragraphId - 1];
      } else {
        assert (cm + pm)[i] == pm[i - |cm|];
      }
    }
  }

  /** Every content match names a real paragraph (1-based) whose field in
      the match's language holds the key. */
  lemma {:induction false} ContentMatchesSound(paras: seq<Paragraph>, query: string, key: string)
    ensures forall i :: 0 <= i < |ContentMatches(paras, query, key)| ==>
              SoundMatch(ContentMatches(paras, query, key)[i], paras, key)
  {
    if paras != [] {
      var n := |paras| - 1;
      ContentMatchesSound(paras[..n], query, key);
      ParagraphMatchesShape(paras[n], n, query, key);
      ContentMatchesUnfold(paras, query, key);
      SoundAppend(ContentMatches(paras[..n], query, key), LangsMatches(paras[n], Languages, n, query, key), paras, key);
    }
  }

  lemma OrderedAppend(cm: seq<Match>, pm: seq<Match>, n: nat)
    requires forall i, j :: 0 <= i < j < |cm| ==> Rank(cm[i]) < Rank(cm[j])
    requires forall i :: 0 <= i < |cm| ==> 3 <= Rank(cm[i]) < 3 * n + 3
    requires forall i, j :: 0 <= i < j < |pm| ==> Rank(pm[i]) < Rank(pm[j])
    requires forall i :: 0 <= i < |pm| ==> pm[i].ContentMatch? && pm[i].paragraphId == n + 1
    ensures forall i, j :: 0 <= i < j < |cm + pm| ==> Rank((cm + pm)[i]) < Rank((cm + pm)[j])
    ensures forall i :: 0 <= i < |cm + pm| ==> 3 <= Rank((cm + pm)[i]) < 3 * (n + 1) + 3
  {
    var all := cm + pm;
    forall i, j | 0 <= i < j < |all|
      ensures Rank(all[i]) < Rank(all[j])
    {
      if j < |cm| {
        assert all[i] == cm[i] && all[j] == cm[j];
      } else if i >= |cm| {
        assert all[i] == pm[i - |cm|] && all[j] == pm[j - |cm|];
      } else {
        assert all[i] == cm[i] && all[j] == pm[j - |cm|];
      }
    }
    forall i | 0 <= i < |all|
      ensures 3 <= Rank(all[i]) < 3 * (n + 1) + 3
    {
      if i < |cm| {
        assert all[i] == cm[i];
      } else {
        assert all[i] == pm[i - |cm|];
      }
    }
  }

  /** Content matches come by paragraph, then by language, with no repeats. */
  lemma {:induction false} ContentMatchesOrdered(paras: seq<Paragraph>, query: string, key: string)
    ensures forall i, j :: 0 <= i < j < |ContentMatches(paras, query, key)| ==>
              Rank(ContentMatches(paras, query, key)[i]) < Rank(ContentMatches(paras, query, key)[j])
    ensures forall i :: 0 <= i < |ContentMatches(paras, query, key)| ==>
              3 <= Rank(ContentMatches(paras, query, key)[i]) < 3 * |paras| + 3
  {
    if paras != [] {
      var n := |paras| - 1;
      ContentMatchesOrdered(paras[..n], query, key);
      ParagraphMatchesShape(paras[n], n, query, key);
      ContentMatchesUnfold(paras, query, key);
      OrderedAppend(ContentMatches(paras[..n], query, key), LangsMatches(paras[n], Languages, n, query, key), n);
    }
  }

  lemma CompleteAppend(cm: seq<Match>, pm: seq<Match>, paras: seq<Paragraph>, last: Paragraph, key: string)
    requires paras != [] && last == paras[|paras| - 1]
    requires forall k, l :: 0 <= k < |paras| - 1 && Contains(Lower(LangText(paras[k], l)), key) ==> HasMatchFor(cm, k, l)
    requires forall i :: 0 <= i < |pm| ==> pm[i].ContentMatch? && pm[i].paragraphId == |paras|
    requires forall l :: Contains(Lower(LangText(last, l)), key) ==>
               exists i :: 0 <= i < |pm| && pm[i].ContentMatch? && pm[i].language == l
    ensures forall k, l :: 0 <= k < |paras| && Contains(Lower(LangText(paras[k], l)), key) ==> HasMatchFor(cm + pm, k, l)
  {
    var all := cm + pm;
    forall k, l | 0 <= k < |paras| && Contains(Lower(LangText(paras[k], l)), key)
      ensures HasMatchFor(all, k, l)
    {
      if k < |paras| - 1 {
        var i :| 0 <= i < |cm| && cm[i].ContentMatch? && cm[i].paragraphId == k + 1 && cm[i].language == l;
        assert all[i] == cm[i];
      } else {
        var i :| 0 <= i < |pm| && pm[i].ContentMatch? && pm[i].language == l;
        assert all[|cm| + i] == pm[i];
      }
    }
  }

  /** Every paragraph field that holds the key has its content match. */
  lemma {:induction false} ContentMatchesComplete(paras: seq<Paragraph>, query: string, key: string)
    ensures forall k, l :: 0 <= k < |paras| && Contains(Lower(LangText(paras[k], l)), key) ==>
              HasMatchFor(ContentMatches(paras, query, key), k, l)
  {
    if paras != [] {
      var n := |paras| - 1;
      var init := paras[..n];
      ContentMatchesComplete(init, query, key);
      assert forall k :: 0 <= k < n ==> init[k] == paras[k];
      ParagraphMatchesShape(paras[n], n, query, key);
      ContentMatchesUnfold(paras, query, key);
      CompleteAppend(ContentMatches(init, query, key), LangsMatches(paras[n], Languages, n, query, key), paras, paras[n], key);
    }
  }

  lemma TitleThenContent(t: seq<Match>, c: seq<Match>)
    requires |t| <= 1 && forall i :: 0 <= i < |t| ==> t[i].TitleMatch?
    requires forall i :: 0 <= i < |c| ==> c[i].ContentMatch? && c[i].paragraphId >= 1
    requires forall i, j :: 0 <= i < j < |c| ==> Rank(c[i]) < Rank(c[j])
    ensures forall i, j :: 0 <= i < j < |t + c| ==> Rank((t + c)[i]) < Rank((t + c)[j])
    ensures (t + c != [] && (t + c)[0].TitleMatch?) <==> t != []
  {
    var m := t + c;
    forall i, j | 0 <= i < j < |m|
      ensures Rank(m[i]) < Rank(m[j])
    {
      if i >= |t| {
        assert m[i] == c[i - |t|] && m[j] == c[j - |t|];
      } else {
        assert m[j] == c[j - |t|];
      }
    }
    if c != [] && t == [] {
      assert m[0] == c[0];
    }
  }

  lemma ContentSoundInChapter(t: seq<Match>, c: seq<Match>, paras: seq<Paragraph>, key: string)
    requires forall i :: 0 <= i < |t| ==> t[i].TitleMatch?
    requires forall i :: 0 <= i < |c| ==> SoundMatch(c[i], paras, key)
    ensures forall i :: 0 <= i < |t + c| && (t + c)[i].ContentMatch? ==> SoundMatch((t + c)[i], paras, key)
  {
    forall i | 0 <= i < |t + c| && (t + c)[i].ContentMatch?
      ensures SoundMatch((t + c)[i], paras, key)
    {
      assert (t + c)[i] == c[i - |t|];
    }
  }

  /** The matches of a chapter come ordered by Rank: a title match, if
      any, is the first and only one, then content by paragraph and
      language. There is a title match exactly when titles are searched and
      the lowered title holds the key. */
  lemma ChapterMatchesOrdered(ch: Chapter, scope: string, query: string, key: string)
    ensures var m := ChapterMatches(ch, scope, query, key);
      && (forall i, j :: 0 <= i < j < |m| ==> Rank(m[i]) < Rank(m[j]))
      && ((m != [] && m[0].TitleMatch?) <==> SearchesTitles(scope) && Contains(Lower(ch.title), key))
  {
    var t := TitleMatches(ch, scope, query, key);
    var c := if SearchesContent(scope) then ContentMatches(ch.paragraphs, query, key) else [];
    assert ChapterMatches(ch, scope, query, key) == t + c;
    ContentMatchesSound(ch.paragraphs, query, key);
    ContentMatchesOrdered(ch.paragraphs, query, key);
    TitleThenContent(t, c);
  }

  /** Content matches appear only when content is searched, and each names
      a real paragraph (1-based) whose field holds the key. */
  lemma ChapterMatchesSound(ch: Chapter, scope: string, query: string, key: string)
    ensures var m := ChapterMatches(ch, scope, query, key);
      forall i :: 0 <= i < |m| && m[i].ContentMatch? ==>
        SearchesContent(scope) && SoundMatch(m[i], ch.paragraphs, key)
  {
    var t := TitleMatches(ch, scope, query, key);
    assert ChapterMatches(ch, scope, query, key) == t + (if SearchesContent(scope) then ContentMatches(ch.paragraphs, query, key) else []);
    if SearchesContent(scope) {
      ContentMatchesSound(ch.paragraphs, query, key);
      ContentSoundInChapter(t, ContentMatches(ch.paragraphs, query, key), ch.paragraphs, key);
    } else {
      assert t + [] == t;
    }
  }

  /** When content is searched, every paragraph field that holds the key
      has its content match. */
  lemma ChapterMatchesComplete(ch: Chapter, scope: string, query: string, key: string)
    requires SearchesContent(scope)
    ensures forall k, l :: 0 <= k < |ch.paragraphs| && Contains(Lower(LangText(ch.paragraphs[k], l)), key) ==>
              HasMatchFor(ChapterMatches(ch, scope, query, key), k, l)
  {
    var t := TitleMatches(ch, scope, query, key);
    var c := ContentMatches(ch.paragraphs, query, key);
    ContentMatchesComplete(ch.paragraphs, query, key);
    var all: seq<Match> := t + c;
    forall k, l | 0 <= k < |ch.paragraphs| && Contains(Lower(LangText(ch.paragraphs[k], l)), key)
      ensures HasMatchFor(all, k, l)
    {
      var i :| 0 <= i < |c| && c[i].ContentMatch? && c[i].paragraphId == k + 1 && c[i].language == l;
      assert all[|t| + i] == c[i];
    }
  }
}
