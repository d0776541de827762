/** get_statistics: per-book counts of categories, chapters and paragraphs,
    and corpus totals accumulated from them. */
module Statistics {
  import opened Corpus

  datatype BookStats = BookStats(id: string, title: string, categories: nat, chapters: nat, paragraphs: nat)

  datatype CorpusStats = CorpusStats(totalBooks: nat, totalCategories: nat, totalChapters: nat,
                                     totalParagraphs: nat, booksDetail: seq<BookStats>)

  /** A book's line of the statistics, counted on the flattened book. */
  function BookStatsOf(b: Book): BookStats {
    var chs := CategoryChapters(b.categories);
    BookStats(b.id, b.title, |b.categories|, |chs|, |ChapterParagraphs(chs)|)
  }

  function Details(books: seq<Book>): (ds: seq<BookStats>)
    ensures |ds| == |books|
  {
    if books == [] then [] else Details(books[..|books| - 1]) + [BookStatsOf(books[|books| - 1])]
  }

  function SumCategories(ds: seq<BookStats>): nat {
    if ds == [] then 0 else SumCategories(ds[..|ds| - 1]) + ds[|ds| - 1].categories
  }

  function SumChapters(ds: seq<BookStats>): nat {
    if ds == [] then 0 else SumChapters(ds[..|ds| - 1]) + ds[|ds| - 1].chapters
  }

  function SumParagraphs(ds: seq<BookStats>): nat {
    if ds == [] then 0 else SumParagraphs(ds[..|ds| - 1]) + ds[|ds| - 1].paragraphs
  }

  lemma {:induction false} ChapterParagraphsAppend(a: seq<Chapter>, b: seq<Chapter>)
    ensures ChapterParagraphs(a + b) == ChapterParagraphs(a) + ChapterParagraphs(b)
    decreases |b|
  {
    if b == [] {
      assert a + b == a;
    } else {
      var init := b[..|b| - 1];
      ChapterParagraphsAppend(a, init);
      assert (a + b)[..|a + b| - 1] == a + init;
    }
  }

  lemma CategoryChaptersSnoc(cats: seq<Category>, j: nat)
    requires j < |cats|
    ensures CategoryChapters(cats[..j + 1]) == CategoryChapters(cats[..j]) + cats[j].chapters
  {
    assert cats[..j + 1][..j] == cats[..j];
  }

  lemma ChapterParagraphsSnoc(chs: seq<Chapter>, k: nat)
    requires k < |chs|
    ensures ChapterParagraphs(chs[..k + 1]) == ChapterParagraphs(chs[..k]) + chs[k].paragraphs
  {
    assert chs[..k + 1][..k] == chs[..k];
  }

  lemma DetailsSnoc(books: seq<Book>, i: nat)
    requires i < |books|
    ensures Details(books[..i + 1]) == Details(books[..i]) + [BookStatsOf(books[i])]
  {
    assert books[..i + 1][..i] == books[..i];
  }

  /** The per-book loops: chapters counted category by category, paragraphs
      chapter by chapter. */
  method CountBook(book: Book) returns (stats: BookStats)
    ensures stats == BookStatsOf(book)
  {
    var cats := book.categories;
    var chapters := 0;
    var paragraphs := 0;
    var j := 0;
    while j < |cats|
      invariant j <= |cats|
      invariant chapters == |CategoryChapters(cats[..j])|
      invariant paragraphs == |ChapterParagraphs(CategoryChapters(cats[..j]))|
    {
      var category := cats[j];
      chapters := chapters + |category.chapters|;
      var chs := category.chapters;
      var k := 0;
      while k < |chs|
        invariant k <= |chs|
        invariant paragraphs == |ChapterParagraphs(CategoryChapters(cats[..j]))| + |ChapterParagraphs(chs[..k])|
      {
        paragraphs := paragraphs + |chs[k].paragraphs|;
        ChapterParagraphsSnoc(chs, k);
        k := k + 1;
      }
      assert chs[..k] == chs;
      CategoryChaptersSnoc(cats, j);
      ChapterParagraphsAppend(CategoryChapters(cats[..j]), chs);
      j := j + 1;
    }
    assert cats[..j] == cats;
    stats := BookStats(book.id, book.title, |cats|, chapters, paragraphs);
  }

  /** get_statistics over the loaded books. */
  method GetStatistics(books: seq<Book>) returns (stats: CorpusStats)
    ensures stats.booksDetail == Details(books)
    ensures stats.totalBooks == |books|
    ensures stats.totalCategories == SumCategories(stats.booksDetail)
    ensures stats.totalChapters == SumChapters(stats.booksDetail)
    ensures stats.totalParagraphs == SumParagraphs(stats.booksDetail)
  {
    var detail: seq<BookStats> := [];
    var categories := 0;
    var chapters := 0;
    var paragraphs := 0;
    var i := 0;
    while i < |books|
      invariant i <= |books|
      invariant detail == Details(books[..i])
      invariant categories == SumCategories(detail)
      invariant chapters == SumChapters(detail)
      invariant paragraphs == SumParagraphs(detail)
    {
      var bookStats := CountBook(books[i]);
      detail := detail + [bookStats];
      categories := categories + bookStats.categories;
      chapters := chapters + bookStats.chapters;
      paragraphs := paragraphs + bookStats.paragraphs;
      DetailsSnoc(books, i);
      i := i + 1;
    }
    assert books[..i] == books;
    stats := CorpusStats(|books|, categories, chapters, paragraphs, detail);
  }

  /** The totals count the whole corpus: every category, every chapter and
      every paragraph of every book, once. */
  lemma {:induction false} TotalsCountCorpus(books: seq<Book>)
    ensures SumCategories(Details(books)) == |AllCategories(books)|
    ensures SumChapters(Details(books)) == |AllChapters(books)|
    ensures SumParagraphs(Details(books)) == |ChapterParagraphs(AllChapters(books))|
  {
    if books != [] {
      var init := books[..|books| - 1];
      var last := books[|books| - 1];
      TotalsCountCorpus(init);
      assert Details(books)[..|books| - 1] == Details(init);
      ChapterParagraphsAppend(AllChapters(init), CategoryChapters(last.categories));
    }
  }

  /** The i-th detail line describes the i-th book. */
  lemma {:induction false} DetailsAt(books: seq<Book>, i: nat)
    requires i < |books|
    ensures Details(books)[i] == BookStatsOf(books[i])
  {
    if i < |books| - 1 {
      DetailsAt(books[..|books| - 1], i);
    }
  }
}
