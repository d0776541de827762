/** The server's corpus loader: it walks data/raw/<book>/<category>/<chapter>.txt
    in name order and builds the book -> category -> chapter tree. The
    directory tree is a value here (`Entry`); reading it is left to the caller. */
module Hierarchy {
  import opened Text
  import opened Corpus
  import opened ParallelText

  /** A directory entry: a file with its text, or a directory with its entries. */
  datatype Entry = File(name: string, content: string) | Dir(name: string, entries: seq<Entry>)

  // ---------------------------------------------------------------- name order

  /** Non-decreasing by name, as `sorted()` leaves directory names. */
  predicate SortedByName(es: seq<Entry>) {
    forall i, j :: 0 <= i < j < |es| ==> LexLe(es[i].name, es[j].name)
  }

  function InsertByName(e: Entry, es: seq<Entry>): seq<Entry> {
    if es == [] then [e]
    else if LexLe(e.name, es[0].name) then [e] + es
    else [es[0]] + InsertByName(e, es[1..])
  }

  /** Python's sorted() over directory entries, keyed by name. */
  function SortByName(es: seq<Entry>): seq<Entry> {
    if es == [] then [] else InsertByName(es[0], SortByName(es[1..]))
  }

  lemma {:induction false} InsertByNamePerm(e: Entry, es: seq<Entry>)
    ensures multiset(InsertByName(e, es)) == multiset(es) + multiset{e}
  {
    if es != [] && !LexLe(e.name, es[0].name) {
      InsertByNamePerm(e, es[1..]);
      assert es == [es[0]] + es[1..];
    }
  }

  /** Every entry of an insertion is the inserted one or one of the list's. */
  lemma InsertByNameFrom(e: Entry, es: seq<Entry>, x: Entry)
    requires x in InsertByName(e, es)
    ensures x == e || exists m :: 0 <= m < |es| && es[m] == x
  {
    InsertByNamePerm(e, es);
    assert x in multiset(InsertByName(e, es));
  }

  lemma {:induction false} InsertByNameSorted(e: Entry, es: seq<Entry>)
    requires SortedByName(es)
    ensures SortedByName(InsertByName(e, es))
  {
    if es == [] {
    } else if LexLe(e.name, es[0].name) {
      forall j | 0 < j < |es| ensures LexLe(e.name, es[j].name) {
        LexLeTrans(e.name, es[0].name, es[j].name);
      }
    } else {
      LexLeTotal(e.name, es[0].name);
      var tail := es[1..];
      InsertByNameSorted(e, tail);
      var rest := InsertByName(e, tail);
      forall j | 0 <= j < |rest| ensures LexLe(es[0].name, rest[j].name) {
        InsertByNameFrom(e, tail, rest[j]);
      }
    }
  }

  /** sorted() returns its input in name order: sorted and a permutation. */
  lemma {:induction false} SortByNameSorted(es: seq<Entry>)
    ensures SortedByName(SortByName(es))
    ensures multiset(SortByName(es)) == multiset(es)
  {
    if es != [] {
      SortByNameSorted(es[1..]);
      InsertByNameSorted(es[0], SortByName(es[1..]));
      InsertByNamePerm(es[0], SortByName(es[1..]));
      assert es == [es[0]] + es[1..];
    }
  }

  /** Whatever holds of every entry holds of every sorted entry. */
  lemma SortByNameKeeps(es: seq<Entry>, P: Entry -> bool)
    requires forall k :: 0 <= k < |es| ==> P(es[k])
    ensures forall k :: 0 <= k < |SortByName(es)| ==> P(SortByName(es)[k])
  {
    SortByNameSorted(es);
    var r := SortByName(es);
    forall k | 0 <= k < |r| ensures P(r[k]) {
      assert r[k] in multiset(es);
      var j :| 0 <= j < |es| && es[j] == r[k];
    }
  }

  // ---------------------------------------------------------------- titles

  /** The chapter title a file name gives: the name without its last four
      characters (".txt"), then everything after the first '_' if there is one. */
  function ChapterTitle(filename: string): (r: string)
    requires |filename| >= 4
    ensures var stem := filename[..|filename| - 4];
            && ('_' !in stem ==> r == stem)
            && ('_' in stem ==> exists p :: '_' !in p && stem == p + "_" + r)
  {
    var stem := filename[..|filename| - 4];
    var i := IndexOf(stem, "_");
    ContainsChar(stem, '_');
    if i < 0 then stem
    else
      assert stem == stem[..i] + "_" + stem[i + 1..];
      NoOccurrenceBeforeFirst(stem, "_", i);
      ContainsChar(stem[..i], '_');
      stem[i + 1..]
  }

  /** A book's display title: its name in the four-histories table, else its
      directory name. */
  function BookTitle(bookId: string): (r: string)
    ensures bookId in FourHistories ==> r == FourHistories[bookId].name
    ensures bookId !in FourHistories ==> r == bookId
  {
    if bookId in FourHistories then FourHistories[bookId].name else bookId
  }

  /** A category's display title: its name in its book's table, else the
      category's directory name (a book outside the table has an empty one). */
  function CategoryTitle(bookId: string, catDir: string): (r: string)
    ensures (bookId in FourHistories && catDir in FourHistories[bookId].categories)
      ==> r == FourHistories[bookId].categories[catDir]
    ensures !(bookId in FourHistories && catDir in FourHistories[bookId].categories) ==> r == catDir
  {
    var cats := if bookId in FourHistories then FourHistories[bookId].categories else map[];
    if catDir in cats then cats[catDir] else catDir
  }

  // ---------------------------------------------------------------- the tree

  /** The entries whose name ends in ".txt", in their listing order. */
  function TxtEntries(es: seq<Entry>): (r: seq<Entry>)
    ensures |r| <= |es|
  {
    if es == [] then []
    else
      var last := es[|es| - 1];
      TxtEntries(es[..|es| - 1]) + (if EndsWith(last.name, ".txt") then [last] else [])
  }

  /** TxtEntries keeps exactly the *.txt entries. */
  lemma {:induction false} TxtEntriesExact(es: seq<Entry>)
    ensures forall x :: x in TxtEntries(es) <==> x in es && EndsWith(x.name, ".txt")
  {
    if es != [] {
      TxtEntriesExact(es[..|es| - 1]);
      assert es == es[..|es| - 1] + [es[|es| - 1]];
    }
  }

  /** Chapter files as the loader reads them: regular files named *.txt. */
  predicate ChapterFile(f: Entry) {
    f.File? && |f.name| >= 4
  }

  predicate ChapterFiles(fs: seq<Entry>) {
    forall k :: 0 <= k < |fs| ==> ChapterFile(fs[k])
  }

  /** A category directory the loader can read: no sub-directory in it is
      named *.txt (opening one as a chapter raises IsADirectoryError). */
  predicate ReadableCategory(d: Entry) {
    d.Dir? ==> forall k :: 0 <= k < |d.entries| && d.entries[k].Dir? ==> !EndsWith(d.entries[k].name, ".txt")
  }

  predicate ReadableCategories(es: seq<Entry>) {
    forall k :: 0 <= k < |es| ==> ReadableCategory(es[k])
  }

  predicate ReadableBook(d: Entry) {
    d.Dir? ==> ReadableCategories(d.entries)
  }

  predicate ReadableBooks(es: seq<Entry>) {
    forall k :: 0 <= k < |es| ==> ReadableBook(es[k])
  }

  /** A data/raw directory the loader can read; None stands for a missing one. */
  predicate ReadableRoot(raw: Option<seq<Entry>>) {
    raw.Some? ==> ReadableBooks(raw.value)
  }

  /** parse_three_parallel_file applied to the text of a file that exists. */
  function ParseFile(text: string): ParsedFile {
    ParseContent(Some(text))
  }

  /** The chapter made from the id-th (1-based) chapter file. The tree
      functions below take the file parser as a parameter `parse`; the
      loader passes ParseFile. */
  function FileChapter(id: nat, f: Entry, parse: string -> ParsedFile): Chapter
    requires ChapterFile(f)
  {
    var parsed := parse(f.content);
    Chapter(id, ChapterTitle(f.name), parsed.wenyan, parsed.zh, parsed.en, parsed.paragraphs)
  }

  /** The chapters of a category: one per chapter file, numbered from 1. */
  function ChapterList(fs: seq<Entry>, parse: string -> ParsedFile): (r: seq<Chapter>)
    requires ChapterFiles(fs)
    ensures |r| == |fs|
  {
    if fs == [] then []
    else
      var n := |fs|;
      ChapterList(fs[..n - 1], parse) + [FileChapter(n, fs[n - 1], parse)]
  }

  /** The chapter files of a category directory, in name order. */
  function SortedChapterFiles(d: Entry): (r: seq<Entry>)
    requires d.Dir? && ReadableCategory(d)
    ensures ChapterFiles(r)
  {
    var txt := TxtEntries(d.entries);
    TxtEntriesExact(d.entries);
    assert ChapterFiles(txt) by {
      forall k | 0 <= k < |txt| ensures ChapterFile(txt[k]) {
        assert txt[k] in txt;
        var j :| 0 <= j < |d.entries| && d.entries[j] == txt[k];
      }
    }
    SortByNameKeeps(txt, ChapterFile);
    SortByName(txt)
  }

  /** The categories of a book, from its entries already in name order:
      directories only, and only those with at least one chapter. */
  function CategoryList(bookId: string, es: seq<Entry>, parse: string -> ParsedFile): (r: seq<Category>)
    requires ReadableCategories(es)
    ensures |r| <= |es|
  {
    if es == [] then []
    else
      var n := |es|;
      var prev := CategoryList(bookId, es[..n - 1], parse);
      var d := es[n - 1];
      if !d.Dir? then prev
      else
        var chapters := ChapterList(SortedChapterFiles(d), parse);
        if chapters == [] then prev
        else prev + [Category(d.name, CategoryTitle(bookId, d.name), chapters)]
  }

  /** A book directory's entries in name order. */
  function SortedEntries(d: Entry): (r: seq<Entry>)
    requires d.Dir? && ReadableBook(d)
    ensures ReadableCategories(r)
  {
    SortByNameKeeps(d.entries, ReadableCategory);
    SortByName(d.entries)
  }

  /** The books, from the root's entries already in name order: directories
      only, and only those with at least one category. */
  function BookList(es: seq<Entry>, parse: string -> ParsedFile): (r: seq<Book>)
    requires ReadableBooks(es)
    ensures |r| <= |es|
  {
    if es == [] then []
    else
      var n := |es|;
      var prev := BookList(es[..n - 1], parse);
      var d := es[n - 1];
      if !d.Dir? then prev
      else
        var categories := CategoryList(d.name, SortedEntries(d), parse);
        if categories == [] then prev
        else prev + [Book(d.name, BookTitle(d.name), categories)]
  }

  /** The root's entries in name order. */
  function SortedRoot(raw: Option<seq<Entry>>): (r: seq<Entry>)
    requires raw.Some? && ReadableRoot(raw)
    ensures ReadableBooks(r)
  {
    SortByNameKeeps(raw.value, ReadableBook);
    SortByName(raw.value)
  }

  /** The whole corpus. */
  function Books(raw: Option<seq<Entry>>, parse: string -> ParsedFile): seq<Book>
    requires ReadableRoot(raw)
  {
    if raw.None? then [] else BookList(SortedRoot(raw), parse)
  }

  // ---------------------------------------------------------------- the loader

  /** The title lines of the chapter loop: drop ".txt", then keep what
      follows the first '_' if there is one. */
  method TitleFromFilename(filename: string) returns (title: string)
    requires |filename| >= 4
    ensures title == ChapterTitle(filename)
  {
    title := filename[..|filename| - 4];
    ContainsChar(title, '_');
    if '_' in title {
      var cut := IndexOf(title, "_");
      title := title[cut + 1..];
    }
  }

  /** The chapter loop: `for i, filename in enumerate(sorted(chapter_files))`. */
  method LoadChapters(fs: seq<Entry>) returns (chapters: seq<Chapter>)
    requires ChapterFiles(fs)
    ensures chapters == ChapterList(fs, ParseFile)
  {
    chapters := [];
    var i := 0;
    while i < |fs|
      invariant 0 <= i <= |fs|
      invariant chapters == ChapterList(fs[..i], ParseFile)
    {
      var f := fs[i];
      var title := TitleFromFilename(f.name);
      var content := ParseThreeParallelFile(Some(f.content));
      ChapterListStep(fs, i, title, content);
      chapters := chapters + [Chapter(i + 1, title, content.wenyan, content.zh, content.en, content.paragraphs)];
      i := i + 1;
    }
    assert fs[..|fs|] == fs;
  }

  lemma ChapterListSnoc(fs: seq<Entry>, i: nat, parse: string -> ParsedFile)
    requires ChapterFiles(fs) && i < |fs|
    ensures ChapterList(fs[..i + 1], parse) == ChapterList(fs[..i], parse) + [FileChapter(i + 1, fs[i], parse)]
  {
    assert fs[..i + 1][..i] == fs[..i];
  }

  /** One turn of the chapter loop appends the chapter of file i. */
  lemma ChapterListStep(fs: seq<Entry>, i: nat, title: string, content: ParsedFile)
    requires ChapterFiles(fs) && i < |fs|
    requires title == ChapterTitle(fs[i].name) && content == ParseContent(Some(fs[i].content))
    ensures ChapterList(fs[..i + 1], ParseFile)
      == ChapterList(fs[..i], ParseFile) + [Chapter(i + 1, title, content.wenyan, content.zh, content.en, content.paragraphs)]
  {
    ChapterListSnoc(fs, i, ParseFile);
  }

  /** The category loop of one book. */
  method LoadCategories(bookId: string, es: seq<Entry>) returns (categories: seq<Category>)
    requires ReadableCategories(es)
    ensures categories == CategoryList(bookId, es, ParseFile)
  {
    categories := [];
    var i := 0;
    while i < |es|
      invariant 0 <= i <= |es|
      invariant categories == CategoryList(bookId, es[..i], ParseFile)
    {
      assert es[..i + 1][..i] == es[..i];
      var d := es[i];
      if d.Dir? {
        var catTitle := CategoryTitle(bookId, d.name);
        var chapters := LoadChapters(SortedChapterFiles(d));
        if chapters != [] {
          categories := categories + [Category(d.name, catTitle, chapters)];
        }
      }
      i := i + 1;
    }
    assert es[..|es|] == es;
  }

  /** `load_books_from_raw`: the book loop over the sorted root. */
  method LoadBooksFromRaw(raw: Option<seq<Entry>>) returns (books: seq<Book>)
    requires ReadableRoot(raw)
    ensures books == Books(raw, ParseFile)
  {
    books := [];
    if raw.None? {
      return;
    }
    var es := SortedRoot(raw);
    var i := 0;
    while i < |es|
      invariant 0 <= i <= |es|
      invariant books == BookList(es[..i], ParseFile)
    {
      BookListStep(es, i, ParseFile);
      var d := es[i];
      if d.Dir? {
        var bookTitle := BookTitle(d.name);
        var categories := LoadCategories(d.name, SortedEntries(d));
        if categories != [] {
          books := books + [Book(d.name, bookTitle, categories)];
        }
      }
      i := i + 1;
    }
    assert es[..|es|] == es;
  }

  /** One turn of the book loop: a directory with categories adds its book. */
  lemma BookListStep(es: seq<Entry>, i: nat, parse: string -> ParsedFile)
    requires ReadableBooks(es) && i < |es|
    ensures ReadableBooks(es[..i]) && ReadableBooks(es[..i + 1])
    ensures !es[i].Dir? ==> BookList(es[..i + 1], parse) == BookList(es[..i], parse)
    ensures es[i].Dir? ==>
      var categories := CategoryList(es[i].name, SortedEntries(es[i]), parse);
      BookList(es[..i + 1], parse) ==
        BookList(es[..i], parse) + (if categories == [] then [] else [Book(es[i].name, BookTitle(es[i].name), categories)])
  {
    assert es[..i + 1][..i] == es[..i];
  }

  // ---------------------------------------------------------------- properties

  /** Chapter ids run 1..n in order. */
  predicate NumberedFromOne(chs: seq<Chapter>) {
    forall k :: 0 <= k < |chs| ==> chs[k].id == k + 1
  }

  /** What the loader guarantees of every category it keeps. */
  predicate LoadedCategory(bookId: string, c: Category) {
    c.chapters != [] && c.title == CategoryTitle(bookId, c.id) && NumberedFromOne(c.chapters)
  }

  /** Categories in non-decreasing order of their directory names. */
  predicate CategoriesOrdered(cs: seq<Category>) {
    forall i, j :: 0 <= i < j < |cs| ==> LexLe(cs[i].id, cs[j].id)
  }

  /** What the loader guarantees of every book it keeps. */
  predicate LoadedBook(b: Book) {
    && b.categories != [] && b.title == BookTitle(b.id)
    && (forall k :: 0 <= k < |b.categories| ==> LoadedCategory(b.id, b.categories[k]))
    && CategoriesOrdered(b.categories)
  }

  /** Chapter k of a category comes from its k-th file: id k + 1, the title
      that file's name gives, and that file's parse. */
  lemma {:induction false} ChapterListAt(fs: seq<Entry>, k: nat, parse: string -> ParsedFile)
    requires ChapterFiles(fs) && k < |fs|
    ensures ChapterList(fs, parse)[k] == FileChapter(k + 1, fs[k], parse)
  {
    var n := |fs|;
    if k < n - 1 {
      ChapterListAt(fs[..n - 1], k, parse);
    }
  }

  lemma ChapterListNumbered(fs: seq<Entry>, parse: string -> ParsedFile)
    requires ChapterFiles(fs)
    ensures NumberedFromOne(ChapterList(fs, parse))
  {
    forall k | 0 <= k < |fs| ensures ChapterList(fs, parse)[k].id == k + 1 {
      ChapterListAt(fs, k, parse);
    }
  }

  /** The categories kept are the book's directories with at least one
      chapter: each one is non-empty, carries its derived title and numbers
      its chapters 1..n. */
  lemma {:induction false} CategoryListLoaded(bookId: string, es: seq<Entry>, parse: string -> ParsedFile)
    requires ReadableCategories(es)
    ensures forall k :: 0 <= k < |CategoryList(bookId, es, parse)| ==> LoadedCategory(bookId, CategoryList(bookId, es, parse)[k])
  {
    if es == [] {
      assert |CategoryList(bookId, es, parse)| == 0;
    } else {
      var n := |es|;
      var init := es[..n - 1];
      CategoryListLoaded(bookId, init, parse);
      var prev := CategoryList(bookId, init, parse);
      var r := CategoryList(bookId, es, parse);
      var d := es[n - 1];
      if r != prev {
        var chapters := ChapterList(SortedChapterFiles(d), parse);
        assert r == prev + [Category(d.name, CategoryTitle(bookId, d.name), chapters)];
        ChapterListNumbered(SortedChapterFiles(d), parse);
      }
    }
  }

  /** Some directory among the entries has this name. */
  predicate NamesADirectory(es: seq<Entry>, name: string) {
    exists j :: 0 <= j < |es| && es[j].Dir? && es[j].name == name
  }

  /** Every category kept is named after a directory of the book. */
  lemma {:induction false} CategoryListFromDirs(bookId: string, es: seq<Entry>, parse: string -> ParsedFile)
    requires ReadableCategories(es)
    ensures forall k :: 0 <= k < |CategoryList(bookId, es, parse)| ==> NamesADirectory(es, CategoryList(bookId, es, parse)[k].id)
  {
    if es == [] {
      assert |CategoryList(bookId, es, parse)| == 0;
    } else {
      var n := |es|;
      var init := es[..n - 1];
      CategoryListFromDirs(bookId, init, parse);
      var prev := CategoryList(bookId, init, parse);
      var r := CategoryList(bookId, es, parse);
      forall k | 0 <= k < |r| ensures NamesADirectory(es, r[k].id) {
        if k < |prev| {
          assert NamesADirectory(init, prev[k].id);
          var j :| 0 <= j < |init| && init[j].Dir? && init[j].name == prev[k].id;
          assert es[j] == init[j];
        } else {
          assert es[n - 1].Dir? && es[n - 1].name == r[k].id;
        }
      }
    }
  }

  /** Every book kept has at least one category, carries its derived title
      and keeps only loaded categories. */
  lemma {:induction false} BookListLoaded(es: seq<Entry>, parse: string -> ParsedFile)
    requires ReadableBooks(es)
    ensures forall k :: 0 <= k < |BookList(es, parse)| ==> LoadedBook(BookList(es, parse)[k])
  {
    if es == [] {
      assert |BookList(es, parse)| == 0;
    } else {
      var n := |es|;
      var init := es[..n - 1];
      BookListLoaded(init, parse);
      var prev := BookList(init, parse);
      var r := BookList(es, parse);
      var d := es[n - 1];
      if r != prev {
        var categories := CategoryList(d.name, SortedEntries(d), parse);
        assert r == prev + [Book(d.name, BookTitle(d.name), categories)];
        CategoryListLoaded(d.name, SortedEntries(d), parse);
        SortByNameSorted(d.entries);
        CategoryListOrdered(d.name, SortedEntries(d), parse);
      }
    }
  }

  /** Every book kept is named after a directory of the root. */
  lemma {:induction false} BookListFromDirs(es: seq<Entry>, parse: string -> ParsedFile)
    requires ReadableBooks(es)
    ensures forall k :: 0 <= k < |BookList(es, parse)| ==> NamesADirectory(es, BookList(es, parse)[k].id)
  {
    if es == [] {
      assert |BookList(es, parse)| == 0;
    } else {
      var n := |es|;
      var init := es[..n - 1];
      BookListFromDirs(init, parse);
      var prev := BookList(init, parse);
      var r := BookList(es, parse);
      forall k | 0 <= k < |r| ensures NamesADirectory(es, r[k].id) {
        if k < |prev| {
          assert NamesADirectory(init, prev[k].id);
          var j :| 0 <= j < |init| && init[j].Dir? && init[j].name == prev[k].id;
          assert es[j] == init[j];
        } else {
          assert es[n - 1].Dir? && es[n - 1].name == r[k].id;
        }
      }
    }
  }

  /** The categories of a book come out in name order when its entries are. */
  lemma {:induction false} CategoryListOrdered(bookId: string, es: seq<Entry>, parse: string -> ParsedFile)
    requires ReadableCategories(es) && SortedByName(es)
    ensures CategoriesOrdered(CategoryList(bookId, es, parse))
  {
    if es != [] {
      var n := |es|;
      var init := es[..n - 1];
      CategoryListOrdered(bookId, init, parse);
      CategoryListFromDirs(bookId, init, parse);
      var prev := CategoryList(bookId, init, parse);
      forall i | 0 <= i < |prev| ensures LexLe(prev[i].id, es[n - 1].name) {
        assert NamesADirectory(init, prev[i].id);
        var j :| 0 <= j < |init| && init[j].Dir? && init[j].name == prev[i].id;
      }
    }
  }

  /** A directory holding at least one entry named *.txt. */
  predicate HasChapterFile(d: Entry) {
    d.Dir? && exists i :: 0 <= i < |d.entries| && EndsWith(d.entries[i].name, ".txt")
  }

  /** A category directory has chapters exactly when it holds a *.txt entry. */
  lemma SortedChapterFilesNonEmpty(d: Entry)
    requires d.Dir? && ReadableCategory(d)
    ensures SortedChapterFiles(d) != [] <==> HasChapterFile(d)
  {
    var txt := TxtEntries(d.entries);
    TxtEntriesExact(d.entries);
    SortByNameSorted(txt);
    assert |SortedChapterFiles(d)| == |multiset(txt)| == |txt|;
    if HasChapterFile(d) {
      var i :| 0 <= i < |d.entries| && EndsWith(d.entries[i].name, ".txt");
      assert d.entries[i] in txt;
    }
  }

  /** The category the loader makes of a directory with chapters. */
  function CategoryOf(bookId: string, d: Entry, parse: string -> ParsedFile): Category
    requires d.Dir? && ReadableCategory(d)
  {
    Category(d.name, CategoryTitle(bookId, d.name), ChapterList(SortedChapterFiles(d), parse))
  }

  /** Every directory of a book that holds a *.txt entry is kept as a
      category. */
  lemma {:induction false} CategoryListKeeps(bookId: string, es: seq<Entry>, parse: string -> ParsedFile, j: nat)
    requires ReadableCategories(es) && j < |es| && HasChapterFile(es[j])
    ensures CategoryOf(bookId, es[j], parse) in CategoryList(bookId, es, parse)
  {
    var n := |es|;
    var init := es[..n - 1];
    var prev := CategoryList(bookId, init, parse);
    if j < n - 1 {
      CategoryListKeeps(bookId, init, parse, j);
      assert init[j] == es[j];
    } else {
      SortedChapterFilesNonEmpty(es[j]);
      assert CategoryList(bookId, es, parse) == prev + [CategoryOf(bookId, es[j], parse)];
    }
  }

  /** The book the loader makes of a directory with categories. */
  function BookOf(d: Entry, parse: string -> ParsedFile): Book
    requires d.Dir? && ReadableBook(d)
  {
    Book(d.name, BookTitle(d.name), CategoryList(d.name, SortedEntries(d), parse))
  }

  /** Every directory of the root that yields a category is kept as a book. */
  lemma {:induction false} BookListKeeps(es: seq<Entry>, parse: string -> ParsedFile, j: nat)
    requires ReadableBooks(es) && j < |es| && es[j].Dir?
    requires CategoryList(es[j].name, SortedEntries(es[j]), parse) != []
    ensures BookOf(es[j], parse) in BookList(es, parse)
  {
    var n := |es|;
    var init := es[..n - 1];
    var prev := BookList(init, parse);
    if j < n - 1 {
      BookListKeeps(init, parse, j);
      assert init[j] == es[j];
    } else {
      assert BookList(es, parse) == prev + [BookOf(es[j], parse)];
    }
  }

  /** Nothing with chapters is dropped: for every book directory of data/raw
      and every category directory in it that holds a *.txt entry, the
      loaded corpus has that book, and the book has that category with its
      chapters. */
  lemma LoadedCorpusComplete(raw: Option<seq<Entry>>, b: nat, c: nat)
    requires ReadableRoot(raw) && raw.Some? && b < |raw.value|
    requires raw.value[b].Dir? && c < |raw.value[b].entries| && HasChapterFile(raw.value[b].entries[c])
    ensures BookOf(raw.value[b], ParseFile) in Books(raw, ParseFile)
    ensures CategoryOf(raw.value[b].name, raw.value[b].entries[c], ParseFile) in BookOf(raw.value[b], ParseFile).categories
  {
    var d := raw.value[b];
    var cat := d.entries[c];
    var es := SortedEntries(d);
    SortByNameSorted(d.entries);
    assert cat in multiset(es);
    var m :| 0 <= m < |es| && es[m] == cat;
    CategoryListKeeps(d.name, es, ParseFile, m);
    var root := SortedRoot(raw);
    SortByNameSorted(raw.value);
    assert d in multiset(root);
    var k :| 0 <= k < |root| && root[k] == d;
    BookListKeeps(root, ParseFile, k);
  }

  /** The loader never yields an empty book or an empty category, titles
      come from the table with the directory name as fallback, chapter ids
      run 1..n, every book is a directory of data/raw, and a missing
      data/raw gives no books. */
  lemma LoadedCorpusShape(raw: Option<seq<Entry>>)
    requires ReadableRoot(raw)
    ensures raw.None? ==> Books(raw, ParseFile) == []
    ensures forall k :: 0 <= k < |Books(raw, ParseFile)| ==> LoadedBook(Books(raw, ParseFile)[k])
    ensures raw.Some? ==> forall k :: 0 <= k < |Books(raw, ParseFile)| ==> NamesADirectory(raw.value, Books(raw, ParseFile)[k].id)
  {
    if raw.Some? {
      var es := SortedRoot(raw);
      BookListLoaded(es, ParseFile);
      BookListFromDirs(es, ParseFile);
      SortByNameSorted(raw.value);
      var books := BookList(es, ParseFile);
      assert Books(raw, ParseFile) == books;
      forall k | 0 <= k < |books| ensures NamesADirectory(raw.value, books[k].id) {
        assert NamesADirectory(es, books[k].id);
        var j :| 0 <= j < |es| && es[j].Dir? && es[j].name == books[k].id;
        assert es[j] in multiset(raw.value);
        var m :| 0 <= m < |raw.value| && raw.value[m] == es[j];
      }
    }
  }

  /** The books come out in name order, as the sorted root listing gives them. */
  lemma {:induction false} BookListOrdered(es: seq<Entry>, parse: string -> ParsedFile)
    requires ReadableBooks(es) && SortedByName(es)
    ensures forall i, j :: 0 <= i < j < |BookList(es, parse)| ==> LexLe(BookList(es, parse)[i].id, BookList(es, parse)[j].id)
  {
    if es != [] {
      var n := |es|;
      var init := es[..n - 1];
      BookListOrdered(init, parse);
      BookListFromDirs(init, parse);
      var prev := BookList(init, parse);
      forall i | 0 <= i < |prev| ensures LexLe(prev[i].id, es[n - 1].name) {
        assert NamesADirectory(init, prev[i].id);
        var j :| 0 <= j < |init| && init[j].Dir? && init[j].name == prev[i].id;
      }
    }
  }

  lemma LoadedBooksOrdered(raw: Option<seq<Entry>>)
    requires ReadableRoot(raw)
    ensures forall i, j :: 0 <= i < j < |Books(raw, ParseFile)| ==> LexLe(Books(raw, ParseFile)[i].id, Books(raw, ParseFile)[j].id)
  {
    if raw.Some? {
      SortByNameSorted(raw.value);
      BookListOrdered(SortedRoot(raw), ParseFile);
    }
  }
}
