/** The batch import tool: safe file names, the chapter file name of a CSV
    row, the book/category registry it extends while importing, and the
    import loop over the rows. Reading the CSV and writing the files are not
    modelled: the rows are a parameter and the files to write are returned. */
module BatchImport {
  import opened Text
  import opened Corpus
  import opened Hierarchy
  import opened ImportContent

  /** `\w` on ASCII: letters, digits and '_'. */
  predicate IsWordChar(c: char) {
    ('a' <= c <= 'z') || ('A' <= c <= 'Z') || ('0' <= c <= '9') || c == '_'
  }

  /** The characters the file-name pattern keeps: word characters and the
      CJK unified ideographs U+4E00..U+9FFF. */
  predicate Allowed(c: char) {
    IsWordChar(c) || ('一' <= c <= '鿿')
  }

  /** re.sub(r'[^\w一-鿿]', '_', text): every other character
      becomes '_'. */
  function Sanitize(s: string): (r: string)
    ensures |r| == |s|
    ensures forall k :: 0 <= k < |s| ==> r[k] == (if Allowed(s[k]) then s[k] else '_')
  {
    if s == [] then [] else Sanitize(s[..|s| - 1]) + [if Allowed(s[|s| - 1]) then s[|s| - 1] else '_']
  }

  const MaxFileNameLength: nat := 50

  /** safe_filename(text, max_length): the text's first max_length
      positions, each allowed character kept in place and each other one
      replaced by '_'; only allowed characters remain. */
  function SafeFilename(text: string, maxLength: nat): (r: string)
    ensures |r| == (if |text| <= maxLength then |text| else maxLength)
    ensures forall k :: 0 <= k < |r| ==> r[k] == (if Allowed(text[k]) then text[k] else '_')
    ensures forall k :: 0 <= k < |r| ==> Allowed(r[k])
  {
    var s := Sanitize(text);
    if |s| <= maxLength then s else s[..maxLength]
  }

  /** Making a safe name safe again changes nothing. */
  lemma SafeFilenameIdempotent(text: string, maxLength: nat)
    ensures SafeFilename(SafeFilename(text, maxLength), maxLength) == SafeFilename(text, maxLength)
  {
    var r := SafeFilename(text, maxLength);
    assert SafeFilename(r, maxLength) == r;
  }

  /** `f"{num:0>2}"`: the string padded on the left with '0' to width 2. */
  function ZeroPad2(num: string): (r: string)
    ensures |r| == (if |num| >= 2 then |num| else 2)
    ensures r[|r| - |num|..] == num
    ensures forall k :: 0 <= k < |r| - |num| ==> r[k] == '0'
  {
    if |num| >= 2 then num else if |num| == 1 then "0" + num else "00"
  }

  /** The file name of an imported chapter: the zero-padded chapter number,
      '_' and the safe title; without a number, just the safe title. */
  function ChapterFileName(chapterNum: string, title: string): (r: string)
    ensures |r| >= 4 && r[|r| - 4..] == ".txt"
    ensures var safe := SafeFilename(title, MaxFileNameLength);
            && |r| >= |safe| + 4 && r[|r| - 4 - |safe|..|r| - 4] == safe
            && (chapterNum == [] ==> |r| == |safe| + 4)
            && (chapterNum != [] ==> |r| == |ZeroPad2(chapterNum)| + 1 + |safe| + 4
                                     && r[..|ZeroPad2(chapterNum)|] == ZeroPad2(chapterNum)
                                     && r[|ZeroPad2(chapterNum)|] == '_')
  {
    if chapterNum != [] then ZeroPad2(chapterNum) + "_" + SafeFilename(title, MaxFileNameLength) + ".txt"
    else SafeFilename(title, MaxFileNameLength) + ".txt"
  }

  /** The first '_' of p + "_" + r is the one after p when p has none. */
  lemma UnderscoreAt(p: string, r: string)
    requires '_' !in p
    ensures IndexOf(p + "_" + r, "_") == |p|
  {
    var x := p + "_" + r;
    assert x[|p|..|p| + 1] == "_";
    forall k | 0 <= k < |p|
      ensures !OccursAt(x, "_", k)
    {
      assert x[k..k + 1] == [p[k]];
    }
    IndexOfLeast(x, "_", |p|);
  }

  lemma FirstUnderscore(p: string, r: string, q: string, s: string)
    requires '_' !in p && '_' !in q
    requires p + "_" + r == q + "_" + s
    ensures r == s
  {
    var x := p + "_" + r;
    UnderscoreAt(p, r);
    UnderscoreAt(q, s);
    assert x[|p| + 1..] == r;
  }

  /** Loading a numbered imported file reads its safe title back: the
      loader drops the name's ".txt" and everything up to the first '_',
      which is the one after the number. */
  lemma NumberedNameTitle(chapterNum: string, title: string)
    requires chapterNum != [] && '_' !in chapterNum
    ensures ChapterTitle(ChapterFileName(chapterNum, title)) == SafeFilename(title, MaxFileNameLength)
  {
    var num := ZeroPad2(chapterNum);
    var safe := SafeFilename(title, MaxFileNameLength);
    var name := ChapterFileName(chapterNum, title);
    assert '_' !in num by {
      forall k | 0 <= k < |num|
        ensures num[k] != '_'
      {
        if k >= |num| - |chapterNum| {
          assert num[k] == chapterNum[k - (|num| - |chapterNum|)];
        }
      }
    }
    assert name[..|name| - 4] == num + "_" + safe;
    var r := ChapterTitle(name);
    assert '_' in num + "_" + safe by {
      assert (num + "_" + safe)[|num|] == '_';
    }
    var p :| '_' !in p && num + "_" + safe == p + "_" + r;
    FirstUnderscore(num, safe, p, r);
  }

  /** A chapter number holding '_' breaks the read-back: the loader cuts at
      the number's first '_', so the title it keeps is longer than the safe
      title (chapter "1_2" with title "T" is written as 1_2_T.txt and read
      back as "2_T"). */
  lemma NumberedNameUnderscore(chapterNum: string, title: string)
    requires '_' in chapterNum
    ensures |ChapterTitle(ChapterFileName(chapterNum, title))| > |SafeFilename(title, MaxFileNameLength)|
  {
    var num := ZeroPad2(chapterNum);
    var safe := SafeFilename(title, MaxFileNameLength);
    var name := ChapterFileName(chapterNum, title);
    var stem := num + "_" + safe;
    assert name[..|name| - 4] == stem;
    var j :| 0 <= j < |chapterNum| && chapterNum[j] == '_';
    var u := |num| - |chapterNum| + j;
    assert num[u] == chapterNum[j];
    assert stem[u] == '_';
    var r := ChapterTitle(name);
    var p :| '_' !in p && stem == p + "_" + r;
  }

  /** An unnumbered file name reads back as its safe title only when that
      title has no '_' (a space or any other replaced character makes one);
      otherwise the loader keeps only what follows the first '_'. */
  lemma UnnumberedNameTitle(title: string)
    ensures var safe := SafeFilename(title, MaxFileNameLength);
            '_' !in safe ==> ChapterTitle(ChapterFileName("", title)) == safe
  {
    var safe := SafeFilename(title, MaxFileNameLength);
    assert ChapterFileName("", title)[..|safe|] == safe;
  }

  /** The registry after registering (book, category): an unknown book gets
      an entry named after its id holding just that category; a known book
      without the category gets it, named after its id; everything already
      registered stays as it was. */
  function Registered(books: map<string, BookConfig>, book: string, category: string): (r: map<string, BookConfig>)
    ensures book in r && category in r[book].categories
    ensures r.Keys == books.Keys + {book}
    ensures forall b :: b in books && b != book ==> r[b] == books[b]
    ensures book in books ==> r[book].name == books[book].name
    ensures book in books ==> forall c :: c in books[book].categories ==>
              c in r[book].categories && r[book].categories[c] == books[book].categories[c]
    ensures book !in books ==> r[book] == BookConfig(book, map[category := category])
    ensures book in books && category !in books[book].categories ==>
              r[book].categories == books[book].categories[category := category]
    ensures book in books && category in books[book].categories ==> r == books
  {
    if book !in books then books[book := BookConfig(book, map[category := category])]
    else if category !in books[book].categories then
      books[book := BookConfig(books[book].name, books[book].categories[category := category])]
    else books
  }

  /** Registering a pair that is already registered changes nothing, so
      registering the same row twice is the same as registering it once. */
  lemma RegisteredTwice(books: map<string, BookConfig>, book: string, category: string)
    ensures Registered(Registered(books, book, category), book, category) == Registered(books, book, category)
  {
  }

  /** One CSV row; a column the file lacks reads as "". */
  datatype Row = Row(book: string, category: string, chapterNum: string, title: string,
                     wenyan: string, zh: string, en: string)

  /** A chapter file the import writes: raw/<book>/<category>/<fileName>. */
  datatype ImportedFile = ImportedFile(book: string, category: string, fileName: string, content: string)

  /** A row is imported only when its book, category and title are non-blank. */
  predicate Complete(row: Row) {
    Strip(row.book) != [] && Strip(row.category) != [] && Strip(row.title) != []
  }

  /** The file a complete row produces, from its stripped fields. */
  function FileOf(row: Row): ImportedFile {
    ImportedFile(Strip(row.book), Strip(row.category),
                 ChapterFileName(Strip(row.chapterNum), Strip(row.title)),
                 ThreeParallel(Strip(row.wenyan), Strip(row.zh), Strip(row.en)))
  }

  /** The files written for the rows, in row order. */
  function ImportedFiles(rows: seq<Row>): (r: seq<ImportedFile>)
    ensures |r| <= |rows|
  {
    if rows == [] then []
    else
      var row := rows[|rows| - 1];
      ImportedFiles(rows[..|rows| - 1]) + (if Complete(row) then [FileOf(row)] else [])
  }

  /** The registry after one row: a complete row registers its book and
      category, an incomplete one changes nothing. */
  function RegisterStep(books: map<string, BookConfig>, row: Row): map<string, BookConfig> {
    if Complete(row) then Registered(books, Strip(row.book), Strip(row.category)) else books
  }

  /** The registry after the rows' registrations. */
  function RegisterRows(books: map<string, BookConfig>, rows: seq<Row>): map<string, BookConfig> {
    if rows == [] then books
    else RegisterStep(RegisterRows(books, rows[..|rows| - 1]), rows[|rows| - 1])
  }

  /** BOOK_CATEGORIES, which the import extends. */
  class BookRegistry {
    var books: map<string, BookConfig>

    constructor ()
      ensures books == FourHistories
    {
      books := FourHistories;
    }

    /** Register a row's book and category. */
    method Register(book: string, category: string)
      modifies this
      ensures books == Registered(old(books), book, category)
    {
      if book !in books {
        books := books[book := BookConfig(book, map[category := category])];
      } else if category !in books[book].categories {
        var config := books[book];
        books := books[book := BookConfig(config.name, config.categories[category := category])];
      }
    }

    /** import_from_csv over the rows: skip incomplete rows, register the
        rest, and produce each row's chapter file. */
    method ImportRows(rows: seq<Row>) returns (files: seq<ImportedFile>)
      modifies this
      ensures files == ImportedFiles(rows)
      ensures books == RegisterRows(old(books), rows)
    {
      files := [];
      var i := 0;
      while i < |rows|
        invariant i <= |rows|
        invariant files == ImportedFiles(rows[..i])
        invariant books == RegisterRows(old(books), rows[..i])
      {
        var row := rows[i];
        ImportSnoc(old(books), rows, i);
        var bookId := Strip(row.book);
        var categoryId := Strip(row.category);
        var chapterNum := Strip(row.chapterNum);
        var title := Strip(row.title);
        if bookId == [] || categoryId == [] || title == [] {
          i := i + 1;
          continue;
        }
        Register(bookId, categoryId);
        var fileName := ChapterFileName(chapterNum, title);
        var content := CreateThreeParallelContent(Strip(row.wenyan), Strip(row.zh), Strip(row.en));
        files := files + [ImportedFile(bookId, categoryId, fileName, content)];
        i := i + 1;
      }
      assert rows[..i] == rows;
    }
  }

  /** One more row: its file, if any, and its registration come last. */
  lemma ImportSnoc(books: map<string, BookConfig>, rows: seq<Row>, i: nat)
    requires i < |rows|
    ensures ImportedFiles(rows[..i + 1])
            == ImportedFiles(rows[..i]) + (if Complete(rows[i]) then [FileOf(rows[i])] else [])
    ensures RegisterRows(books, rows[..i + 1]) == RegisterStep(RegisterRows(books, rows[..i]), rows[i])
  {
    assert rows[..i + 1][..i] == rows[..i];
  }

  /** Every complete row gives its file. */
  lemma {:induction false} CompleteRowImported(rows: seq<Row>, k: nat)
    requires k < |rows| && Complete(rows[k])
    ensures FileOf(rows[k]) in ImportedFiles(rows)
  {
    var init := rows[..|rows| - 1];
    if k < |init| {
      CompleteRowImported(init, k);
      assert init[k] == rows[k];
    }
  }

  /** Every file comes from a complete row. */
  lemma {:induction false} ImportedFromCompleteRow(rows: seq<Row>, f: ImportedFile)
    requires f in ImportedFiles(rows)
    ensures exists k :: 0 <= k < |rows| && Complete(rows[k]) && f == FileOf(rows[k])
  {
    var init := rows[..|rows| - 1];
    var last := rows[|rows| - 1];
    if f in ImportedFiles(init) {
      ImportedFromCompleteRow(init, f);
      var k :| 0 <= k < |init| && Complete(init[k]) && f == FileOf(init[k]);
      assert rows[k] == init[k];
    } else {
      assert Complete(last) && f == FileOf(last);
    }
  }

  /** After the import, every complete row's book and category are
      registered. */
  lemma {:induction false} RegisterRowsCovers(books: map<string, BookConfig>, rows: seq<Row>)
    ensures forall k :: 0 <= k < |rows| && Complete(rows[k]) ==>
              Strip(rows[k].book) in RegisterRows(books, rows)
              && Strip(rows[k].category) in RegisterRows(books, rows)[Strip(rows[k].book)].categories
  {
    if rows != [] {
      var init := rows[..|rows| - 1];
      RegisterRowsCovers(books, init);
      RegisteredKeeps(RegisterRows(books, init), rows[|rows| - 1]);
      forall k | 0 <= k < |init|
        ensures rows[k] == init[k]
      {
      }
    }
  }

  /** Registering a row keeps every book and category already registered,
      under the same names. */
  lemma RegisteredKeeps(before: map<string, BookConfig>, row: Row)
    ensures var r := RegisterStep(before, row);
            && (forall b :: b in before ==> b in r && r[b].name == before[b].name)
            && (forall b, c :: b in before && c in before[b].categories ==>
                  c in r[b].categories && r[b].categories[c] == before[b].categories[c])
  {
  }

  /** After the import, every book and category registered before keeps its
      name. */
  lemma {:induction false} RegisterRowsKeeps(books: map<string, BookConfig>, rows: seq<Row>)
    ensures var r := RegisterRows(books, rows);
            && (forall b :: b in books ==> b in r && r[b].name == books[b].name)
            && (forall b, c :: b in books && c in books[b].categories ==>
                  c in r[b].categories && r[b].categories[c] == books[b].categories[c])
  {
    if rows != [] {
      var init := rows[..|rows| - 1];
      RegisterRowsKeeps(books, init);
      RegisteredKeeps(RegisterRows(books, init), rows[|rows| - 1]);
    }
  }
}
