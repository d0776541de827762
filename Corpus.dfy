/** The in-memory corpus tree (book -> category -> chapter -> paragraph) that
    the hierarchy builder produces and search and statistics read, and the
    fixed title table of the four histories. */
module Corpus {

  datatype Option<T> = None | Some(value: T)

  /** One aligned group: classical original, vernacular paraphrase, English. */
  datatype Paragraph = Paragraph(wenyan: string, zh: string, en: string)

  /** `id` is the 1-based position in the category; `wenyan`, `zh` and `en`
      are the whole-chapter strings; `paragraphs` the aligned groups. */
  datatype Chapter = Chapter(id: nat, title: string, wenyan: string, zh: string, en: string,
                             paragraphs: seq<Paragraph>)

  datatype Category = Category(id: string, title: string, chapters: seq<Chapter>)

  datatype Book = Book(id: string, title: string, categories: seq<Category>)

  /** A book's display name and its category-id -> category-name table. */
  datatype BookConfig = BookConfig(name: string, categories: map<string, string>)

  /** The title table shared by the server, the static builder and the import tool. */
  const FourHistories: map<string, BookConfig> := map[
    "shiji" := BookConfig("史记", map["benji" := "本纪", "shijia" := "世家", "liezhuan" := "列传", "shu" := "书", "biao" := "表"]),
    "hanshu" := BookConfig("汉书", map["benji" := "本纪", "biao" := "表", "zhi" := "志", "liezhuan" := "列传"]),
    "houhanshu" := BookConfig("后汉书", map["liezhuan" := "列传", "diji" := "帝纪", "shu" := "书"]),
    "sanguozhi" := BookConfig("三国志", map["wei" := "魏书", "shu" := "蜀书", "wu" := "吴书"])
  ]

  /** Every chapter of a list of categories, in traversal order. */
  function CategoryChapters(cats: seq<Category>): seq<Chapter>
  {
    if cats == [] then [] else CategoryChapters(cats[..|cats| - 1]) + cats[|cats| - 1].chapters
  }

  /** Every chapter of the corpus, in book -> category -> chapter order. */
  function AllChapters(books: seq<Book>): seq<Chapter>
  {
    if books == [] then [] else AllChapters(books[..|books| - 1]) + CategoryChapters(books[|books| - 1].categories)
  }

  /** Every category of the corpus, in book -> category order. */
  function AllCategories(books: seq<Book>): seq<Category>
  {
    if books == [] then [] else AllCategories(books[..|books| - 1]) + books[|books| - 1].categories
  }

  /** Every paragraph of a list of chapters, in order. */
  function ChapterParagraphs(chs: seq<Chapter>): seq<Paragraph>
  {
    if chs == [] then [] else ChapterParagraphs(chs[..|chs| - 1]) + chs[|chs| - 1].paragraphs
  }
}
