# Four Histories three-parallel corpus — a verified model

The website serves the Four Histories (史记, 汉书, 后汉书, 三国志) as a
three-parallel corpus: every paragraph is given in classical Chinese
(wenyan, 文言文), modern Chinese (baihua / zh, 白话文) and English. This
project models the core of the site and of its two companion scripts:

- **The three-parallel file format.** A chapter file is a series of groups
  separated by a blank line (`"\n\n"`). Each group holds up to three
  non-blank lines: wenyan, zh, en. `ParallelText` models the parser in
  `app.py` and its copy in `build_static.py`. `ImportContent` models the
  writer `create_three_parallel_content` of `batch_import.py`, and proves
  the round trip between writer and parser.
- **The corpus tree.** `data/raw/<book>/<category>/<chapter>.txt` is modelled
  in `Hierarchy` as a directory-tree value. The model covers the
  name-sorted traversal, the chapter titles taken from file names, the
  1-based chapter ids, the fixed four-book title table, and the dropping of
  empty categories and books.
- **Search and statistics.** These live in `Highlight`, `Search`,
  `SearchProperties`, `CorpusSearch` and `Statistics`.
  - `highlight_text` marks every occurrence of the query, ignoring case.
  - `search_in_books` returns title and content matches with a ±50-character
    context, scored by match count and stable-sorted by score.
  - `search_corpus` is the older entry filter.
  - `get_statistics` counts books, categories, chapters and paragraphs.
- **The older single-language format.** This is `LegacyChapters`: a
  `wenyan.txt`/`zh.txt`/`en.txt` triple split into chapters at `"## "`
  header lines, then merged chapter by chapter. `Navigation` covers the
  previous/next chapter links.
- **Batch import.** `BatchImport` covers `safe_filename`, the zero-padded
  chapter file name, and the registration of new books and categories in
  `BOOK_CATEGORIES`. The registry is a class whose map field the import
  updates in place. It also covers the CSV row loop, which skips incomplete
  rows.

`Text` gives Python's string operations exact definitions: `strip` (over
`str.isspace`), `lower`, `find`/`in`, `split`, `join` and `splitlines`.
The search and parsing code depends on all of them.

Loops in the source are methods with loop invariants. Each method is proved
equal to a specification function that recurses from the end of its input.
The properties the site relies on are lemmas about those functions.

Some behaviours of the code show up in the contracts:

- **A missing first language shifts the columns.** When a paragraph has no
  wenyan text, the writer puts the zh line first. The parser then reads it
  as wenyan (`ImportContent.MissingOriginalShifts`). The model records this
  and does not change it.
- **Unnumbered file names can lose part of the title.** A file name written
  without a chapter number reads back as the safe title only when that title
  has no `'_'`. `safe_filename` turns spaces into `'_'`, and the loader then
  keeps only what follows the first `'_'` (`BatchImport.UnnumberedNameTitle`).
  With a chapter number that has no `'_'`, the title always reads back
  (`BatchImport.NumberedNameTitle`). A chapter number that holds `'_'` is cut
  there: number "1_2" with title "T" gives `1_2_T.txt`, which reads back as
  "2_T" (`BatchImport.NumberedNameUnderscore`).
- **The merge's `max` branch never runs.** The legacy chapter splitter never
  returns an empty list, so the merge count is always the minimum of the
  three chapter counts. That branch is unreachable
  (`LegacyChapters.LoadLegacyBook`).
- **The splitter's whole-text fallback rarely applies.** The fallback
  "whole text as one chapter" (app.py:137-139) applies only when the text has
  no lines, or when every line is a `"## "` header with a blank title
  (`LegacyChapters.ParseLinesEmpty`). A text without headers is still one
  chapter with an empty title. Its content is the lines re-joined with
  `"\n"` and stripped (`LegacyChapters.NoHeaderSingle`). That content
  differs from `text.strip()` when the text uses `"\r\n"` or another line
  break.

## Model

| member | source | states |
|---|---|---|
| ParallelText.ParseThreeParallelFile | app.py:143-207 | the parser's result equals the specification `ParseContent`: a missing or blank file gives empty strings and no paragraphs; otherwise one paragraph per group with a non-blank line, and each column joined by `"\n\n"` |
| ParallelText.CollectGroups | app.py:159-200 | the group loop builds exactly the aligned paragraphs of the non-blank groups, and the three column lists are those paragraphs' fields in order |
| ParallelText.ParseThreeParallelStatic | build_static.py:18-63 | the static-site copy of the parser yields the same wenyan, zh and en strings as app.py's parser for every file |
| ParallelText.CollectColumns | build_static.py:34-57 | the static copy's group loop builds the same three column lists as app.py's loop |
| ParallelText.TrimNonBlank | app.py:167 | the lines kept from a group are non-empty and stripped, and are no more than the group's lines |
| ParallelText.GroupLines | app.py:167 | the lines of a group are non-empty, stripped and hold no `"\n"` (other line-break characters such as `"\u2028"` can remain, as with `split('\n')`) |
| ParallelText.AlignAllAt | app.py:169-200 | paragraph k is the alignment of group k: three or more lines give (l1, l2, l3), two give (l1, l2, ""), one gives (l1, "", "") |
| ParallelText.NonBlankGroupsClean | app.py:166-200 | every group that yields a paragraph has at least one clean line |
| ParallelText.ParseStep | app.py:166-200 | a group without a non-blank line adds no paragraph; any other group adds its aligned paragraph and that paragraph's fields to the columns |
| ParallelText.ParseContentWellFormed | app.py:166-200 | every parsed paragraph has a non-empty wenyan field; no field holds a `"\n"`; an empty zh forces an empty en |
| ParallelText.ParseContentOfBlank | app.py:151-156 | a whitespace-only file parses to empty strings and no paragraphs |
| ParallelText.ColumnsSplitBack | app.py:202-207 | splitting a returned column at `"\n\n"` gives back exactly that column of the paragraphs, empty fields included |
| ParallelText.LinesSplitBack | app.py:202-207 | single-line pieces joined with `"\n\n"` split back into the same pieces |
| Hierarchy.ChapterTitle | app.py:253-256 | the title is the file name without its last four characters, cut after the first `'_'` when there is one |
| Hierarchy.TitleFromFilename | app.py:253-256 | the title computed from a file name equals `ChapterTitle` |
| Hierarchy.BookTitle | app.py:220-234 | a book in the four-book table gets that table's name; any other book is titled by its id |
| Hierarchy.CategoryTitle | app.py:233-243 | a category listed for its book gets the table's title; any other category is titled by its directory name |
| Hierarchy.TxtEntriesExact | app.py:247 | the chapter files are exactly the entries whose names end in `.txt` |
| Hierarchy.SortByNameSorted | app.py:227-249 | `sorted()` on names gives a name-ordered permutation of the entries |
| Hierarchy.LoadChapters | app.py:246-268 | the chapter loop yields one chapter per file in name order, each with its id, title and parsed content |
| Hierarchy.LoadCategories | app.py:237-275 | the category loop keeps the directories of a book that have at least one chapter, in name order |
| Hierarchy.LoadBooksFromRaw | app.py:209-284 | the loader's result equals the tree specification `Books`; a missing raw directory gives no books |
| Hierarchy.ChapterListAt | app.py:249-268 | chapter k comes from the k-th chapter file: id k+1, the title its name gives, its parsed content |
| Hierarchy.ChapterListNumbered | app.py:249-262 | the chapters of a category are numbered 1..n |
| Hierarchy.LoadedCorpusShape | app.py:215-284 | every loaded book has at least one category and its table title; every category has at least one chapter, numbered 1..n, and its table title; a book's categories are in name order; every book comes from a directory of the root |
| Hierarchy.LoadedCorpusComplete | app.py:236-282 | nothing with chapters is dropped: for every book directory and every category directory in it holding a `.txt` entry, the loaded corpus has that book, with that category and its chapters |
| Hierarchy.CategoryListKeeps | app.py:238-275 | every directory of a book holding a `.txt` entry becomes one of the book's categories |
| Hierarchy.BookListKeeps | app.py:227-282 | every directory of the root that yields a category becomes a book |
| Hierarchy.SortedChapterFilesNonEmpty | app.py:247-249 | a category directory has chapter files exactly when it holds an entry named `*.txt` |
| Hierarchy.CategoryListOrdered | app.py:238-241 | the categories come out in name order |
| Hierarchy.CategoryListFromDirs | app.py:238-241 | every kept category is named after a directory of its book |
| Hierarchy.LoadedBooksOrdered | app.py:227 | the books come in non-decreasing order of their ids |
| Highlight.HighlightText | app.py:17-20 | an empty query or an empty text comes back unchanged |
| Highlight.PiecesDecompose | app.py:22-23 | the substitution cuts the text into marked occurrences and copied characters; no copied character starts an occurrence, ignoring case |
| Highlight.PiecesUnique | app.py:22-23 | that left-to-right, non-overlapping decomposition is the only one |
| Highlight.HitMatches | app.py:22-23 | every marked piece is an occurrence of the query at its offset in the text |
| Highlight.HighlightNoMatch | app.py:17-23 | a text without an occurrence of the query comes back unchanged |
| Highlight.MatchesAtLower | app.py:23 | a case-insensitive match of the pattern is an occurrence of the lowered query in the lowered text |
| Search.SearchInBooks | app.py:25-82 | the search loops yield exactly the specification `SearchInBooksSpec` |
| Search.MatchChapter | app.py:39-69 | a chapter's matches are its title match, if searched and present, then its content matches |
| Search.MatchContent | app.py:51-69 | the content matches of a chapter are those of its paragraphs in order |
| Search.MatchParagraph | app.py:53-69 | a paragraph's matches are its wenyan, baihua and english matches in that order |
| Search.MatchLanguage | app.py:56-69 | one language gives one match, holding the context and its highlight, exactly when the lowered text contains the key |
| Search.QueryKey | app.py:28 | the search key is the lowered, stripped query, no longer than the query |
| Search.ContextBounds | app.py:58-60 | the context window contains the first occurrence of the key, lies within the text, and spans at most len(query) + 100 characters |
| SearchProperties.SearchEmptyCases | app.py:28-35 | a blank key, a scope other than all/title/content, or a non-empty filter naming no book gives no results |
| SearchProperties.SearchMembers | app.py:33-78 | a result is exactly a chapter of a book that passes the filter and has at least one match in the searched scope |
| SearchProperties.SearchScores | app.py:71-78 | every result's score is its number of matches, and is at least 1 |
| SearchProperties.SearchOrder | app.py:80-81 | results are in non-increasing score; among equal scores they keep traversal order (stable sort) |
| SearchProperties.SortByScoreSorted | app.py:81 | the sort gives a score-ordered permutation |
| SearchProperties.SortByScoreStable | app.py:81 | for every score, the results with that score keep their relative order |
| SearchProperties.ChapterMatchesOrdered | app.py:39-69 | a title match comes first and exists exactly when titles are searched and the title contains the key; content matches follow in paragraph and language order |
| SearchProperties.ChapterMatchesSound | app.py:50-69 | every content match names a paragraph 1..n, holds that paragraph, and its language's text contains the key |
| SearchProperties.ChapterMatchesComplete | app.py:51-69 | when content is searched, every paragraph and language whose text contains the key has a match |
| SearchProperties.ContextHoldsKey | app.py:58-60 | the context window still contains the key |
| SearchProperties.LangMatchShape | app.py:56-69 | one language yields at most one match, and none exactly when its text lacks the key |
| SearchProperties.BookResultsOutOfScope | app.py:42-51 | with an unknown scope no chapter has a match |
| SearchProperties.BookResultsFilteredOut | app.py:34-35 | when no book passes the filter there are no results |
| CorpusSearch.SearchCorpus | app.py:300-313 | the filter loop yields the specification: every entry for an empty query, otherwise the entries whose lowered title or one of whose three texts contains the lowered query |
| CorpusSearch.FilteredMembers | app.py:303-313 | for a non-empty query an entry is returned exactly when it is kept, and the result is no longer than the input |
| CorpusSearch.KeptPositionsSelect | app.py:304-313 | result i is the input entry at the i-th kept position |
| CorpusSearch.KeptPositionsIncreasing | app.py:304-313 | the kept positions increase strictly, so the order is kept and no entry is returned twice |
| CorpusSearch.KeptPositionsCover | app.py:304-313 | a position is kept exactly when its entry matches |
| Statistics.GetStatistics | app.py:84-114 | total_books is the number of books; each other total is the sum of the matching per-book field; books_detail lists each book's counts in order |
| Statistics.CountBook | app.py:95-106 | a book's counts are its number of categories, of chapters across categories, and of paragraphs across chapters |
| Statistics.TotalsCountCorpus | app.py:84-114 | the category, chapter and paragraph totals equal the sizes of the corpus's flattened category, chapter and paragraph lists |
| Statistics.DetailsAt | app.py:94-108 | detail i is the counts of book i |
| LegacyChapters.SplitChapters | app.py:116-140 | the splitter's result equals the specification `Sections`: the line scan, the last chapter closed, and the whole-text fallback |
| LegacyChapters.ScanLines | build_static.py:159-171 | the line loop's three pieces of state are those of the scan specification |
| LegacyChapters.Sections | build_static.py:159-176 | the splitter never returns an empty list |
| LegacyChapters.ParseLinesEmpty | build_static.py:164-174 | the scan yields no chapter exactly when every line is a header with a blank title |
| LegacyChapters.NoHeaderSingle | build_static.py:159-176 | text without a header line is one chapter with an empty title and the stripped, re-joined lines as content |
| LegacyChapters.SectionsTrimmed | build_static.py:164-175 | every chapter's title and content are stripped |
| LegacyChapters.FormatRoundTrip | build_static.py:164-173 | chapters written as a header line plus content lines scan back to the same chapters, when titles are non-blank and no content line looks like a header |
| LegacyChapters.MergeLegacy | build_static.py:181-188 | the merge makes min(counts) chapters when all three lists are non-empty, else max(counts); chapter i has id i+1, the three contents ("" when missing) and the merged title |
| LegacyChapters.MergedTitle | build_static.py:187 | the merged title is non-empty and is one of the three titles or the fallback |
| LegacyChapters.FallbackTitle | build_static.py:187 | the fallback title 第N章 is non-empty |
| LegacyChapters.LoadLegacyBook | build_static.py:143-199 | a legacy book is titled by its id and has one category ("default", "章节"); its chapters number the minimum of the three chapter counts, with ids 1..n, each language's contents, no paragraphs, and as title the first non-empty one of the three languages' titles, else 第N章 |
| Navigation.ChapterPage | app.py:356-372 | the page of a chapter id is the first chapter with that id together with its neighbour links; it is none (the 404 answer) exactly when no chapter has the id |
| Navigation.NeighbourLinks | app.py:361-372 | the previous link exists exactly when i > 0, the next link exactly when i < len-1 |
| Navigation.FindChapter | app.py:359-363 | the lookup returns the first position whose chapter has the id, or none when no chapter has it |
| Navigation.PageLinks | build_static.py:243-251 | in a category numbered 1..n, chapter id's page links to id-1 exactly when id > 1 and to id+1 exactly when id < n |
| Navigation.NextThenPrev | app.py:367-372 | following a next link and then that page's previous link returns to the starting chapter |
| Navigation.MissingChapter | app.py:359-360 | an id outside 1..n finds no chapter page |
| ImportContent.CreateThreeParallelContent | batch_import.py:34-65 | the writer's output equals the specification `ThreeParallel`: "" when all three inputs are empty, otherwise the groups joined by `"\n\n"` |
| ImportContent.ParallelGroups | batch_import.py:48-63 | the group loop yields one group per index up to the largest paragraph count, each the present paragraphs in order w, z, e joined by `"\n"` |
| ImportContent.ParasGood | batch_import.py:43-45 | every paragraph kept from a split is non-empty, stripped and holds no `"\n\n"` |
| ImportContent.GroupsHaveNoBlankLine | batch_import.py:43-65 | there are exactly max(|w|, |z|, |e|) groups, and no group is empty, unstripped or holds `"\n\n"` |
| ImportContent.GroupsCount | batch_import.py:51-63 | group i is the present paragraphs at index i joined by `"\n"`; none is skipped |
| ImportContent.ContentGroups | batch_import.py:65 | splitting the writer's output at `"\n\n"` gives back exactly the groups |
| ImportContent.RoundTrip | batch_import.py:43-65 | when the three texts have the same number of single-line paragraphs, app.py's parser reads the written content back as exactly the triples (w_i, z_i, e_i) |
| ImportContent.MissingOriginalShifts | batch_import.py:57-60 | when the wenyan paragraph is missing, the zh line is parsed as wenyan and the en line as zh |
| BatchImport.SafeFilename | batch_import.py:28-32 | the safe name keeps each allowed character, turns every other one into `'_'`, is cut to max_length, and holds only allowed characters |
| BatchImport.Sanitize | batch_import.py:31 | the substitution replaces each disallowed character by exactly one `'_'`, so the length is kept |
| BatchImport.SafeFilenameIdempotent | batch_import.py:28-32 | applying `safe_filename` twice equals applying it once |
| BatchImport.ZeroPad2 | batch_import.py:105 | the chapter number is left-padded with `'0'` to width 2 and otherwise kept |
| BatchImport.ChapterFileName | batch_import.py:104-107 | the file name ends in `.txt` preceded by the safe title; with a chapter number it starts with the zero-padded number followed by `'_'`, and without one it is just the safe title and `.txt`; `NumberedNameTitle` shows the loader reads the title back |
| BatchImport.NumberedNameTitle | batch_import.py:104-105 | when the chapter number has no `'_'`, the loader reads the title of a numbered file name back as the safe title |
| BatchImport.NumberedNameUnderscore | batch_import.py:104-105 | when the chapter number holds a `'_'`, the title the loader reads back is longer than the safe title, so it is not the title written |
| BatchImport.UnnumberedNameTitle | batch_import.py:106-107 | an unnumbered file name reads back as the safe title when the safe title has no `'_'` |
| BatchImport.Registered | batch_import.py:91-97 | after registration the book and category are present; an unknown book gets {name: id, categories: {category: category}}; a known book gains only the missing category; a pair already registered leaves the registry unchanged; every other entry is unchanged |
| BatchImport.RegisteredTwice | batch_import.py:91-97 | registering the same book and category twice gives the same registry as registering them once |
| BatchImport.BookRegistry.constructor | batch_import.py:21-26 | the registry starts as the four-book table |
| BatchImport.BookRegistry.Register | batch_import.py:91-97 | the registry map becomes the registered map |
| BatchImport.BookRegistry.ImportRows | batch_import.py:78-118 | the files written are those of the complete rows in order, and the registry has registered every complete row |
| BatchImport.CompleteRowImported | batch_import.py:79-115 | every row with non-blank book, category and title gets its file |
| BatchImport.ImportedFromCompleteRow | batch_import.py:87-89 | every written file comes from a complete row |
| BatchImport.RegisterRowsCovers | batch_import.py:91-97 | after the import every complete row's book and category are registered |
| BatchImport.RegisterRowsKeeps | batch_import.py:91-97 | every book and category registered before the import keeps its name |
| Text.StripShape | app.py:167 | `strip()` gives a stripped slice of the input, empty exactly when the input is all whitespace |
| Text.StripIdempotent | batch_import.py:43 | stripping twice equals stripping once |
| Text.JoinSplit | app.py:159 | joining the pieces of a split with the separator gives back the text |
| Text.SplitJoin | app.py:202-207 | pieces that contain no separator, even where they meet, split back out of their join |
| Text.IndexOf | app.py:58 | `find` returns the first occurrence, or -1 exactly when there is none |
| Text.SplitLines | app.py:121 | `splitlines` gives lines free of line breaks, and none for an empty text |
| Text.LexLeTotal | app.py:227 | the name order `sorted()` uses is total |

## Left out

- Flask routes, templates, `render_template`, `jsonify` and the HTML written by `build_static.py` (app.py:316-445, build_static.py:204-291). Only the previous/next links computed there are modelled. Looking up the book and category of a chapter page is left out too, as are the 404 answers for an unknown book or category; the 404 for an unknown chapter id is `Navigation.ChapterPage` returning none.
- File-system access. Chapter files are given as contents, meaning the text Python's text-mode `open().read()` returns: universal newlines have already turned `"\r\n"` and `"\r"` into `"\n"`, so the parser is only meant for text with `"\n"` line ends (raw CRLF text would hold no `"\n\n"` separator and group differently). The legacy splitter takes any text, and other line breaks such as `"\x85"` or `"\u2028"` survive text mode. A missing file is `None`, and a missing legacy file is the empty text. The directory tree is a value whose directory listings are name sequences. Writing files is left out; the import returns the file records it would write.
- `load_corpus` reading JSON (app.py:292-297). `search_corpus` takes the entry list as a parameter. The module-level `BOOKS` is a parameter too.
- The three-level branch of `build_static.py`'s `load_books_from_raw` (build_static.py:91-141). It reads the parsed file's `paragraphs` key, which that file's parser never returns (build_static.py:59-63), so it raises `KeyError`. The three-level builder is modelled from app.py.
- The `has_categories` probe that chooses between the two formats (build_static.py:86-89), which inspects the file system.
- Reading CSV with `csv.DictReader`, `import_from_excel`, `import_single_txt`, `create_template_csv`, `validate_data`, `main` and all `print` output. They are file and console wrappers around the modelled helpers.
- CSV columns: a row is given as a `Row` value. An optional column missing from the file reads as "". A missing required column makes the source raise `KeyError`, which is not modelled. Two rows that name the same file both appear in the import's list, where the second write would replace the first.
- `None` arguments to `create_three_parallel_content`. The source treats them as "", so the model takes strings.
- Unicode case mapping. `lower()` and `re.IGNORECASE` fold only ASCII A–Z, so `lower()` keeps the length. Python folds more letters.
- Text.Lower: does not model Python's full Unicode lowering; it folds ASCII A–Z only, so that lowered indices stay valid for the original text.
- BatchImport.IsWordChar: `\w` is ASCII letters, digits and `'_'`; other Unicode letters and digits that Python's `\w` accepts are treated as disallowed. The CJK range 一–鿿 that the source names is allowed.
- Python's `sorted()` and `list.sort` are library calls. The model defines them as insertion sorts on values and proves them sorted, permutations and (for the score sort) stable. Text order compares code points.
- Hierarchy.ReadableCategory: the loader is modelled only for trees in which no sub-directory of a category is named `*.txt`. For such a directory the source tries to open it as a chapter and raises `IsADirectoryError`; the model does not cover that error.
- Exceptions other than a missing file, file encodings, and concurrency.
