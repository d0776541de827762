/** The previous/next chapter links of a chapter page: a link to the
    neighbouring chapter in the same category, when there is one. */
module Navigation {
  import opened Text
  import opened Corpus
  import opened Hierarchy

  datatype Links = Links(prev: Option<string>, next: Option<string>)

  /** The URL of a chapter page. */
  function ChapterUrl(bookId: string, categoryId: string, chapterId: nat): string {
    "/book/" + bookId + "/" + categoryId + "/chapter/" + NatToString(chapterId) + "/"
  }

  /** The links of the chapter at position i of its category. */
  function NeighbourLinks(bookId: string, categoryId: string, chapters: seq<Chapter>, i: nat): (l: Links)
    requires i < |chapters|
    ensures l.prev.Some? <==> i > 0
    ensures l.next.Some? <==> i < |chapters| - 1
  {
    Links(if i > 0 then Some(ChapterUrl(bookId, categoryId, chapters[i - 1].id)) else None,
          if i < |chapters| - 1 then Some(ChapterUrl(bookId, categoryId, chapters[i + 1].id)) else None)
  }

  /** The position of the first chapter with the given id, as the chapter
      page looks it up. */
  function FindChapter(chapters: seq<Chapter>, id: nat): (r: Option<nat>)
    ensures r.Some? ==> r.value < |chapters| && chapters[r.value].id == id
                        && forall j :: 0 <= j < r.value ==> chapters[j].id != id
    ensures r.None? ==> forall j :: 0 <= j < |chapters| ==> chapters[j].id != id
  {
    if chapters == [] then None
    else if chapters[0].id == id then Some(0)
    else match FindChapter(chapters[1..], id)
         case None => None
         case Some(k) => Some(k + 1)
  }

  /** Looking a chapter up by its id finds its own position. */
  lemma FindNumbered(chapters: seq<Chapter>, k: nat)
    requires NumberedFromOne(chapters) && k < |chapters|
    ensures FindChapter(chapters, chapters[k].id) == Some(k)
  {
  }

  /** The chapter page for a category and a chapter id: the chapter found
      and its links, or None when no chapter has that id. */
  function ChapterPage(bookId: string, categoryId: string, chapters: seq<Chapter>, id: nat): (r: Option<(Chapter, Links)>)
    ensures r.None? <==> forall j :: 0 <= j < |chapters| ==> chapters[j].id != id
    ensures r.Some? ==> exists i :: && 0 <= i < |chapters| && chapters[i].id == id
                                    && (forall j :: 0 <= j < i ==> chapters[j].id != id)
                                    && r.value == (chapters[i], NeighbourLinks(bookId, categoryId, chapters, i))
  {
    match FindChapter(chapters, id)
    case None => None
    case Some(i) => Some((chapters[i], NeighbourLinks(bookId, categoryId, chapters, i)))
  }

  /** In a category numbered 1..n, the page of chapter id has a previous link
      exactly when id > 1, to chapter id - 1, and a next link exactly when
      id < n, to chapter id + 1. */
  lemma PageLinks(bookId: string, categoryId: string, chapters: seq<Chapter>, id: nat)
    requires NumberedFromOne(chapters) && 1 <= id <= |chapters|
    ensures var page := ChapterPage(bookId, categoryId, chapters, id);
            && page.Some? && page.value.0.id == id
            && (page.value.1.prev.Some? <==> id > 1)
            && (id > 1 ==> page.value.1.prev == Some(ChapterUrl(bookId, categoryId, id - 1)))
            && (page.value.1.next.Some? <==> id < |chapters|)
            && (id < |chapters| ==> page.value.1.next == Some(ChapterUrl(bookId, categoryId, id + 1)))
  {
    FindNumbered(chapters, id - 1);
  }

  /** Following the next link and then the previous link comes back: the
      chapter the next link of position i names has a previous link to the
      chapter at position i. */
  lemma NextThenPrev(bookId: string, categoryId: string, chapters: seq<Chapter>, i: nat)
    requires NumberedFromOne(chapters) && i + 1 < |chapters|
    ensures var page := ChapterPage(bookId, categoryId, chapters, chapters[i + 1].id);
            page.Some? && page.value.1.prev == Some(ChapterUrl(bookId, categoryId, chapters[i].id))
  {
    FindNumbered(chapters, i + 1);
  }

  /** An id that no chapter has gives no page. */
  lemma MissingChapter(bookId: string, categoryId: string, chapters: seq<Chapter>, id: nat)
    requires NumberedFromOne(chapters) && (id == 0 || id > |chapters|)
    ensures ChapterPage(bookId, categoryId, chapters, id).None?
  {
  }
}
