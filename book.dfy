/** A book: its name (the stem of the file it was read from) and its
    chapters keyed by chapter number. Keying by number keeps gaps and
    tolerates repeated chapter headings in the source HTML. */
module Books {
  import opened Common
  import opened Chapters

  class Book {
    var name: string
    /** The chapter dictionary, updated in place by `SetChapter`. */
    var chapters: map<int, Chapter>

    /** A new book has the given name and no chapters. */
    constructor (name: string)
      ensures this.name == name
      ensures chapters == map[]
    {
      this.name := name;
      chapters := map[];
    }

    /** The book's current name, as the constructor or `SetBookName` left it. */
    function GetBookName(): (bookName: string)
      reads this
      ensures bookName == name
    {
      name
    }

    /** Rename the book; its chapters are untouched. */
    method SetBookName(name: string)
      modifies this
      ensures GetBookName() == name
      ensures chapters == old(chapters)
    {
      this.name := name;
    }

    /** The chapter stored under `chapterNum`, or null when there is none. */
    function GetChapter(chapterNum: int): (chapter: Chapter?)
      reads this
      ensures chapter != null <==> chapterNum in chapters
      ensures chapterNum in chapters ==> chapter == chapters[chapterNum]
    {
      if chapterNum in chapters then chapters[chapterNum] else null
    }

    /** Insert or overwrite one chapter: `GetChapter` then answers the new
        chapter, every other chapter and the name are untouched, and the
        number of chapters grows by one only for a new chapter number. */
    method SetChapter(chapterNum: int, chapter: Chapter)
      modifies this
      ensures chapters == old(chapters)[chapterNum := chapter]
      ensures GetChapter(chapterNum) == chapter
      ensures forall n :: n != chapterNum ==> GetChapter(n) == old(GetChapter(n))
      ensures name == old(name)
      ensures |chapters| == if chapterNum in old(chapters) then old(|chapters|) else old(|chapters|) + 1
    {
      UpdateSize(chapters, chapterNum, chapter);
      chapters := chapters[chapterNum := chapter];
    }

    /** The stored chapter numbers, each exactly once. Dictionary key order
        is unspecified, so no order is promised. */
    method GetChapterList() returns (list: seq<int>)
      ensures forall n :: n in list <==> n in chapters
      ensures NoDuplicates(list)
      ensures |list| == |chapters|
    {
      list := [];
      var rest := chapters.Keys;
      while rest != {}
        invariant rest <= chapters.Keys
        invariant forall n :: n in list <==> n in chapters && n !in rest
        invariant NoDuplicates(list)
        invariant |list| + |rest| == |chapters|
        decreases |rest|
      {
        EmptyOrMember(rest);
        var k :| k in rest;
        list := list + [k];
        rest := rest - {k};
      }
    }
  }
}
