/** A chapter of a book: verse texts keyed by verse number. Keying by number
    tolerates duplicate or out-of-order verse markers in the source HTML. */
module Chapters {
  import opened Common

  /** What `GetVerse` answers for a verse number that is not stored. */
  const NotFound: string := "Not found."

  class Chapter {
    /** The verse dictionary, updated in place by `SetVerse`. */
    var verses: map<int, string>

    /** A new chapter holds no verses. */
    constructor ()
      ensures verses == map[]
    {
      verses := map[];
    }

    /** The text stored for `verseNum`, or the sentinel "Not found." when
        there is none. The lookup is total and changes nothing; note that a
        verse whose text is literally "Not found." cannot be told apart from
        a missing one. */
    function GetVerse(verseNum: int): (text: string)
      reads this
      ensures verseNum in verses ==> text == verses[verseNum]
      ensures verseNum !in verses ==> text == NotFound
      ensures text == NotFound ==> verseNum !in verses || verses[verseNum] == NotFound
    {
      if verseNum in verses then verses[verseNum] else NotFound
    }

    /** Insert or overwrite one verse: the new text is what `GetVerse` then
        answers, every other verse is untouched, and the number of stored
        verses grows by one only for a new verse number. */
    method SetVerse(verseNum: int, verseText: string)
      modifies this
      ensures verses == old(verses)[verseNum := verseText]
      ensures GetVerse(verseNum) == verseText
      ensures forall v :: v != verseNum ==> GetVerse(v) == old(GetVerse(v))
      ensures |verses| == if verseNum in old(verses) then old(|verses|) else old(|verses|) + 1
    {
      UpdateSize(verses, verseNum, verseText);
      verses := verses[verseNum := verseText];
    }
  }
}
