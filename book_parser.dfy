/** The book parser's input side: the file content cut into paragraph
    blocks at every `<p>`, a cursor that walks those blocks one at a time,
    and the line cleaner that drops blank and comment lines. */
module Parsing {
  import opened Strings

  /** The paragraph marker the content is split on. */
  const Marker: string := "<p>"

  /** The inline comment marker the line cleaner cuts at. */
  const CommentMarker: string := "//"

  class BookParser {
    /** The paragraph blocks of the file content, fixed at construction. */
    const inputFile: seq<string>
    /** The block most recently read by `Advance`. */
    var currentLine: string
    /** Index of the next block to read. */
    var nextLine: int

    /** The cursor never runs past the end of the block list. */
    ghost predicate Valid()
      reads this
    {
      0 <= nextLine <= |inputFile|
    }

    /** Read the content (the file text, passed in) as its `<p>` blocks;
        no block has been read yet. */
    constructor (content: string)
      ensures inputFile == Split(content, Marker)
      ensures currentLine == "" && nextLine == 0
      ensures Valid()
    {
      inputFile := Split(content, Marker);
      currentLine := "";
      nextLine := 0;
    }

    /** Some block is still unread. */
    function HasMoreLines(): (more: bool)
      reads this
      ensures more <==> nextLine < |inputFile|
    {
      nextLine < |inputFile|
    }

    /** Make the next block the current line and move past it. */
    method Advance()
      requires Valid() && HasMoreLines()
      modifies this
      ensures Valid()
      ensures currentLine == inputFile[old(nextLine)]
      ensures nextLine == old(nextLine) + 1
    {
      currentLine := inputFile[nextLine];
      nextLine := nextLine + 1;
    }
  }

  /** The reading loop a caller runs over the cursor: while `HasMoreLines`,
      `Advance`. It sees every remaining block once, in order, and stops
      after exactly as many steps as there were blocks left. */
  method ReadRemaining(parser: BookParser) returns (visited: seq<string>, steps: nat)
    requires parser.Valid()
    modifies parser
    ensures parser.Valid() && !parser.HasMoreLines()
    ensures visited == parser.inputFile[old(parser.nextLine)..]
    ensures steps == |parser.inputFile| - old(parser.nextLine)
  {
    visited, steps := [], 0;
    ghost var start := parser.nextLine;
    while parser.HasMoreLines()
      invariant parser.Valid()
      invariant parser.nextLine == start + steps
      invariant visited == parser.inputFile[start..parser.nextLine]
      decreases |parser.inputFile| - parser.nextLine
    {
      parser.Advance();
      visited := visited + [parser.currentLine];
      steps := steps + 1;
    }
  }

  /** Facts about the block list of any content: there is always at least
      one block, joining the blocks with `<p>` gives the content back, no
      block contains `<p>`, and content without `<p>` is a single block. */
  lemma BlocksOfContent(content: string)
    ensures |Split(content, Marker)| >= 1
    ensures Join(Split(content, Marker), Marker) == content
    ensures forall k :: 0 <= k < |Split(content, Marker)| ==> !Contains(Split(content, Marker)[k], Marker)
    ensures !Contains(content, Marker) ==> Split(content, Marker) == [content]
  {
    JoinSplit(content, Marker);
    SplitPartsAvoidSep(content, Marker);
    if !Contains(content, Marker) {
      SplitWithoutSep(content, Marker);
    }
  }

  /** Two occurrences of `<p>` never overlap: no proper suffix of it starts
      with '<'. */
  lemma MarkerBorderFree()
    ensures BorderFree(Marker)
  {
    forall k | 0 < k < |Marker|
      ensures Marker[k..] != Marker[..|Marker| - k]
    {
      assert Marker[k..][0] != '<' && Marker[..|Marker| - k][0] == '<';
    }
  }

  /** The other round trip: blocks free of `<p>` are recovered from their
      join, so the block list is exactly the `<p>`-separated pieces. */
  lemma BlocksOfJoin(blocks: seq<string>)
    requires |blocks| >= 1
    requires forall k :: 0 <= k < |blocks| ==> !Contains(blocks[k], Marker)
    ensures Split(Join(blocks, Marker), Marker) == blocks
  {
    MarkerBorderFree();
    SplitJoin(blocks, Marker);
  }

  /** The cleaner's filter: keep a line unless, once trimmed, it is empty or
      starts with '/' or '*' (a comment line). Equivalently: the line has a
      first non-white character, and it is neither '/' nor '*'. */
  predicate KeepsLine(line: string)
    ensures KeepsLine(line) <==>
      LeadingWhite(line) < |line| && line[LeadingWhite(line)] != '/' && line[LeadingWhite(line)] != '*'
  {
    var t := Trim(line);
    t != "" && t[0] != '/' && t[0] != '*'
  }

  /** The cleaner's map: cut the line at its first "//" (an inline comment)
      and trim what is left. The result is no longer than the line and
      holds no "//". */
  function CleanLine(line: string): (clean: string)
    ensures |clean| <= |line|
    ensures !Contains(clean, CommentMarker)
  {
    SplitHead(line, CommentMarker);
    TrimKeepsAbsence(Split(line, CommentMarker)[0], CommentMarker);
    Trim(Split(line, CommentMarker)[0])
  }

  /** What `CleanLine` computes, given the position `n` of the first "//"
      (or the line's length when it has none): the trimmed text before it. */
  lemma CleanLineCut(line: string, n: nat)
    requires n <= |line|
    requires forall i :: 0 <= i < n ==> !OccursAt(line, CommentMarker, i)
    requires n == |line| || OccursAt(line, CommentMarker, n)
    ensures CleanLine(line) == Trim(line[..n])
  {
    SplitHeadAt(line, CommentMarker, n);
  }

  /** `CleanFile`: keep the lines `KeepsLine` accepts, in their order, and
      clean each one. */
  function CleanFile(file: seq<string>): (clean: seq<string>)
    ensures |clean| <= |file|
  {
    if file == [] then []
    else (if KeepsLine(file[0]) then [CleanLine(file[0])] else []) + CleanFile(file[1..])
  }

  /** In a kept line the first "//" comes after the first character that is
      not white space: that character is not '/'. */
  lemma CommentAfterText(line: string)
    requires KeepsLine(line)
    ensures LeadingWhite(line) < |Split(line, CommentMarker)[0]| <= |line|
    ensures Split(line, CommentMarker)[0] == line[..|Split(line, CommentMarker)[0]|]
    ensures !Contains(Split(line, CommentMarker)[0], CommentMarker)
  {
    var p := Split(line, CommentMarker)[0];
    SplitHead(line, CommentMarker);
    var a := LeadingWhite(line);
    var t := Trim(line);
    assert a < |line| && line[a] == t[0];
    forall i | 0 <= i <= a
      ensures line[i] != CommentMarker[0]
    {
      if i < a {
        assert IsWhite(line[i]) && !IsWhite('/');
      }
    }
    SplitHeadCovers(line, CommentMarker, a);
  }

  /** A kept line cleans to a non-empty string with no white space at either
      end and no "//" in it. */
  lemma CleanLineShape(line: string)
    requires KeepsLine(line)
    ensures CleanLine(line) != ""
    ensures !IsWhite(CleanLine(line)[0]) && !IsWhite(CleanLine(line)[|CleanLine(line)| - 1])
    ensures !Contains(CleanLine(line), CommentMarker)
  {
    var p := Split(line, CommentMarker)[0];
    CommentAfterText(line);
    var a := LeadingWhite(line);
    assert !IsWhite(p[a]);
    assert !AllWhite(p);
    TrimKeepsAbsence(p, CommentMarker);
  }

  /** Every line `CleanFile` produces is non-empty, has no white space at
      either end and contains no "//". */
  lemma {:induction false} CleanFileLines(file: seq<string>)
    ensures forall k :: 0 <= k < |CleanFile(file)| ==>
      var c := CleanFile(file)[k];
      c != "" && !IsWhite(c[0]) && !IsWhite(c[|c| - 1]) && !Contains(c, CommentMarker)
  {
    if file != [] {
      var clean, tail := CleanFile(file), CleanFile(file[1..]);
      CleanFileLines(file[1..]);
      if KeepsLine(file[0]) {
        CleanLineShape(file[0]);
        assert clean == [CleanLine(file[0])] + tail;
        assert forall k :: 0 < k < |clean| ==> clean[k] == tail[k - 1];
      } else {
        assert clean == tail;
      }
    }
  }

  /** The positions `from`, `from + 1`, ... of the lines the cleaner keeps,
      in increasing order. */
  function KeptFrom(file: seq<string>, from: nat): (idx: seq<nat>)
    requires from <= |file|
    ensures forall k :: 0 <= k < |idx| ==> from <= idx[k] < |file| && KeepsLine(file[idx[k]])
    ensures forall k, l :: 0 <= k < l < |idx| ==> idx[k] < idx[l]
    ensures forall i :: from <= i < |file| && KeepsLine(file[i]) ==> i in idx
    decreases |file| - from
  {
    if from == |file| then []
    else if KeepsLine(file[from]) then [from] + KeptFrom(file, from + 1)
    else KeptFrom(file, from + 1)
  }

  /** `CleanFile` keeps exactly the accepted lines, in their original order:
      its k-th output is the cleaned form of the k-th accepted line. */
  lemma {:induction false} CleanFileKeepsOrder(file: seq<string>)
    ensures |CleanFile(file)| == |KeptFrom(file, 0)|
    ensures forall k :: 0 <= k < |CleanFile(file)| ==>
      CleanFile(file)[k] == CleanLine(file[KeptFrom(file, 0)[k]])
  {
    CleanFileFrom(file, 0);
    assert file[0..] == file;
  }

  lemma {:induction false} CleanFileFrom(file: seq<string>, from: nat)
    requires from <= |file|
    ensures |CleanFile(file[from..])| == |KeptFrom(file, from)|
    ensures forall k :: 0 <= k < |CleanFile(file[from..])| ==>
      CleanFile(file[from..])[k] == CleanLine(file[KeptFrom(file, from)[k]])
    decreases |file| - from
  {
    if from < |file| {
      var rest := file[from..];
      CleanFileFrom(file, from + 1);
      var tail, tailIdx := CleanFile(file[from + 1..]), KeptFrom(file, from + 1);
      assert rest[1..] == file[from + 1..];
      assert rest[0] == file[from];
      if KeepsLine(file[from]) {
        var clean, idx := CleanFile(rest), KeptFrom(file, from);
        assert clean == [CleanLine(file[from])] + tail;
        assert idx == [from] + tailIdx;
        forall k | 0 < k < |clean|
          ensures clean[k] == CleanLine(file[idx[k]])
        {
          assert clean[k] == tail[k - 1] && idx[k] == tailIdx[k - 1];
        }
      } else {
        assert CleanFile(rest) == tail;
      }
    }
  }
}
