# BibleHTMLConverter in Dafny

BibleHTMLConverter turns a set of HTML files, one per book of a Spanish New
Testament, into a single XML Bible organised as book, chapter and verse.
This project models its core and proves properties of the model:

- **The document model** (`Chapter.cs`, `Book.cs`). A `Chapter` is a
  dictionary from verse number to verse text. A `Book` is a name plus a
  dictionary from chapter number to `Chapter`. Both are Dafny classes whose
  map fields are updated in place (`chapter.dfy`, `book.dfy`).
- **The book parser's input side** (`BookParser.cs`, in `book_parser.dfy`):
  - the file content is cut into blocks at every `<p>`;
  - a cursor (`HasMoreLines` / `Advance`) walks the blocks;
  - the `CleanFile` filter drops blank lines and comment lines, and strips
    inline `//` comments.
- **The driver** (`BibleHTMLConverter.cs`, in `converter.dfy`):
  - it checks the command-line argument;
  - it walks the canonical list of 27 book names;
  - for each name it picks the first input file whose name matches it
    case-insensitively, so books come out in canonical order.

Two support modules sit underneath:

- `strings.dfy` models the .NET string operations the code calls:
  `String.Trim` with `char.IsWhiteSpace`, `String.Split(string)`, substring
  occurrence, and the `String.Join` that undoes a split.
- `common.dfy` holds Option/Result and two small collection facts.

The model is abstract where the code reaches outside itself:

- File content is passed to the parser as a string.
- The file-system answers are function parameters: `File.Exists`,
  `Path.GetExtension` and the recursive `*.html` directory listing. The
  listing answers nothing for a path it cannot list, which is where
  `Directory.EnumerateFiles` throws.
- So are the library's file-name and case rules:
  `Path.GetFileNameWithoutExtension` is a `stem` function, and the ordinal
  case-insensitive comparison is equality after a `fold` function.
- A run's output is the sequence of files handed to `BookParser.Parse` and
  then to the XML writer.

The model follows the code where it differs from what the code itself
announces:

- The message "does not exist" at `BibleHTMLConverter.cs:26` is never
  produced. The code tests `File.Exists` twice with the same argument, so
  the branch at lines 24-27 is dead. A missing path still fails, but later:
  it goes to directory enumeration at line 36, whose exception ends the run.
  The model returns `DirectoryNotFound` there.
- Chapter and verse numbers are stored as given. The document classes never
  reject 0 or negative numbers.

## Model

| member | source | states |
|---|---|---|
| `Chapters.Chapter.constructor` | BibleHTMLConverter/Chapter.cs:13 | a new chapter holds no verses |
| `Chapters.Chapter.GetVerse` | BibleHTMLConverter/Chapter.cs:20-29 | total lookup that reads only: the stored text for a present verse number, the literal "Not found." for an absent one; a "Not found." answer means the verse is absent or its text is that literal |
| `Chapters.Chapter.SetVerse` | BibleHTMLConverter/Chapter.cs:36-39 | insert-or-overwrite: `GetVerse` then answers the new text, every other verse is unchanged, and the verse count grows by one only for a new number (a repeated number overwrites) |
| `Books.Book.constructor` | BibleHTMLConverter/Book.cs:15-18 | a new book has the given name and no chapters |
| `Books.Book.GetBookName` | BibleHTMLConverter/Book.cs:20 | answers the name the constructor or the last `SetBookName` stored |
| `Books.Book.SetBookName` | BibleHTMLConverter/Book.cs:20-21 | `GetBookName` then answers the new name; the chapter map is untouched |
| `Books.Book.GetChapter` | BibleHTMLConverter/Book.cs:28-37 | answers non-null exactly when the number is a key, and then the stored chapter |
| `Books.Book.SetChapter` | BibleHTMLConverter/Book.cs:44-47 | insert-or-overwrite: `GetChapter` then answers the new chapter, every other chapter and the name are unchanged, and the key count grows by at most one |
| `Books.Book.GetChapterList` | BibleHTMLConverter/Book.cs:53-56 | lists every stored chapter number exactly once and nothing else (no order promised) |
| `Common.UpdateSize` | BibleHTMLConverter/Chapter.cs:38 | a dictionary assignment adds an entry for a new key and keeps the count for an existing one |
| `Parsing.BookParser.constructor` | BibleHTMLConverter/BookParser.cs:7-16 | the block list is the content split on `<p>`; the cursor starts at index 0 with current line "" |
| `Parsing.BookParser.HasMoreLines` | BibleHTMLConverter/BookParser.cs:22 | true exactly when the cursor index is below the block count |
| `Parsing.BookParser.Advance` | BibleHTMLConverter/BookParser.cs:24-29 | called only while blocks remain; makes the block at the old index current and moves the index on by one, keeping 0 <= index <= count |
| `Parsing.ReadRemaining` | BibleHTMLConverter/BookParser.cs:18-29 | looping `Advance` while `HasMoreLines` visits every remaining block once, in order, and stops after exactly that many steps |
| `Parsing.BlocksOfContent` | BibleHTMLConverter/BookParser.cs:15 | the block list is never empty; joining it with `<p>` gives the content back; no block contains `<p>`; content without `<p>` is one block |
| `Parsing.BlocksOfJoin` | BibleHTMLConverter/BookParser.cs:15 | splitting the `<p>`-join of blocks that do not contain `<p>` gives those blocks back |
| `Strings.Split` | BibleHTMLConverter/BookParser.cs:15 | `String.Split(string)`: cuts at every occurrence, left to right without overlap; never answers an empty array (round trips in `BlocksOfContent` and `BlocksOfJoin`) |
| `Strings.SplitHead` | BibleHTMLConverter/BookParser.cs:42 | `Split(sep)[0]` is a prefix of the string; no occurrence of the separator starts inside it; one starts right after it unless it is the whole string; it contains no separator |
| `Strings.SplitHeadAt` | BibleHTMLConverter/BookParser.cs:42 | `Split(sep)[0]` is the prefix up to the first occurrence of the separator, or the whole string when there is none |
| `Strings.IsWhite` | BibleHTMLConverter/BookParser.cs:38 | `char.IsWhiteSpace`: the Unicode space separators, U+2028, U+2029, U+0009 to U+000D and U+0085 |
| `Strings.AllWhite` | BibleHTMLConverter/BibleHTMLConverter.cs:52 | `string.IsNullOrWhiteSpace` for a non-null string: every character is white space, and the empty string qualifies |
| `Strings.Trim` | BibleHTMLConverter/BookParser.cs:38 | the trimmed string is the slice from the first non-white character; it is empty exactly when the string is all white space; otherwise it starts and ends with a non-white character, and only white space follows it |
| `Parsing.CleanFile` | BibleHTMLConverter/BookParser.cs:36-48 | the cleaned list is never longer than the input |
| `Parsing.KeepsLine` | BibleHTMLConverter/BookParser.cs:37-40 | the `Where` filter keeps a line exactly when its first non-white character exists and is neither '/' nor '*' |
| `Parsing.CleanLine` | BibleHTMLConverter/BookParser.cs:41-45 | the `Select` map never lengthens a line and leaves no "//" in it |
| `Parsing.CleanLineCut` | BibleHTMLConverter/BookParser.cs:42-43 | the `Select` map is the line cut at its first "//" (or left whole when there is none), then trimmed |
| `Parsing.CommentAfterText` | BibleHTMLConverter/BookParser.cs:37-42 | in a kept line the first "//" comes after the first non-white character, so cutting at it keeps that character |
| `Parsing.CleanLineShape` | BibleHTMLConverter/BookParser.cs:37-45 | a kept line cleans to a non-empty string with no white space at either end and no "//" |
| `Parsing.CleanFileLines` | BibleHTMLConverter/BookParser.cs:36-48 | every output line is non-empty, trimmed, and free of "//" |
| `Parsing.CleanFileKeepsOrder` | BibleHTMLConverter/BookParser.cs:37-45 | the output is exactly the cleaned kept lines in their input order; a line is dropped exactly when, trimmed, it is empty or starts with '/' or '*' |
| `Converter.OrderedNamesShape` | BibleHTMLConverter/BibleHTMLConverter.cs:5-13 | the canonical list has 27 pairwise distinct names |
| `Converter.CheckArguments` | BibleHTMLConverter/BibleHTMLConverter.cs:17-41 | no argument fails; an existing file fails unless its extension is ".html", and is otherwise the only input; any other path is listed as a directory, fails when it cannot be listed or the listing is empty, and otherwise gives the listing; the not-found error of line 26 is never produced |
| `Converter.Matches` | BibleHTMLConverter/BibleHTMLConverter.cs:48-49 | the `Find` predicate: the file's name without extension equals the book name once both are case-folded |
| `Converter.FindFirst` | BibleHTMLConverter/BibleHTMLConverter.cs:48-49 | answers the position of the first file whose stem folds to the folded name, or nothing when no file matches |
| `Converter.PickFor` | BibleHTMLConverter/BibleHTMLConverter.cs:47-57 | a name contributes at most one file: its first match, unless there is none or that match is blank; nothing otherwise |
| `Converter.Selection` | BibleHTMLConverter/BibleHTMLConverter.cs:45-58 | what the loop hands on for a list of names: the selection for all but the last name, followed by the last name's pick |
| `Converter.SelectionBySlots` | BibleHTMLConverter/BibleHTMLConverter.cs:45-58 | the k-th selected file is the pick of the k-th name that has one, with those names' positions strictly increasing: canonical order, no placeholders |
| `Converter.SelectionAtMost` | BibleHTMLConverter/BibleHTMLConverter.cs:45-58 | never more selected files than names |
| `Converter.SelectionOnlyMatching` | BibleHTMLConverter/BibleHTMLConverter.cs:45-58 | every selected file is an input that matches some canonical name; a file matching no name is never parsed or added |
| `Converter.SelectionDistinct` | BibleHTMLConverter/BibleHTMLConverter.cs:45-58 | when the names stay distinct under case folding, no file is selected for two names |
| `Converter.PickForIgnoresFileOrder` | BibleHTMLConverter/BibleHTMLConverter.cs:48-49 | with at most one distinct matching path, reordering the file list leaves a name's pick unchanged |
| `Converter.SelectionIgnoresFileOrder` | BibleHTMLConverter/BibleHTMLConverter.cs:45-58 | when each name is matched by at most one path, the selection is the same for any order of the file list |
| `Converter.SelectInOrder` | BibleHTMLConverter/BibleHTMLConverter.cs:45-58 | the loop over a name list appends, name by name, exactly the file each name picks, so its result is the selection for that list |
| `Converter.SelectBooks` | BibleHTMLConverter/BibleHTMLConverter.cs:45-58 | the loop appends exactly the canonical-order selection: at most 27 files, none twice when the names stay distinct under folding |
| `Converter.Convert` | BibleHTMLConverter/BibleHTMLConverter.cs:15-60 | a failed argument check ends the run with that error and no books; otherwise the books written are the canonical-order selection from the checked file list |

## Left out

- `BookParser.Parse` is not part of this model. It is called from
  `BibleHTMLConverter.cs:54` but has no source. The same goes for everything
  it would do: tag stripping, chapter-heading and verse-number recognition,
  and the end-of-stream flush of the last chapter.
- The XML writer (`BibleWriter.cs`) is not modelled. It is a thin wrapper over
  the .NET XML classes with process-wide static fields, and it calls a
  `Chapter.GetVerseList` that `Chapter.cs` does not define. `Convert` returns
  the sequence of files that are parsed and written instead of the XML tree.
- `VMWriter.cs` and `ConversionEngine.cs` are not modelled. The first is
  single-line writes of VM commands. The second is a constructor that only
  builds a parser.
- File and console I/O is not modelled: `File.ReadAllText` (the content is a
  parameter), `Console.WriteLine`, and the output file `test.xmm`.
- Library behaviour is abstract. `File.Exists`, `Path.GetExtension`,
  `Path.GetFileNameWithoutExtension`, ordinal case-insensitive comparison
  and `Directory.EnumerateFiles` are parameters. Every exception of the
  listing (missing directory, denied access, malformed path) is the one
  `DirectoryNotFound` error.
- `Converter.CheckArguments` reads both `File.Exists` calls as the same
  answer. A file that disappears between the two calls is not modelled.
- `Converter.SelectionDistinct` assumes the canonical names stay distinct
  under case folding. Unicode case folding is not modelled, so this cannot be
  proved for the real library.
- `Books.Book.GetChapterList` picks keys in an unspecified order, as
  dictionary enumeration does. No particular order is modelled.
- `Books.Book.SetChapter` takes a non-null chapter, as the parameter's
  non-nullable type declares. Storing null is not modelled.
- `Strings.IsWhite` works on Unicode scalar values, while .NET strings are
  UTF-16 code units. Surrogate pairs are not modelled.
- Chapter and verse numbers are unbounded integers. The source's 32-bit
  `int` keys are only stored and compared, never computed with, so no
  wrap-around can arise.
- `Parsing.CleanFile` is private and has no caller in the code. It is
  modelled on its own.
