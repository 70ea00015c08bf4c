/** The converter's driver: it checks the command-line argument, then walks
    the canonical list of the 27 New Testament book names and, for each
    name, hands the first input file whose name matches it to the book
    parser, appending the parsed books in canonical order. The file system
    and the .NET library calls it makes are parameters: `fileExists` for
    `File.Exists`, `extension` for `Path.GetExtension`, `enumerate` for the
    recursive `*.html` listing of a directory (nothing when the path
    cannot be listed), `stem` for
    `Path.GetFileNameWithoutExtension` and `fold` for the case folding
    behind an ordinal case-insensitive comparison. */
module Converter {
  import opened Common
  import opened Strings

  /** The canonical book order (Spanish names). */
  const OrderedNames: seq<string> := [
    "Mateo", "Marcos", "Lucas", "Juan",
    "Hechos", "Romanos",
    "1 Corintios", "2 Corintios", "Gálatas", "Efesios", "Filipenses", "Colosenses",
    "1 Tesalonicenses", "2 Tesalonicenses", "1 Timoteo", "2 Timoteo",
    "Tito", "Filemón", "Hebreos", "Santiago",
    "1 Pedro", "2 Pedro", "1 Juan", "2 Juan", "3 Juan", "Judas", "Apocalipsis"
  ]

  /** The canonical list has 27 names and none is repeated. */
  lemma OrderedNamesShape()
    ensures |OrderedNames| == 27
    ensures NoDuplicates(OrderedNames)
  {
  }

  /** No two names of `names` become equal under `fold`. */
  ghost predicate DistinctUnder(fold: string -> string, names: seq<string>)
  {
    forall i, j :: 0 <= i < j < |names| ==> fold(names[i]) != fold(names[j])
  }

  /** Why a run is refused before any output is started. */
  datatype ArgError =
    | MissingArgument   // no argument given
    | PathNotFound      // an existing file that does not exist (see CheckArguments)
    | NotHtmlFile       // an existing file whose extension is not ".html"
    | DirectoryNotFound // a path that is neither a file nor a directory that can be listed
    | EmptyDirectory    // a directory without any .html file

  /** The argument checks: no argument is an error; an existing file must
      have the extension ".html" and is then the only input; any other path
      is listed as a directory: a path that cannot be listed fails (the
      exception `Directory.EnumerateFiles` throws for a missing directory),
      and the listing must hold at least one file. The explicit not-found
      branch tests the same `File.Exists` answer twice and is never taken. */
  function CheckArguments(
    args: seq<string>,
    fileExists: string -> bool,
    extension: string -> string,
    enumerate: string -> Option<seq<string>>
  ): (r: Result<seq<string>, ArgError>)
    ensures r == Failure(MissingArgument) <==> |args| == 0
    ensures r == Failure(NotHtmlFile) <==> |args| > 0 && fileExists(args[0]) && extension(args[0]) != ".html"
    ensures r == Failure(DirectoryNotFound) <==> |args| > 0 && !fileExists(args[0]) && enumerate(args[0]).None?
    ensures r == Failure(EmptyDirectory) <==> |args| > 0 && !fileExists(args[0]) && enumerate(args[0]) == Some([])
    ensures r != Failure(PathNotFound)
    ensures r.Success? ==> |args| > 0 && r.value != []
    ensures r.Success? && fileExists(args[0]) ==> r.value == [args[0]]
    ensures r.Success? && !fileExists(args[0]) ==> enumerate(args[0]) == Some(r.value)
  {
    if |args| < 1 then Failure(MissingArgument)
    else
      var isFile := fileExists(args[0]);
      if isFile && !fileExists(args[0]) then Failure(PathNotFound)
      else if isFile && extension(args[0]) != ".html" then Failure(NotHtmlFile)
      else if isFile then Success([args[0]])
      else
        match enumerate(args[0])
        case None => Failure(DirectoryNotFound)
        case Some(files) => if |files| == 0 then Failure(EmptyDirectory) else Success(files)
  }

  /** `Path.GetFileNameWithoutExtension(f).Equals(name, OrdinalIgnoreCase)`. */
  predicate Matches(f: string, name: string, stem: string -> string, fold: string -> string)
  {
    fold(stem(f)) == fold(name)
  }

  /** `files[i]` is the first file of the list that matches `name`. */
  predicate IsFirstMatch(files: seq<string>, name: string, stem: string -> string, fold: string -> string, i: nat)
  {
    && i < |files|
    && Matches(files[i], name, stem, fold)
    && forall j :: 0 <= j < i ==> !Matches(files[j], name, stem, fold)
  }

  /** `List.Find`: the position of the first file matching `name`, or
      nothing when no file matches. */
  function FindFirst(files: seq<string>, name: string, stem: string -> string, fold: string -> string): (r: Option<nat>)
    ensures r.Some? ==> IsFirstMatch(files, name, stem, fold, r.value)
    ensures r.None? ==> forall j :: 0 <= j < |files| ==> !Matches(files[j], name, stem, fold)
  {
    if files == [] then None
    else if Matches(files[0], name, stem, fold) then Some(0)
    else
      match FindFirst(files[1..], name, stem, fold)
      case None => None
      case Some(i) => Some(i + 1)
  }

  /** What one turn of the selection loop hands to the parser for `name`:
      the first matching file, or nothing when no file matches or the first
      match is white space only (`string.IsNullOrWhiteSpace`). */
  function PickFor(name: string, files: seq<string>, stem: string -> string, fold: string -> string): (pick: seq<string>)
    ensures |pick| <= 1
    ensures pick != [] ==> pick[0] in files && Matches(pick[0], name, stem, fold) && !AllWhite(pick[0])
    ensures forall i: nat :: IsFirstMatch(files, name, stem, fold, i) && !AllWhite(files[i]) ==> pick == [files[i]]
    ensures pick == [] <==> forall i: nat :: IsFirstMatch(files, name, stem, fold, i) ==> AllWhite(files[i])
  {
    match FindFirst(files, name, stem, fold)
    case None => []
    case Some(i) => if AllWhite(files[i]) then [] else [files[i]]
  }

  /** The files handed to the parser, in order, when the loop walks `names`. */
  function Selection(names: seq<string>, files: seq<string>, stem: string -> string, fold: string -> string): seq<string>
    decreases |names|
  {
    if names == [] then []
    else Selection(names[..|names| - 1], files, stem, fold) + PickFor(names[|names| - 1], files, stem, fold)
  }

  /** The positions in `names` of the names that receive a file, in
      increasing order: exactly those whose pick is not empty. */
  function Slots(names: seq<string>, files: seq<string>, stem: string -> string, fold: string -> string): (slots: seq<nat>)
    ensures forall k :: 0 <= k < |slots| ==> slots[k] < |names|
    ensures forall k, l :: 0 <= k < l < |slots| ==> slots[k] < slots[l]
    ensures forall i :: 0 <= i < |names| ==> (i in slots <==> PickFor(names[i], files, stem, fold) != [])
    decreases |names|
  {
    if names == [] then []
    else
      var last := |names| - 1;
      var init := Slots(names[..last], files, stem, fold);
      assert forall i :: 0 <= i < last ==> names[..last][i] == names[i];
      if PickFor(names[last], files, stem, fold) != [] then init + [last] else init
  }

  /** The selection follows the order of `names`: its k-th file is the pick
      of the k-th name that receives one. With `Slots` increasing, books come
      out in canonical order whatever the order of the file list, a name
      without a file leaves no trace, and each file is the first match. */
  lemma {:induction false} SelectionBySlots(names: seq<string>, files: seq<string>, stem: string -> string, fold: string -> string)
    ensures |Selection(names, files, stem, fold)| == |Slots(names, files, stem, fold)|
    ensures forall k :: 0 <= k < |Selection(names, files, stem, fold)| ==>
      Selection(names, files, stem, fold)[k] == PickFor(names[Slots(names, files, stem, fold)[k]], files, stem, fold)[0]
    decreases |names|
  {
    if names != [] {
      var last := |names| - 1;
      var init := names[..last];
      SelectionBySlots(init, files, stem, fold);
      var sel, slots := Selection(names, files, stem, fold), Slots(names, files, stem, fold);
      var sel0, slots0 := Selection(init, files, stem, fold), Slots(init, files, stem, fold);
      var pick := PickFor(names[last], files, stem, fold);
      assert sel == sel0 + pick;
      assert slots == slots0 + (if pick != [] then [last] else []);
      forall k | 0 <= k < |sel|
        ensures sel[k] == PickFor(names[slots[k]], files, stem, fold)[0]
      {
        if k < |sel0| {
          assert sel[k] == sel0[k] && slots[k] == slots0[k];
          assert init[slots0[k]] == names[slots0[k]];
        }
      }
    }
  }

  /** At most one book per name: never more books than names (27). */
  lemma {:induction false} SelectionAtMost(names: seq<string>, files: seq<string>, stem: string -> string, fold: string -> string)
    ensures |Selection(names, files, stem, fold)| <= |names|
    decreases |names|
  {
    if names != [] {
      SelectionAtMost(names[..|names| - 1], files, stem, fold);
    }
  }

  /** Every selected file is one of the inputs and matches some name; a file
      that matches no name is never parsed or added. */
  lemma {:induction false} SelectionOnlyMatching(names: seq<string>, files: seq<string>, stem: string -> string, fold: string -> string)
    ensures forall f :: f in Selection(names, files, stem, fold) ==>
      f in files && exists i :: 0 <= i < |names| && Matches(f, names[i], stem, fold)
    decreases |names|
  {
    if names != [] {
      var last := |names| - 1;
      SelectionOnlyMatching(names[..last], files, stem, fold);
      forall f | f in Selection(names, files, stem, fold)
        ensures f in files && exists i :: 0 <= i < |names| && Matches(f, names[i], stem, fold)
      {
        if f in Selection(names[..last], files, stem, fold) {
          var i :| 0 <= i < last && Matches(f, names[..last][i], stem, fold);
          assert names[..last][i] == names[i];
        } else {
          assert Matches(f, names[last], stem, fold);
        }
      }
    }
  }

  /** When the names stay distinct under case folding, no file is selected
      for two different names: the selection has no repeated file. */
  lemma SelectionDistinct(names: seq<string>, files: seq<string>, stem: string -> string, fold: string -> string)
    requires DistinctUnder(fold, names)
    ensures NoDuplicates(Selection(names, files, stem, fold))
  {
    var sel, slots := Selection(names, files, stem, fold), Slots(names, files, stem, fold);
    SelectionBySlots(names, files, stem, fold);
    forall k, l | 0 <= k < l < |sel|
      ensures sel[k] != sel[l]
    {
      var a, b := slots[k], slots[l];
      assert PickFor(names[a], files, stem, fold) != [] && PickFor(names[b], files, stem, fold) != [];
      assert Matches(sel[k], names[a], stem, fold) && Matches(sel[l], names[b], stem, fold);
      assert fold(names[a]) != fold(names[b]);
    }
  }

  /** Each name is matched by at most one distinct path of the list. */
  ghost predicate Unambiguous(names: seq<string>, files: seq<string>, stem: string -> string, fold: string -> string)
  {
    forall n, i, j ::
      (0 <= n < |names| && 0 <= i < |files| && 0 <= j < |files|
       && Matches(files[i], names[n], stem, fold) && Matches(files[j], names[n], stem, fold))
      ==> files[i] == files[j]
  }

  lemma PickForIgnoresFileOrder(name: string, files: seq<string>, files': seq<string>, stem: string -> string, fold: string -> string)
    requires multiset(files) == multiset(files')
    requires forall i, j ::
      (0 <= i < |files| && 0 <= j < |files| && Matches(files[i], name, stem, fold) && Matches(files[j], name, stem, fold))
      ==> files[i] == files[j]
    ensures PickFor(name, files, stem, fold) == PickFor(name, files', stem, fold)
  {
    assert forall f :: f in files <==> f in files' by {
      forall f
        ensures f in files <==> f in files'
      {
        assert f in files <==> f in multiset(files);
        assert f in files' <==> f in multiset(files');
      }
    }
    match FindFirst(files, name, stem, fold)
    case None =>
      assert forall j :: 0 <= j < |files'| ==> !Matches(files'[j], name, stem, fold) by {
        forall j | 0 <= j < |files'|
          ensures !Matches(files'[j], name, stem, fold)
        {
          assert files'[j] in files;
        }
      }
    case Some(i) =>
      var f := files[i];
      assert f in files';
      var i' :| 0 <= i' < |files'| && files'[i'] == f;
      assert FindFirst(files', name, stem, fold).Some?;
      var m := FindFirst(files', name, stem, fold).value;
      assert files'[m] in files;
      var j :| 0 <= j < |files| && files[j] == files'[m];
      assert files'[m] == f;
  }

  /** When every name is matched by at most one path, the selection does not
      depend on the order in which the files were listed. */
  lemma {:induction false} SelectionIgnoresFileOrder(names: seq<string>, files: seq<string>, files': seq<string>, stem: string -> string, fold: string -> string)
    requires multiset(files) == multiset(files')
    requires Unambiguous(names, files, stem, fold)
    ensures Selection(names, files, stem, fold) == Selection(names, files', stem, fold)
    decreases |names|
  {
    if names != [] {
      var last := |names| - 1;
      assert Unambiguous(names[..last], files, stem, fold) by {
        assert forall n :: 0 <= n < last ==> names[..last][n] == names[n];
      }
      SelectionIgnoresFileOrder(names[..last], files, files', stem, fold);
      PickForIgnoresFileOrder(names[last], files, files', stem, fold);
    }
  }

  /** The selection loop over a list of names: for each name in order, find
      the first matching file and, unless it is blank, pass it on. */
  method SelectInOrder(names: seq<string>, files: seq<string>, stem: string -> string, fold: string -> string)
    returns (books: seq<string>)
    ensures books == Selection(names, files, stem, fold)
  {
    books := [];
    for n := 0 to |names|
      invariant books == Selection(names[..n], files, stem, fold)
    {
      var bookName := names[n];
      var found := FindFirst(files, bookName, stem, fold);
      if found.Some? && !AllWhite(files[found.value]) {
        books := books + [files[found.value]];
      }
      assert names[..n + 1][..n] == names[..n];
    }
    assert names[..|names|] == names;
  }

  /** The driver's selection loop over the canonical names. At most 27
      files are passed on, and none twice when the canonical names stay
      distinct under the case folding. */
  method SelectBooks(files: seq<string>, stem: string -> string, fold: string -> string) returns (books: seq<string>)
    ensures books == Selection(OrderedNames, files, stem, fold)
    ensures |books| <= 27
    ensures DistinctUnder(fold, OrderedNames) ==> NoDuplicates(books)
  {
    books := SelectInOrder(OrderedNames, files, stem, fold);
    OrderedNamesShape();
    SelectionAtMost(OrderedNames, files, stem, fold);
    if DistinctUnder(fold, OrderedNames) {
      SelectionDistinct(OrderedNames, files, stem, fold);
    }
  }

  /** A whole run: either the argument checks fail, and the run stops with
      that error before any output is started, or the selected files are
      the ones parsed and written, in canonical order. */
  method Convert(
    args: seq<string>,
    fileExists: string -> bool,
    extension: string -> string,
    enumerate: string -> Option<seq<string>>,
    stem: string -> string,
    fold: string -> string
  ) returns (r: Result<seq<string>, ArgError>)
    ensures CheckArguments(args, fileExists, extension, enumerate).Failure? ==>
      r == CheckArguments(args, fileExists, extension, enumerate)
    ensures CheckArguments(args, fileExists, extension, enumerate).Success? ==>
      r == Success(Selection(OrderedNames, CheckArguments(args, fileExists, extension, enumerate).value, stem, fold))
  {
    var checked := CheckArguments(args, fileExists, extension, enumerate);
    if checked.Failure? {
      return Failure(checked.error);
    }
    var books := SelectBooks(checked.value, stem, fold);
    r := Success(books);
  }
}
