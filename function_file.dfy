/** The function-file format of `FileModule`: which lines of a text file are
    taken as functions when loading, the layout written when saving, and the
    extension given to an exported image. The file dialogs, message boxes and
    the file system itself are outside the model: a file is its text, and the
    path the user picked is a parameter. */
module FunctionFile {
  import opened Wrappers
  import opened Text

  // ---------------------------------------------------------------------------
  // Validity of one function text
  // ---------------------------------------------------------------------------

  /** Substrings that make a text unsafe to evaluate. */
  const DangerousKeywords: seq<string> := ["import", "exec", "eval", "__", "open", "file"]

  predicate HasDangerousKeyword(text: string) {
    exists i :: 0 <= i < |DangerousKeywords| && Contains(text, DangerousKeywords[i])
  }

  /** What `is_valid_function` accepts: some non-blank text mentioning `x` and
      none of the dangerous keywords. */
  function ValidFunction(text: string): (valid: bool)
    ensures valid ==> text != [] && 'x' in text
    ensures HasDangerousKeyword(text) ==> !valid
  {
    ContainsChar(text, 'x');
    !AllSpace(text) && Contains(text, "x") && !HasDangerousKeyword(text)
  }

  /** The loop of `is_valid_function` over the dangerous keywords. */
  method FindDangerousKeyword(text: string) returns (found: bool)
    ensures found <==> HasDangerousKeyword(text)
  {
    for i := 0 to |DangerousKeywords|
      invariant forall j :: 0 <= j < i ==> !Contains(text, DangerousKeywords[j])
    {
      var keyword := DangerousKeywords[i];
      if Contains(text, keyword) {
        return true;
      }
    }
    return false;
  }

  /** `is_valid_function`: the early returns for empty, blank and x-less text,
      then the scan over the dangerous keywords. */
  method IsValidFunction(text: string) returns (valid: bool)
    ensures text == [] || AllSpace(text) ==> !valid
    ensures !Contains(text, "x") ==> !valid
    ensures HasDangerousKeyword(text) ==> !valid
    ensures valid <==> ValidFunction(text)
  {
    if text == [] {
      return false;
    }
    if Strip(text) == [] {
      return false;
    }
    if !Contains(text, "x") {
      return false;
    }
    var found := FindDangerousKeyword(text);
    return !found;
  }

  /** For a one-character needle, `Contains` is Python's `c in s`. */
  lemma ContainsChar(s: string, c: char)
    ensures Contains(s, [c]) <==> c in s
  {
    if c in s {
      var i :| 0 <= i < |s| && s[i] == c;
      assert s[i..i + 1] == [c];
      assert OccursAt(s, [c], i);
    }
    if Contains(s, [c]) {
      var i := IndexOf(s, [c]).value;
      assert s[i..i + 1][0] == s[i];
    }
  }

  // ---------------------------------------------------------------------------
  // Loading
  // ---------------------------------------------------------------------------

  /** What became of the file the user asked to load. */
  datatype FileRead =
    | NoPathChosen       // the dialog was cancelled
    | NotFound           // the path does not exist
    | Unreadable         // decoding or reading raised
    | Read(text: string) // the file's contents

  /** A stripped line is taken as a function when it is not blank, is not a
      `#` comment and passes the validity check. */
  function Kept(func: string): (kept: bool)
    ensures kept ==> func != [] && func[0] != '#' && 'x' in func && !HasDangerousKeyword(func)
  {
    func != [] && !StartsWith(func, "#") && ValidFunction(func)
  }

  /** The functions found in the file's lines, in file order. */
  function Loaded(lines: seq<string>): (fs: seq<string>)
    ensures |fs| <= |lines|
  {
    if lines == [] then []
    else Loaded(lines[..|lines| - 1]) + LineEntry(lines[|lines| - 1])
  }

  /** What one line contributes: its stripped text, when that is kept. */
  function LineEntry(line: string): (entry: seq<string>)
    ensures |entry| <= 1
  {
    var func := Strip(line);
    if Kept(func) then [func] else []
  }

  /** What loading returns: the functions of the file, and nothing when no file
      was read. */
  function LoadResult(read: FileRead): (fs: seq<string>)
    ensures !read.Read? ==> fs == []
  {
    if read.Read? then Loaded(SplitLines(read.text)) else []
  }

  /** `load_functions`: every line of the file is stripped, blank lines and
      comments are skipped and valid functions are collected in order. */
  method LoadFunctions(read: FileRead) returns (functions: seq<string>)
    ensures functions == LoadResult(read)
  {
    if !read.Read? {
      return [];
    }
    var lines := SplitLines(read.text);
    functions := [];
    for i := 0 to |lines|
      invariant functions == Loaded(lines[..i])
    {
      var func := Strip(lines[i]);
      LoadedStep(lines, i, func);
      if func == [] || StartsWith(func, "#") {
        continue;
      }
      var valid := IsValidFunction(func);
      if valid {
        functions := functions + [func];
      }
    }
    assert lines[..|lines|] == lines;
  }

  lemma LoadedStep(lines: seq<string>, i: nat, func: string)
    requires i < |lines| && func == Strip(lines[i])
    ensures Kept(func) ==> Loaded(lines[..i + 1]) == Loaded(lines[..i]) + [func]
    ensures !Kept(func) ==> Loaded(lines[..i + 1]) == Loaded(lines[..i])
  {
    assert lines[..i + 1][..i] == lines[..i];
  }

  /** The entries of the lines under any per-line rule, in line order. */
  function Collected(entry: string -> seq<string>, lines: seq<string>): seq<string> {
    if lines == [] then []
    else Collected(entry, lines[..|lines| - 1]) + entry(lines[|lines| - 1])
  }

  /** Collecting distributes over concatenated line lists. */
  lemma {:induction false} CollectedAppend(entry: string -> seq<string>, a: seq<string>, b: seq<string>)
    ensures Collected(entry, a + b) == Collected(entry, a) + Collected(entry, b)
    decreases |b|
  {
    if b == [] {
      assert a + b == a;
    } else {
      var n := |b| - 1;
      var b' := b[..n];
      assert (a + b)[..|a + b| - 1] == a + b';
      assert (a + b)[|a + b| - 1] == b[n];
      CollectedAppend(entry, a, b');
    }
  }

  /** Loading collects the entry of every line. */
  lemma {:induction false} LoadedCollects(lines: seq<string>)
    ensures Loaded(lines) == Collected(LineEntry, lines)
    decreases |lines|
  {
    if lines != [] {
      LoadedCollects(lines[..|lines| - 1]);
    }
  }

  /** Loading the lines of two pieces of a file one after the other. */
  lemma LoadedAppend(a: seq<string>, b: seq<string>)
    ensures Loaded(a + b) == Loaded(a) + Loaded(b)
  {
    LoadedCollects(a + b);
    LoadedCollects(a);
    LoadedCollects(b);
    CollectedAppend(LineEntry, a, b);
  }


  /** Each line of the file as `strip()` leaves it. */
  function StrippedLines(lines: seq<string>): (r: seq<string>)
    ensures |r| == |lines|
  {
    if lines == [] then []
    else StrippedLines(lines[..|lines| - 1]) + [Strip(lines[|lines| - 1])]
  }

  /** Entry `i` of the stripped lines is line `i` stripped. */
  lemma {:induction false} StrippedLine(lines: seq<string>, i: nat)
    requires i < |lines|
    ensures StrippedLines(lines)[i] == Strip(lines[i])
  {
    var n := |lines| - 1;
    if i < n {
      StrippedLine(lines[..n], i);
    }
  }

  /** Every function loaded is a stripped, valid, non-comment line of the file,
      and every such line is loaded. */
  lemma {:induction false} LoadedMembers(lines: seq<string>, func: string)
    ensures func in Loaded(lines) <==> Kept(func) && func in StrippedLines(lines)
  {
    if lines != [] {
      var n := |lines| - 1;
      var init, last := lines[..n], Strip(lines[n]);
      LoadedMembers(init, func);
      assert StrippedLines(lines) == StrippedLines(init) + [last];
      if Kept(last) {
        assert Loaded(lines) == Loaded(init) + [last];
      } else {
        assert Loaded(lines) == Loaded(init);
      }
    }
  }

  /** What is loaded is stripped: a second `strip()` would not change it. */
  lemma LoadedStripped(lines: seq<string>, func: string)
    requires func in Loaded(lines)
    ensures Kept(func) && Strip(func) == func
  {
    LoadedMembers(lines, func);
    var i :| 0 <= i < |lines| && StrippedLines(lines)[i] == func;
    StrippedLine(lines, i);
    StripIdempotent(lines[i]);
  }

  // ---------------------------------------------------------------------------
  // Saving
  // ---------------------------------------------------------------------------

  /** The three comment lines a saved file starts with. Each is written as two
      literals so that the proof that it holds no newline stays small. */
  const CommentHeader: seq<string> := [
    "# Список функций " + "для графического калькулятора",
    "# Каждая функция " + "должна быть на отдельной строке",
    "# Комментарии начинаются " + "с символа #"]

  /** Writing four lines one after another. */
  lemma JoinFourLines(a: string, b: string, c: string, d: string)
    ensures JoinLines([a, b, c, d]) == a + "\n" + b + "\n" + c + "\n" + d + "\n"
  {
    assert [a, b, c, d][1..] == [b, c, d];
    assert [b, c, d][1..] == [c, d];
    assert [c, d][1..] == [d];
    assert [d][1..] == [];
    assert JoinLines([d]) == d + "\n";
    assert JoinLines([c, d]) == c + "\n" + d + "\n";
    assert JoinLines([b, c, d]) == b + "\n" + c + "\n" + d + "\n";
  }

  /** A line that starts with `#`. */
  predicate IsComment(line: string) {
    line != [] && line[0] == '#'
  }

  /** A line made of pieces none of which holds a newline holds none. */
  lemma NoNewlineJoined(a: string, b: string)
    requires '\n' !in a && '\n' !in b
    ensures '\n' !in a + b
  {
  }

  /** A header line is a comment without a newline of its own. */
  lemma HeaderLine(i: nat)
    requires i < |CommentHeader|
    ensures IsComment(CommentHeader[i]) && '\n' !in CommentHeader[i]
  {
    if i == 0 {
      NoNewlineJoined("# Список функций ", "для графического калькулятора");
    } else if i == 1 {
      NoNewlineJoined("# Каждая функция ", "должна быть на отдельной строке");
    } else {
      NoNewlineJoined("# Комментарии начинаются ", "с символа #");
    }
  }

  /** The header lines are comments without a newline of their own. */
  lemma HeaderLines()
    ensures forall i :: 0 <= i < |CommentHeader| ==>
      IsComment(CommentHeader[i]) && '\n' !in CommentHeader[i]
  {
    forall i | 0 <= i < |CommentHeader|
      ensures IsComment(CommentHeader[i]) && '\n' !in CommentHeader[i]
    {
      HeaderLine(i);
    }
  }

  /** The lines of a saved file: the comment header, a blank line, then one
      function per line. */
  function SavedLines(functions: seq<string>): (lines: seq<string>)
    ensures |lines| == |functions| + 4
    ensures lines[3] == [] && lines[4..] == functions
    ensures forall i :: 0 <= i < 3 ==> IsComment(lines[i]) && '\n' !in lines[i]
  {
    HeaderLines();
    CommentHeader + [""] + functions
  }

  /** `save_functions`: nothing is written for an empty list or when no path was
      chosen; otherwise the file holds the saved lines, each ended by a newline. */
  method SaveFunctions(functions: seq<string>, path: string) returns (written: Option<string>)
    ensures functions == [] || path == [] ==> written == None
    ensures functions != [] && path != [] ==> written == Some(JoinLines(SavedLines(functions)))
  {
    if functions == [] {
      return None;
    }
    if path == [] {
      return None;
    }
    var text := CommentHeader[0] + "\n";
    text := text + CommentHeader[1] + "\n";
    text := text + CommentHeader[2] + "\n" + "\n";
    ghost var header := CommentHeader + [""];
    assert header == [CommentHeader[0], CommentHeader[1], CommentHeader[2], ""];
    JoinFourLines(CommentHeader[0], CommentHeader[1], CommentHeader[2], "");
    assert header + functions[..0] == header;
    for i := 0 to |functions|
      invariant text == JoinLines(header + functions[..i])
    {
      JoinLinesAppend(header + functions[..i], functions[i]);
      assert header + functions[..i] + [functions[i]] == header + functions[..i + 1];
      text := text + functions[i] + "\n";
    }
    assert functions[..|functions|] == functions;
    return Some(text);
  }

  /** A line starting with `#`, read back with its newline, is skipped. */
  lemma CommentSkipped(h: string)
    requires IsComment(h)
    ensures !Kept(Strip(h + "\n"))
  {
    StripTrailingSpace(h, '\n');
    StripKeepsFirst(h);
    var r := Strip(h);
    assert r[..1] == "#";
    assert StartsWith(Strip(h + "\n"), "#");
  }

  /** No line of the lines is kept: nothing is loaded. */
  lemma {:induction false} NothingLoaded(lines: seq<string>)
    requires forall i :: 0 <= i < |lines| ==> !Kept(Strip(lines[i]))
    ensures Loaded(lines) == []
  {
    if lines != [] {
      NothingLoaded(lines[..|lines| - 1]);
    }
  }

  /** A stripped line read back with its newline strips to itself. */
  lemma StrippedLineReread(f: string)
    requires IsStripped(f)
    ensures Strip(f + "\n") == f
  {
    StripTrailingSpace(f, '\n');
    StripStripped(f);
  }

  /** A function that is stripped and kept, read back with its newline, is
      loaded as itself. */
  lemma {:induction false} FunctionsReloaded(functions: seq<string>)
    requires forall i :: 0 <= i < |functions| ==> IsStripped(functions[i]) && Kept(functions[i])
    ensures Loaded(Terminated(functions)) == functions
  {
    if functions != [] {
      var n := |functions| - 1;
      var lines := Terminated(functions);
      assert functions[..n] + [functions[n]] == functions;
      assert lines[..n + 1] == lines;
      assert lines[..n] == Terminated(functions[..n]);
      FunctionsReloaded(functions[..n]);
      StrippedLineReread(functions[n]);
      LoadedStep(lines, n, functions[n]);
    }
  }

  /** Nothing of the header and the blank line after it is loaded. */
  lemma HeaderSkipped()
    ensures Loaded(Terminated(CommentHeader + [""])) == []
  {
    var lines := Terminated(CommentHeader + [""]);
    forall i | 0 <= i < |lines|
      ensures !Kept(Strip(lines[i]))
    {
      if i < 3 {
        HeaderLines();
        CommentSkipped(CommentHeader[i]);
      } else {
        StripTrailingSpace("", '\n');
        assert lines[i] == "" + "\n";
      }
    }
    NothingLoaded(lines);
  }

  /** Loading a saved file gives back the saved list, provided every function
      is stripped, has no newline, is not a comment and is valid. */
  lemma LoadAfterSave(functions: seq<string>)
    requires forall i :: 0 <= i < |functions| ==>
      '\n' !in functions[i] && IsStripped(functions[i]) && Kept(functions[i])
    ensures LoadResult(Read(JoinLines(SavedLines(functions)))) == functions
  {
    var header := CommentHeader + [""];
    var lines := SavedLines(functions);
    assert lines == header + functions;
    forall i | 0 <= i < |lines|
      ensures '\n' !in lines[i]
    {
      if i >= 4 {
        assert lines[i] == functions[i - 4];
      }
    }
    SplitJoinLines(lines);
    TerminatedAppend(header, functions);
    LoadedAppend(Terminated(header), Terminated(functions));
    HeaderSkipped();
    FunctionsReloaded(functions);
  }

  lemma TerminatedAppend(a: seq<string>, b: seq<string>)
    ensures Terminated(a + b) == Terminated(a) + Terminated(b)
  {
    forall k | 0 <= k < |a| + |b|
      ensures Terminated(a + b)[k] == (Terminated(a) + Terminated(b))[k]
    {
      if k >= |a| {
        assert (a + b)[k] == b[k - |a|];
      }
    }
  }

  // ---------------------------------------------------------------------------
  // Exporting the plot
  // ---------------------------------------------------------------------------

  /** The path with `ext` appended, unless it already ends in `ext` whatever
      the case of its letters. */
  function Suffixed(path: string, ext: string): (r: string)
    requires Lower(ext) == ext
    ensures r == path || r == path + ext
    ensures EndsWith(Lower(r), ext)
    ensures EndsWith(Lower(path), ext) ==> r == path
  {
    if EndsWith(Lower(path), ext) then path
    else
      assert Lower(path + ext)[|path|..] == Lower(ext);
      path + ext
  }

  /** The extension fix-up of `export_plot`, chosen by the first format named
      in the selected filter. */
  function FixExtension(path: string, filter: string): (r: string)
    ensures r == path || r == path + ".png" || r == path + ".jpg" || r == path + ".pdf"
            || r == path + ".svg"
    ensures Contains(filter, "PNG") ==>
      EndsWith(Lower(r), ".png") && (EndsWith(Lower(path), ".png") ==> r == path)
    ensures !Contains(filter, "PNG") && Contains(filter, "JPEG") ==>
      (EndsWith(Lower(r), ".jpg") || EndsWith(Lower(r), ".jpeg"))
      && (EndsWith(Lower(path), ".jpg") || EndsWith(Lower(path), ".jpeg") ==> r == path)
    ensures !Contains(filter, "PNG") && !Contains(filter, "JPEG") && Contains(filter, "PDF") ==>
      EndsWith(Lower(r), ".pdf") && (EndsWith(Lower(path), ".pdf") ==> r == path)
    ensures (!Contains(filter, "PNG") && !Contains(filter, "JPEG") && !Contains(filter, "PDF")
             && Contains(filter, "SVG")) ==>
      EndsWith(Lower(r), ".svg") && (EndsWith(Lower(path), ".svg") ==> r == path)
    ensures (!Contains(filter, "PNG") && !Contains(filter, "JPEG") && !Contains(filter, "PDF")
             && !Contains(filter, "SVG")) ==> r == path
  {
    if Contains(filter, "PNG") then Suffixed(path, ".png")
    else if Contains(filter, "JPEG") then
      if EndsWith(Lower(path), ".jpeg") then path else Suffixed(path, ".jpg")
    else if Contains(filter, "PDF") then Suffixed(path, ".pdf")
    else if Contains(filter, "SVG") then Suffixed(path, ".svg")
    else path
  }

  /** Where the image is saved: nowhere when no path was chosen. */
  function ExportTarget(path: string, filter: string): (target: Option<string>)
    ensures target.None? <==> path == []
    ensures target.Some? ==> StartsWith(target.value, path)
  {
    if path == [] then None else Some(FixExtension(path, filter))
  }

  /** Fixing the extension twice is fixing it once. */
  lemma FixExtensionIdempotent(path: string, filter: string)
    ensures FixExtension(FixExtension(path, filter), filter) == FixExtension(path, filter)
  {
  }
}
