/**
 * Validation of the file names given on the command line: the extension
 * check, the duplicate check, appending to the file list, and the loop that
 * builds the file list from the arguments.
 */
module Validate {

  import opened InvertedSearch

  /** The position of the last '.' in a name, if there is one (`strrchr`). */
  function LastDot(name: string): (r: Option<nat>)
    ensures r.None? <==> forall k :: 0 <= k < |name| ==> name[k] != '.'
    ensures r.Some? ==> r.value < |name| && name[r.value] == '.'
    ensures r.Some? ==> forall k :: r.value < k < |name| ==> name[k] != '.'
  {
    if name == [] then None
    else if name[|name| - 1] == '.' then Some(|name| - 1)
    else LastDot(name[..|name| - 1])
  }

  /** The name ends in ".txt". */
  predicate EndsWithTxt(name: string)
  {
    |name| >= 4 && name[|name| - 4..] == ".txt"
  }

  /**
   * The extension check: the text from the last '.' to the end must be
   * exactly ".txt". This is the same as the name ending in ".txt".
   */
  function ValidateFileExtension(name: string): (st: Status)
    ensures st == Success || st == Failure
    ensures st == Success <==> EndsWithTxt(name)
  {
    assert EndsWithTxt(name) ==> (name[|name| - 4] == '.' && name[|name| - 3] == 't' &&
                                  name[|name| - 2] == 'x' && name[|name| - 1] == 't');
    match LastDot(name)
    case None => Failure
    case Some(d) => if name[d..] == ".txt" then Success else Failure
  }

  /** Names the extension check rejects and accepts. */
  lemma ExtensionExamples()
    ensures ValidateFileExtension("notes.txt") == Success
    ensures ValidateFileExtension("notes") == Failure
    ensures ValidateFileExtension("notes.txt.bak") == Failure
    ensures ValidateFileExtension("notes.TXT") == Failure
    ensures ValidateFileExtension(".txt") == Success
  {
    assert "notes.txt"[5..] == ".txt";
    assert "notes"[1..] == "otes";
    assert "notes.txt.bak"[9..] == ".bak";
    assert "notes.TXT"[5..] == ".TXT";
  }

  /** The duplicate check: Duplicate when the name is already in the list, Success otherwise. */
  function ValidateDuplicateFile(name: string, files: seq<string>): (st: Status)
    ensures st == Duplicate || st == Success
    ensures st == Duplicate <==> name in files
  {
    if files == [] then Success
    else if files[0] == name then Duplicate
    else ValidateDuplicateFile(name, files[1..])
  }

  /** Links a new node holding `name` after the last node of the list. */
  method InsertAtLast(fl: FileList, name: string) returns (st: Status)
    modifies fl
    ensures fl.files == old(fl.files) + [name]
    ensures st == Success
  {
    fl.files := fl.files + [name];
    st := Success;
  }

  /**
   * A command-line name the file list admits, apart from the duplicate check:
   * it has the ".txt" extension, it can be opened, and it is not empty.
   */
  predicate Acceptable(name: string, fs: FileSystem)
    ensures Acceptable(name, fs) <==> EndsWithTxt(name) && name in fs && fs[name] != []
  {
    ValidateFileExtension(name) == Success && name in fs && |fs[name]| > 0
  }

  /** The file list after the validation loop has looked at each of `args` in turn. */
  function AdmitAll(files: seq<string>, args: seq<string>, fs: FileSystem): (r: seq<string>)
    ensures |files| <= |r|
    ensures r[..|files|] == files
  {
    if args == [] then files
    else
      var acc := AdmitAll(files, args[..|args| - 1], fs);
      var a := args[|args| - 1];
      if Acceptable(a, fs) && ValidateDuplicateFile(a, acc) != Duplicate then acc + [a] else acc
  }

  /**
   * An independent description of what the loop adds: each acceptable
   * argument that is neither in the initial list nor equal to an earlier
   * argument, in argument order.
   */
  function FirstAcceptable(files: seq<string>, args: seq<string>, fs: FileSystem): seq<string>
  {
    if args == [] then []
    else
      var pre := args[..|args| - 1];
      var a := args[|args| - 1];
      FirstAcceptable(files, pre, fs)
        + (if Acceptable(a, fs) && a !in files && a !in pre then [a] else [])
  }

  /** A name is in the list the loop builds exactly when it was there before or is an acceptable argument. */
  lemma {:induction false} AdmitAllMembers(files: seq<string>, args: seq<string>, fs: FileSystem, x: string)
    ensures x in AdmitAll(files, args, fs) <==> x in files || (x in args && Acceptable(x, fs))
  {
    if args != [] {
      var pre := args[..|args| - 1];
      AdmitAllMembers(files, pre, fs, x);
      assert args == pre + [args[|args| - 1]];
    }
  }

  /** The loop appends exactly the first acceptable occurrence of each new name, in argument order. */
  lemma {:induction false} AdmitAllKeepsFirst(files: seq<string>, args: seq<string>, fs: FileSystem)
    ensures AdmitAll(files, args, fs) == files + FirstAcceptable(files, args, fs)
  {
    if args != [] {
      var pre := args[..|args| - 1];
      var a := args[|args| - 1];
      AdmitAllKeepsFirst(files, pre, fs);
      AdmitAllMembers(files, pre, fs, a);
    }
  }

  /** Starting from a list without repeats, the loop never adds a name twice. */
  lemma {:induction false} AdmitAllNoDup(files: seq<string>, args: seq<string>, fs: FileSystem)
    requires NoDup(files)
    ensures NoDup(AdmitAll(files, args, fs))
  {
    if args != [] {
      AdmitAllNoDup(files, args[..|args| - 1], fs);
    }
  }

  /** The arguments after the program name; none when there is no argument at all. */
  function Arguments(argv: seq<string>): seq<string>
  {
    if |argv| == 0 then [] else argv[1..]
  }

  /**
   * The validation loop over the command line: each argument after the
   * program name is checked for its extension, for being openable and
   * non-empty, and for not being in the list yet, and then appended. Success
   * when at least one file was added.
   */
  method ReadAndValidateInputArguments(argv: seq<string>, fs: FileSystem, fl: FileList) returns (st: Status)
    requires forall k :: 0 < k < |argv| && Acceptable(argv[k], fs) ==> |argv[k]| < FILE_SIZE
    modifies fl
    ensures fl.files == AdmitAll(old(fl.files), Arguments(argv), fs)
    ensures st == Success || st == Failure
    ensures st == Success <==> |fl.files| > |old(fl.files)|
  {
    var count := 0;
    var i := 1;
    while i < |argv|
      invariant 1 <= i && (i <= |argv| || (|argv| == 0 && i == 1))
      invariant fl.files == AdmitAll(old(fl.files), Arguments(argv)[..i - 1], fs)
      invariant |fl.files| == |old(fl.files)| + count
    {
      ghost var done := Arguments(argv)[..i];
      assert done[..i - 1] == Arguments(argv)[..i - 1] && done[i - 1] == argv[i];
      ghost var goal := AdmitAll(old(fl.files), done, fs);
      assert goal == if Acceptable(argv[i], fs) && ValidateDuplicateFile(argv[i], fl.files) != Duplicate
                     then fl.files + [argv[i]] else fl.files;
      var a := argv[i];
      i := i + 1;
      if ValidateFileExtension(a) == Failure {
        continue;
      }
      if a !in fs {            // cannot be opened
        continue;
      }
      if |fs[a]| == 0 {        // empty file
        continue;
      }
      if ValidateDuplicateFile(a, fl.files) == Duplicate {
        continue;
      }
      var inserted := InsertAtLast(fl, a);
      if inserted == Failure {
        continue;
      }
      count := count + 1;
    }
    assert Arguments(argv)[..i - 1] == Arguments(argv);
    st := if count > 0 then Success else Failure;
  }
}
