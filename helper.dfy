/**
 * Helper operations: hash-array initialisation, the first-character
 * bucketer, node construction, the structural check of a backup file, and
 * removal from and clearing of the file list.
 */
module Helper {

  import opened InvertedSearch

  /** The hash array as initialisation leaves it: slot i records index i and has no words. */
  function EmptyTable(): (t: Table)
    ensures |t| == HASH_SIZE
    ensures forall i :: 0 <= i < HASH_SIZE ==> t[i].index == i && t[i].chain == []
  {
    seq(HASH_SIZE, i => HashSlot(i, []))
  }

  /** Writes every slot of the hash array: its own index and an empty chain. */
  method InitialiseHash(hash: array<HashSlot>) returns (st: Status)
    requires hash.Length == HASH_SIZE
    modifies hash
    ensures hash[..] == EmptyTable()
    ensures st == Success
  {
    for i := 0 to HASH_SIZE
      invariant forall k :: 0 <= k < i ==> hash[k] == HashSlot(k, [])
    {
      hash[i] := HashSlot(i, []);
    }
    st := Success;
  }

  predicate IsUpper(c: char) { 'A' <= c <= 'Z' }

  predicate IsLower(c: char) { 'a' <= c <= 'z' }

  /** The lower-case form of an ASCII letter; other characters are unchanged. */
  function ToLower(c: char): char
  {
    if IsUpper(c) then (c as int - 'A' as int + 'a' as int) as char else c
  }

  /**
   * The bucket of a word, chosen by its first character: the letter's place
   * in the alphabet for an ASCII letter of either case, 26 for anything else.
   * The empty word's first character is the terminating NUL, so it goes to 26.
   */
  function FindIndex(w: string): (i: nat)
    ensures i < HASH_SIZE
    ensures i < 26 <==> |w| > 0 && (IsUpper(w[0]) || IsLower(w[0]))
    ensures i < 26 ==> ToLower(w[0]) as int == 'a' as int + i
  {
    var c := if |w| > 0 then w[0] else '\0';
    if IsUpper(c) then c as int - 'A' as int
    else if IsLower(c) then c as int - 'a' as int
    else 26
  }

  /** Words whose first characters differ only in letter case share a bucket. */
  lemma SameBucketIgnoringCase(w1: string, w2: string)
    requires |w1| > 0 && |w2| > 0 && ToLower(w1[0]) == ToLower(w2[0])
    ensures FindIndex(w1) == FindIndex(w2)
  {
  }

  /** A new main node: the word, a file count of one, no sub nodes yet. */
  function CreateMainNode(w: string): (e: Entry)
    ensures e.word == w && e.fileCount == 1 && e.occs == []
  {
    Entry(w, 1, [])
  }

  /** A new sub node: the file name and a count of one. */
  function CreateSubNode(f: string): (o: Occ)
    ensures o.name == f && o.count == 1
  {
    Occ(f, 1)
  }

  /**
   * The entry the build creates for a word seen for the first time: a main
   * node holding the one sub node of the current file, so that its file count
   * equals the length of its sub-node list and its one count is 1.
   */
  lemma NewEntryShape(w: string, f: string)
    ensures var e := CreateMainNode(w).(occs := [CreateSubNode(f)]);
      e.word == w && e.fileCount == |e.occs| == 1 && e.occs[0].name == f && e.occs[0].count == 1
  {
  }

  /** What `fgetc` returns at a position: a character, or None at end of file. */
  function CharAt(content: string, pos: nat): Option<char>
  {
    if pos < |content| then Some(content[pos]) else None
  }

  /**
   * The structural check of a backup: the first character must be '#', and
   * after seeking to two characters before the end, the character read must
   * be '#' too. When the file is shorter than two characters the seek fails,
   * the position stays after the first character, and the read meets end of
   * file.
   */
  function ValidateBackupDatabase(content: string): (st: Status)
    ensures st == Success || st == Failure
    ensures st == Success <==> |content| >= 2 && content[0] == '#' && content[|content| - 2] == '#'
  {
    if CharAt(content, 0) != Some('#') then Failure
    else
      var pos := if |content| >= 2 then |content| - 2 else 1;
      if CharAt(content, pos) != Some('#') then Failure else Success
  }

  /** The position of the first occurrence of `x` in `s`, or |s| when there is none. */
  function IndexOf(s: seq<string>, x: string): (i: nat)
    ensures i <= |s|
    ensures i < |s| ==> s[i] == x
    ensures forall k :: 0 <= k < i ==> s[k] != x
  {
    if s == [] then 0
    else if s[0] == x then 0
    else 1 + IndexOf(s[1..], x)
  }

  /** Putting the head back in front of the tail with its element at `k` cut out. */
  lemma CutFromTail(s: seq<string>, k: nat)
    requires k + 1 < |s|
    ensures [s[0]] + (s[1..][..k] + s[1..][k + 1..]) == s[..k + 1] + s[k + 2..]
  {
    var u := [s[0]] + (s[1..][..k] + s[1..][k + 1..]);
    assert forall i :: 0 <= i < |u| ==> u[i] == if i <= k then s[i] else s[i + 1];
  }

  /** The list with its first node holding `x` unlinked; the list itself when there is none. */
  function RemoveFirst(s: seq<string>, x: string): (r: seq<string>)
    ensures x !in s ==> r == s
    ensures x in s ==> r == s[..IndexOf(s, x)] + s[IndexOf(s, x) + 1..]
  {
    if s == [] then []
    else if s[0] == x then s[1..]
    else if x in s[1..] then
      CutFromTail(s, IndexOf(s[1..], x));
      [s[0]] + RemoveFirst(s[1..], x)
    else
      assert s == [s[0]] + s[1..];
      [s[0]] + RemoveFirst(s[1..], x)
  }

  /** Removing the first occurrence removes exactly one copy of the name and keeps the others. */
  lemma RemoveFirstMultiset(s: seq<string>, x: string)
    ensures x in s ==> multiset(RemoveFirst(s, x)) == multiset(s) - multiset{x}
    ensures x in s ==> |RemoveFirst(s, x)| == |s| - 1
  {
    if x in s {
      var i := IndexOf(s, x);
      assert s == s[..i] + [s[i]] + s[i + 1..];
    }
  }

  /** Removing `x` keeps every other name: another name is in the result exactly when it was in the list. */
  lemma RemoveFirstMembers(s: seq<string>, x: string, y: string)
    requires y != x
    ensures y in RemoveFirst(s, x) <==> y in s
  {
  }

  /** In a list without repeated names, removal keeps it repeat-free, the name is gone afterwards, so a second removal is a no-op. */
  lemma RemoveFirstNoDup(s: seq<string>, x: string)
    requires NoDup(s)
    ensures NoDup(RemoveFirst(s, x))
    ensures x !in RemoveFirst(s, x)
    ensures RemoveFirst(RemoveFirst(s, x), x) == RemoveFirst(s, x)
  {
  }

  /**
   * Removes the first node of the file list whose name is `name`, walking the
   * list with a previous and a current position.
   */
  method DeleteDuplicateFile(fl: FileList, name: string) returns (st: Status)
    modifies fl
    ensures st == Success || st == Failure
    ensures st == Success <==> name in old(fl.files)
    ensures fl.files == RemoveFirst(old(fl.files), name)
  {
    var i := 0;
    while i < |fl.files| && fl.files[i] != name
      invariant 0 <= i <= |fl.files|
      invariant forall k :: 0 <= k < i ==> fl.files[k] != name
    {
      i := i + 1;
    }
    if i < |fl.files| {
      fl.files := fl.files[..i] + fl.files[i + 1..];
      st := Success;
    } else {
      st := Failure;
    }
  }

  /** Frees the file list node by node; fails when the list is already empty. */
  method DeleteList(fl: FileList) returns (st: Status)
    modifies fl
    ensures fl.files == []
    ensures st == Success || st == Failure
    ensures st == Failure <==> old(fl.files) == []
  {
    if fl.files == [] {
      return Failure;
    }
    while fl.files != []
      decreases |fl.files|
    {
      fl.files := fl.files[1..];
    }
    st := Success;
  }
}
