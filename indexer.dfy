/**
 * What building the index computes and what a search returns, as functions
 * of the hash array's value, with the invariants the build keeps and the
 * counts it produces.
 */
module Indexer {

  import opened InvertedSearch
  import opened Scan
  import opened Helper

  /** Position of the first main node of the chain whose word is `w`; |c| when there is none. */
  function WordPos(c: seq<Entry>, w: string): (i: nat)
    ensures i <= |c|
    ensures i < |c| ==> c[i].word == w
    ensures forall k :: 0 <= k < i ==> c[k].word != w
  {
    if c == [] then 0 else if c[0].word == w then 0 else 1 + WordPos(c[1..], w)
  }

  /** Position of the first sub node whose file name is `f`; |os| when there is none. */
  function OccPos(os: seq<Occ>, f: string): (j: nat)
    ensures j <= |os|
    ensures j < |os| ==> os[j].name == f
    ensures forall k :: 0 <= k < j ==> os[k].name != f
  {
    if os == [] then 0 else if os[0].name == f then 0 else 1 + OccPos(os[1..], f)
  }

  /** The first-match position is determined by where the word first occurs. */
  lemma WordPosIs(c: seq<Entry>, w: string, i: nat)
    requires i <= |c| && (i < |c| ==> c[i].word == w)
    requires forall k :: 0 <= k < i ==> c[k].word != w
    ensures WordPos(c, w) == i
  {
  }

  /** The first-match position is determined by where the name first occurs. */
  lemma OccPosIs(os: seq<Occ>, f: string, j: nat)
    requires j <= |os| && (j < |os| ==> os[j].name == f)
    requires forall k :: 0 <= k < j ==> os[k].name != f
    ensures OccPos(os, f) == j
  {
  }

  /**
   * An existing main node meeting its word once more in file `f`: the count
   * of the sub node for `f` goes up by one, or, when the file is new for this
   * word, a sub node with count one is appended and the file count goes up.
   */
  function CountFile(e: Entry, f: string): (r: Entry)
    ensures r.word == e.word && |r.occs| >= |e.occs|
  {
    var j := OccPos(e.occs, f);
    if j == |e.occs| then Entry(e.word, e.fileCount + 1, e.occs + [CreateSubNode(f)])
    else e.(occs := e.occs[j := e.occs[j].(count := e.occs[j].count + 1)])
  }

  /** Counting a file adds it at the end of the node's file list, and to its file count, only when it is new there. */
  lemma CountFileNames(e: Entry, f: string)
    ensures CountFile(e, f).fileCount == e.fileCount + (if f in Names(e.occs) then 0 else 1)
    ensures Names(CountFile(e, f).occs) == Names(e.occs) + (if f in Names(e.occs) then [] else [f])
  {
  }

  /**
   * A chain after reading word `w` from file `f`: the first main node for `w`
   * counts the file, or a new main node is appended at the end.
   */
  function AddToChain(c: seq<Entry>, w: string, f: string): (r: seq<Entry>)
    ensures |c| <= |r| <= |c| + 1
  {
    var i := WordPos(c, w);
    if i == |c| then c + [CreateMainNode(w).(occs := [CreateSubNode(f)])]
    else c[i := CountFile(c[i], f)]
  }

  /** A new main node goes to the end of the chain, and only for a word the chain lacks. */
  lemma AddToChainWords(c: seq<Entry>, w: string, f: string)
    ensures Words(AddToChain(c, w, f)) == Words(c) + (if w in Words(c) then [] else [w])
  {
  }

  /** The hash array after reading word `w` from file `f`. */
  function AddToken(t: Table, w: string, f: string): (r: Table)
    requires |t| == HASH_SIZE
    ensures |r| == HASH_SIZE
    ensures forall b :: 0 <= b < HASH_SIZE ==> r[b].index == t[b].index
    ensures forall b :: 0 <= b < HASH_SIZE && b != FindIndex(w) ==> r[b] == t[b]
  {
    var b := FindIndex(w);
    t[b := HashSlot(t[b].index, AddToChain(t[b].chain, w, f))]
  }

  /** The hash array after reading the tokens `toks` of file `f`, in order. */
  function AddFile(t: Table, f: string, toks: seq<string>): (r: Table)
    requires |t| == HASH_SIZE
    ensures |r| == HASH_SIZE
    ensures forall b :: 0 <= b < HASH_SIZE ==> r[b].index == t[b].index
  {
    if toks == [] then t
    else AddToken(AddFile(t, f, toks[..|toks| - 1]), toks[|toks| - 1], f)
  }

  /** Reading one more token is one more step of the build over that file. */
  lemma AddFileSnoc(t: Table, f: string, toks: seq<string>, w: string)
    requires |t| == HASH_SIZE
    ensures AddFile(t, f, toks + [w]) == AddToken(AddFile(t, f, toks), w, f)
  {
    assert (toks + [w])[..|toks|] == toks;
  }

  /**
   * The hash array after the build has walked the file list: a file that
   * cannot be opened is skipped, every other one contributes its tokens.
   */
  function Build(t: Table, files: seq<string>, fs: FileSystem): (r: Table)
    requires |t| == HASH_SIZE
    ensures |r| == HASH_SIZE
    ensures forall b :: 0 <= b < HASH_SIZE ==> r[b].index == t[b].index
  {
    if files == [] then t
    else
      var u := Build(t, files[..|files| - 1], fs);
      var f := files[|files| - 1];
      if f in fs then AddFile(u, f, Tokens(fs[f])) else u
  }

  // ---------------------------------------------------------------------
  // The invariant the build keeps

  /** A main node whose file count is the length of its sub-node list, whose counts are positive and whose file names are distinct. */
  predicate EntryOk(e: Entry)
  {
    && e.fileCount == |e.occs|
    && |e.occs| > 0
    && (forall k :: 0 <= k < |e.occs| ==> e.occs[k].count >= 1)
    && (forall k, l :: 0 <= k < l < |e.occs| ==> e.occs[k].name != e.occs[l].name)
  }

  /** A chain of well-formed main nodes, all belonging to bucket `b`, with distinct words. */
  predicate ChainOk(b: int, c: seq<Entry>)
  {
    && (forall k :: 0 <= k < |c| ==> EntryOk(c[k]) && FindIndex(c[k].word) == b)
    && (forall k, l :: 0 <= k < l < |c| ==> c[k].word != c[l].word)
  }

  predicate WellFormed(t: Table)
  {
    |t| == HASH_SIZE && forall b :: 0 <= b < HASH_SIZE ==> ChainOk(b, t[b].chain)
  }

  lemma CountFileOk(e: Entry, f: string)
    requires EntryOk(e)
    ensures EntryOk(CountFile(e, f)) && CountFile(e, f).word == e.word
  {
  }

  /** Reading one token keeps every invariant of the hash array. */
  lemma AddTokenWellFormed(t: Table, w: string, f: string)
    requires WellFormed(t)
    ensures WellFormed(AddToken(t, w, f))
  {
    var b := FindIndex(w);
    var c := t[b].chain;
    var i := WordPos(c, w);
    if i < |c| {
      CountFileOk(c[i], f);
    }
  }

  lemma {:induction false} AddFileWellFormed(t: Table, f: string, toks: seq<string>)
    requires WellFormed(t)
    ensures WellFormed(AddFile(t, f, toks))
  {
    if toks != [] {
      AddFileWellFormed(t, f, toks[..|toks| - 1]);
      AddTokenWellFormed(AddFile(t, f, toks[..|toks| - 1]), toks[|toks| - 1], f);
    }
  }

  /**
   * After a build every main node sits in the bucket of its word, its file
   * count equals the length of its sub-node list, its counts are positive,
   * no two of its sub nodes name the same file, and no two main nodes of a
   * bucket hold the same word.
   */
  lemma {:induction false} BuildWellFormed(t: Table, files: seq<string>, fs: FileSystem)
    requires WellFormed(t)
    ensures WellFormed(Build(t, files, fs))
  {
    if files != [] {
      var pre := files[..|files| - 1];
      var f := files[|files| - 1];
      BuildWellFormed(t, pre, fs);
      if f in fs {
        AddFileWellFormed(Build(t, pre, fs), f, Tokens(fs[f]));
      }
    }
  }

  // ---------------------------------------------------------------------
  // Counts

  /** The count recorded for word `w` in file `f`: that of the first matching sub node of the first matching main node, 0 when there is none. */
  function CountIn(t: Table, w: string, f: string): int
    requires |t| == HASH_SIZE
  {
    ChainCount(t[FindIndex(w)].chain, w, f)
  }

  function ChainCount(c: seq<Entry>, w: string, f: string): int
  {
    var i := WordPos(c, w);
    if i == |c| then 0 else OccCount(c[i].occs, f)
  }

  function OccCount(os: seq<Occ>, f: string): int
  {
    var j := OccPos(os, f);
    if j == |os| then 0 else os[j].count
  }

  lemma CountFileCount(e: Entry, f: string, g: string)
    ensures OccCount(CountFile(e, f).occs, g) == OccCount(e.occs, g) + (if g == f then 1 else 0)
  {
    var os := e.occs;
    var j := OccPos(os, f);
    var os' := CountFile(e, f).occs;
    var jg := OccPos(os, g);
    if j == |os| {
      if g == f {
        OccPosIs(os', g, |os|);
      } else {
        OccPosIs(os', g, if jg < |os| then jg else |os| + 1);
      }
    } else {
      OccPosIs(os', g, jg);
    }
  }

  lemma AddToChainCount(c: seq<Entry>, w: string, f: string, v: string, g: string)
    ensures ChainCount(AddToChain(c, w, f), v, g) == ChainCount(c, v, g) + (if v == w && g == f then 1 else 0)
  {
    var i := WordPos(c, w);
    var c' := AddToChain(c, w, f);
    var iv := WordPos(c, v);
    if i == |c| {
      if v == w {
        WordPosIs(c', v, |c|);
        if g == f {
          OccPosIs(c'[|c|].occs, g, 0);
        } else {
          OccPosIs(c'[|c|].occs, g, 1);
        }
      } else {
        WordPosIs(c', v, if iv < |c| then iv else |c| + 1);
      }
    } else {
      WordPosIs(c', v, iv);
      if iv == i {
        CountFileCount(c[i], f, g);
      }
    }
  }

  /** Reading word `w` from file `f` raises the count of (w, f) by one and no other count. */
  lemma AddTokenCount(t: Table, w: string, f: string, v: string, g: string)
    requires |t| == HASH_SIZE
    ensures CountIn(AddToken(t, w, f), v, g) == CountIn(t, v, g) + (if v == w && g == f then 1 else 0)
  {
    if FindIndex(v) == FindIndex(w) {
      AddToChainCount(t[FindIndex(w)].chain, w, f, v, g);
    }
  }

  /** Reading a file raises the count of each of its words, for that file, by the word's number of occurrences. */
  lemma {:induction false} AddFileCount(t: Table, f: string, toks: seq<string>, v: string, g: string)
    requires |t| == HASH_SIZE
    ensures CountIn(AddFile(t, f, toks), v, g) == CountIn(t, v, g) + (if g == f then Freq(toks, v) else 0)
  {
    if toks != [] {
      var pre := toks[..|toks| - 1];
      AddFileCount(t, f, pre, v, g);
      AddTokenCount(AddFile(t, f, pre), toks[|toks| - 1], f, v, g);
    }
  }

  /**
   * Over a list of distinct file names, the build adds to the count of word
   * `v` in file `g` the number of tokens of `g` equal to `v` when `g` is in
   * the list and can be opened, and nothing otherwise.
   */
  lemma {:induction false} BuildCount(t: Table, files: seq<string>, fs: FileSystem, v: string, g: string)
    requires |t| == HASH_SIZE
    requires NoDup(files)
    ensures CountIn(Build(t, files, fs), v, g)
         == CountIn(t, v, g) + (if g in files && g in fs then Freq(Tokens(fs[g]), v) else 0)
  {
    if files != [] {
      var pre := files[..|files| - 1];
      var f := files[|files| - 1];
      assert files == pre + [f];
      BuildCount(t, pre, fs, v, g);
      if f in fs {
        AddFileCount(Build(t, pre, fs), f, Tokens(fs[f]), v, g);
      }
    }
  }

  // ---------------------------------------------------------------------
  // Presence and order

  /** Some main node of the word's bucket holds the word. */
  predicate Present(t: Table, w: string)
    requires |t| == HASH_SIZE
  {
    WordPos(t[FindIndex(w)].chain, w) < |t[FindIndex(w)].chain|
  }

  /** Reading a token adds its word when it is new and keeps every word already there. */
  lemma AddTokenPresent(t: Table, w: string, f: string, v: string)
    requires |t| == HASH_SIZE
    ensures Present(AddToken(t, w, f), v) <==> Present(t, v) || v == w
  {
    var b := FindIndex(w);
    var c := t[b].chain;
    var c' := AddToChain(c, w, f);
    if FindIndex(v) == b {
      var iv := WordPos(c, v);
      if WordPos(c, w) == |c| {
        WordPosIs(c', v, if iv < |c| then iv else if v == w then |c| else |c| + 1);
      } else {
        WordPosIs(c', v, iv);
      }
    }
  }

  /** Reading a token keeps the words of every bucket at their places. */
  lemma AddTokenOrder(t: Table, w: string, f: string, b: int)
    requires |t| == HASH_SIZE && 0 <= b < HASH_SIZE
    ensures Words(t[b].chain) <= Words(AddToken(t, w, f)[b].chain)
  {
    if b == FindIndex(w) {
      var c := t[b].chain;
      AddToChainWords(c, w, f);
      assert Words(c) <= Words(c) + (if w in Words(c) then [] else [w]);
    }
  }

  /** After reading a file's tokens a word is present exactly when it was before or it is one of them. */
  lemma {:induction false} AddFilePresent(t: Table, f: string, toks: seq<string>, v: string)
    requires |t| == HASH_SIZE
    ensures Present(AddFile(t, f, toks), v) <==> Present(t, v) || v in toks
  {
    if toks != [] {
      var pre := toks[..|toks| - 1];
      var last := toks[|toks| - 1];
      var u := AddFile(t, f, pre);
      assert AddFile(t, f, toks) == AddToken(u, last, f);
      assert v in toks <==> v in pre || v == last by {
        assert toks == pre + [last];
      }
      AddFilePresent(t, f, pre, v);
      AddTokenPresent(u, last, f, v);
    }
  }

  /** Reading a file's tokens keeps the words of every bucket at their places; new words go after them. */
  lemma {:induction false} AddFileOrder(t: Table, f: string, toks: seq<string>, b: int)
    requires |t| == HASH_SIZE && 0 <= b < HASH_SIZE
    ensures Words(t[b].chain) <= Words(AddFile(t, f, toks)[b].chain)
  {
    if toks != [] {
      var u := AddFile(t, f, toks[..|toks| - 1]);
      AddFileOrder(t, f, toks[..|toks| - 1], b);
      AddTokenOrder(u, toks[|toks| - 1], f, b);
      PrefixTransitive(Words(t[b].chain), Words(u[b].chain), Words(AddFile(t, f, toks)[b].chain));
    }
  }

  lemma PrefixTransitive(a: seq<string>, b: seq<string>, c: seq<string>)
    requires a <= b && b <= c
    ensures a <= c
  {
    assert c[..|a|] == c[..|b|][..|a|];
  }

  /** The file's tokens, or nothing when it cannot be opened. */
  function Opened(fs: FileSystem, f: string): seq<string>
  {
    if f in fs then Tokens(fs[f]) else []
  }

  /** Some file of the list that can be opened holds the word as a token. */
  predicate InSomeFile(files: seq<string>, fs: FileSystem, v: string)
  {
    files != [] && (InSomeFile(files[..|files| - 1], fs, v) || v in Opened(fs, files[|files| - 1]))
  }

  /** The recursive description agrees with "some file of the list holds the word". */
  lemma {:induction false} InSomeFileExists(files: seq<string>, fs: FileSystem, v: string)
    ensures InSomeFile(files, fs, v) <==> exists g :: g in files && v in Opened(fs, g)
  {
    if files != [] {
      var pre := files[..|files| - 1];
      var f := files[|files| - 1];
      InSomeFileExists(pre, fs, v);
      assert files == pre + [f];
      if InSomeFile(files, fs, v) {
        if InSomeFile(pre, fs, v) {
          var g :| g in pre && v in Opened(fs, g);
          assert g in files;
        } else {
          assert f in files;
        }
      }
      if exists g :: g in files && v in Opened(fs, g) {
        var g :| g in files && v in Opened(fs, g);
        if g != f {
          assert g in pre;
        }
      }
    }
  }

  /**
   * After a build a word is present exactly when it was before or it is a
   * token of some file of the list that can be opened.
   */
  lemma {:induction false} BuildPresent(t: Table, files: seq<string>, fs: FileSystem, v: string)
    requires |t| == HASH_SIZE
    ensures Present(Build(t, files, fs), v) <==> Present(t, v) || InSomeFile(files, fs, v)
  {
    if files != [] {
      var pre := files[..|files| - 1];
      var f := files[|files| - 1];
      BuildPresent(t, pre, fs, v);
      AddFilePresent(Build(t, pre, fs), f, Opened(fs, f), v);
    }
  }

  /** A build keeps the words found earlier at their places; words it finds go after them. */
  lemma {:induction false} BuildOrder(t: Table, files: seq<string>, fs: FileSystem, b: int)
    requires |t| == HASH_SIZE && 0 <= b < HASH_SIZE
    ensures Words(t[b].chain) <= Words(Build(t, files, fs)[b].chain)
  {
    if files != [] {
      var pre := files[..|files| - 1];
      var u := Build(t, pre, fs);
      BuildOrder(t, pre, fs, b);
      AddFileOrder(u, files[|files| - 1], Opened(fs, files[|files| - 1]), b);
      PrefixTransitive(Words(t[b].chain), Words(u[b].chain), Words(Build(t, files, fs)[b].chain));
    }
  }

  // ---------------------------------------------------------------------
  // The files recorded for a word, in order

  /** The files recorded for word `v` in a chain: the sub nodes of its first main node, in order; none when the word is absent. */
  function ChainFiles(c: seq<Entry>, v: string): seq<string>
  {
    var i := WordPos(c, v);
    if i == |c| then [] else Names(c[i].occs)
  }

  /** The files recorded for word `v` in the hash array. */
  function FilesOf(t: Table, v: string): seq<string>
    requires |t| == HASH_SIZE
  {
    ChainFiles(t[FindIndex(v)].chain, v)
  }

  /** Reading (w, f) into a chain appends f to the files of w when it is not there yet, and changes no other word's files. */
  lemma AddToChainFiles(c: seq<Entry>, w: string, f: string, v: string)
    ensures ChainFiles(AddToChain(c, w, f), v) == ChainFiles(c, v) + (if v == w && f !in ChainFiles(c, v) then [f] else [])
  {
    var i := WordPos(c, w);
    var c' := AddToChain(c, w, f);
    var iv := WordPos(c, v);
    if i == |c| {
      if v == w {
        WordPosIs(c', v, |c|);
      } else {
        WordPosIs(c', v, if iv < |c| then iv else |c| + 1);
      }
    } else {
      CountFileNames(c[i], f);
      WordPosIs(c', v, iv);
    }
  }

  /** Reading (w, f) appends f to the files of w when it is not there yet, and changes no other word's files. */
  lemma AddTokenFiles(t: Table, w: string, f: string, v: string)
    requires |t| == HASH_SIZE
    ensures FilesOf(AddToken(t, w, f), v) == FilesOf(t, v) + (if v == w && f !in FilesOf(t, v) then [f] else [])
  {
    if FindIndex(v) == FindIndex(w) {
      AddToChainFiles(t[FindIndex(w)].chain, w, f, v);
    }
  }

  /** Reading file f appends f, once, to the files of each of its words that did not list it yet. */
  lemma {:induction false} AddFileFiles(t: Table, f: string, toks: seq<string>, v: string)
    requires |t| == HASH_SIZE
    ensures FilesOf(AddFile(t, f, toks), v) == FilesOf(t, v) + (if v in toks && f !in FilesOf(t, v) then [f] else [])
  {
    if toks != [] {
      var pre := toks[..|toks| - 1];
      var last := toks[|toks| - 1];
      assert toks == pre + [last];
      AddFileFiles(t, f, pre, v);
      AddTokenFiles(AddFile(t, f, pre), last, f, v);
    }
  }

  /** The files of the list that can be opened and contain `v`, in list order. */
  function FilesWith(files: seq<string>, fs: FileSystem, v: string): (r: seq<string>)
    ensures forall g :: g in r <==> g in files && v in Opened(fs, g)
  {
    if files == [] then []
    else
      var pre := files[..|files| - 1];
      var f := files[|files| - 1];
      assert files == pre + [f];
      FilesWith(pre, fs, v) + (if v in Opened(fs, f) then [f] else [])
  }

  /**
   * Over distinct files, a build from an initialised array records for each
   * word exactly the files of the list that contain it, in list order: a
   * file's sub node goes after those of the files read before it.
   */
  lemma {:induction false} BuildFiles(files: seq<string>, fs: FileSystem, v: string)
    requires NoDup(files)
    ensures FilesOf(Build(EmptyTable(), files, fs), v) == FilesWith(files, fs, v)
  {
    if files != [] {
      var pre := files[..|files| - 1];
      var f := files[|files| - 1];
      assert NoDup(pre);
      assert f !in pre;
      BuildFiles(pre, fs, v);
      if f in fs {
        AddFileFiles(Build(EmptyTable(), pre, fs), f, Tokens(fs[f]), v);
      }
    }
  }

  // ---------------------------------------------------------------------
  // Search

  /**
   * The lookup of a word: the first main node of the word's bucket holding
   * exactly that word, or None when there is no such node.
   */
  function Search(t: Table, w: string): (r: Option<Entry>)
    requires |t| == HASH_SIZE
    ensures r.Some? <==> w in Words(t[FindIndex(w)].chain)
    ensures r.Some? ==> r.value.word == w
    ensures r.Some? ==> exists k :: 0 <= k < |t[FindIndex(w)].chain| && t[FindIndex(w)].chain[k] == r.value
                         && forall j :: 0 <= j < k ==> t[FindIndex(w)].chain[j].word != w
  {
    var c := t[FindIndex(w)].chain;
    var i := WordPos(c, w);
    if i == |c| then None else Some(c[i])
  }

  /** The node found after a build counts, per sub node, the occurrences of the word in that listed file. */
  lemma SearchAfterBuildCounts(files: seq<string>, fs: FileSystem, w: string)
    requires NoDup(files)
    ensures var r := Search(Build(EmptyTable(), files, fs), w);
      r.Some? ==> forall k :: 0 <= k < |r.value.occs| ==>
        r.value.occs[k].name in files && r.value.occs[k].count == Freq(Opened(fs, r.value.occs[k].name), w) > 0
  {
    var t := Build(EmptyTable(), files, fs);
    var c := t[FindIndex(w)].chain;
    var i := WordPos(c, w);
    if i < |c| {
      var os := c[i].occs;
      assert EntryOk(c[i]) by {
        BuildWellFormed(EmptyTable(), files, fs);
      }
      forall k | 0 <= k < |os|
        ensures os[k].name in files && os[k].count == Freq(Opened(fs, os[k].name), w) > 0
      {
        OccPosIs(os, os[k].name, k);
        BuildCount(EmptyTable(), files, fs, w, os[k].name);
      }
    }
  }

  /**
   * Searching an index built from scratch over distinct files finds a word
   * exactly when some openable file contains it; the node found has one sub
   * node per file containing the word, in list order, each with the number
   * of times the word occurs in that file, and its file count is the number
   * of those sub nodes.
   */
  lemma SearchAfterBuild(files: seq<string>, fs: FileSystem, w: string)
    requires NoDup(files)
    ensures var r := Search(Build(EmptyTable(), files, fs), w);
      && (r.Some? <==> exists g :: g in files && w in Opened(fs, g))
      && (r.Some? ==> r.value.fileCount == |r.value.occs|)
      && (r.Some? ==> forall k :: 0 <= k < |r.value.occs| ==>
            r.value.occs[k].name in files && r.value.occs[k].count == Freq(Opened(fs, r.value.occs[k].name), w) > 0)
      && (r.Some? ==> forall g :: g in files && w in Opened(fs, g) ==> g in Names(r.value.occs))
      && (r.Some? ==> Names(r.value.occs) == FilesWith(files, fs, w))
  {
    var t := Build(EmptyTable(), files, fs);
    BuildPresent(EmptyTable(), files, fs, w);
    InSomeFileExists(files, fs, w);
    BuildWellFormed(EmptyTable(), files, fs);
    BuildFiles(files, fs, w);
    SearchAfterBuildCounts(files, fs, w);
  }
}
