/**
 * The database operations over the hash array and the file list: building
 * the index from the listed files, searching it, writing it to a backup
 * file and loading a backup into it. Each is proved to compute what the
 * corresponding function of the Indexer and Backup modules describes.
 */
module Database {

  import opened InvertedSearch
  import opened Scan
  import opened Helper
  import opened Validate
  import opened Indexer
  import opened Backup

  // ---------------------------------------------------------------------
  // Walking the lists

  /** Walks a chain from its head to the first main node holding `w`; |c| when there is none. */
  method FindMainNode(c: seq<Entry>, w: string) returns (i: nat)
    ensures i == WordPos(c, w)
  {
    i := 0;
    while i < |c| && c[i].word != w
      invariant i <= |c|
      invariant forall k :: 0 <= k < i ==> c[k].word != w
    {
      i := i + 1;
    }
    WordPosIs(c, w, i);
  }

  /** Walks a sub-node list to the first node for file `f`; |os| when there is none. */
  method FindSubNode(os: seq<Occ>, f: string) returns (j: nat)
    ensures j == OccPos(os, f)
  {
    j := 0;
    while j < |os| && os[j].name != f
      invariant j <= |os|
      invariant forall k :: 0 <= k < j ==> os[k].name != f
    {
      j := j + 1;
    }
    OccPosIs(os, f, j);
  }

  // ---------------------------------------------------------------------
  // Building

  /**
   * Records one word read from file `f`: a bucket without main nodes gets a
   * new one; otherwise the first main node for the word counts the file (its
   * sub node's count goes up, or a new sub node is appended and the file count
   * goes up), or a new main node is appended after the last one.
   */
  method InsertWord(hash: array<HashSlot>, w: string, f: string)
    requires hash.Length == HASH_SIZE
    modifies hash
    ensures hash[..] == AddToken(old(hash[..]), w, f)
  {
    var index := FindIndex(w);
    var c := hash[index].chain;
    if c == [] {
      assert AddToChain(c, w, f) == [CreateMainNode(w).(occs := [CreateSubNode(f)])];
      hash[index] := HashSlot(hash[index].index, [CreateMainNode(w).(occs := [CreateSubNode(f)])]);
    } else {
      var i := FindMainNode(c, w);
      if i < |c| {
        var e := c[i];
        var j := FindSubNode(e.occs, f);
        if j < |e.occs| {
          e := e.(occs := e.occs[j := e.occs[j].(count := e.occs[j].count + 1)]);
        } else {
          e := Entry(e.word, e.fileCount + 1, e.occs + [CreateSubNode(f)]);
        }
        hash[index] := HashSlot(hash[index].index, c[i := e]);
      } else {
        hash[index] := HashSlot(hash[index].index, c + [CreateMainNode(w).(occs := [CreateSubNode(f)])]);
      }
    }
  }

  /** Reads every word of file `f`, whose contents are `text`, into the hash array. */
  method IndexFile(hash: array<HashSlot>, f: string, text: string)
    requires hash.Length == HASH_SIZE
    modifies hash
    ensures hash[..] == AddFile(old(hash[..]), f, Tokens(text))
  {
    var rest := text;
    ghost var done: seq<string> := [];
    while true
      invariant Tokens(text) == done + Tokens(rest)
      invariant hash[..] == AddFile(old(hash[..]), f, done)
      decreases |rest|
    {
      var r := ScanWord(rest);
      ScanWordStep(text, done, rest);
      if r.None? {
        break;
      }
      InsertWord(hash, r.value.0, f);
      AddFileSnoc(old(hash[..]), f, done, r.value.0);
      done := done + [r.value.0];
      rest := r.value.1;
    }
  }

  /**
   * Builds the index: walks the file list, skips a file that cannot be
   * opened, and reads the words of every other file. Always succeeds.
   */
  method CreateDatabase(hash: array<HashSlot>, fl: FileList, fs: FileSystem) returns (st: Status)
    requires hash.Length == HASH_SIZE
    requires forall f, w :: f in fl.files && f in fs && w in Tokens(fs[f]) ==> |w| < WORD_SIZE
    modifies hash
    ensures hash[..] == Build(old(hash[..]), fl.files, fs)
    ensures st == Success
  {
    var n := 0;
    while n < |fl.files|
      invariant 0 <= n <= |fl.files|
      invariant hash[..] == Build(old(hash[..]), fl.files[..n], fs)
    {
      var f := fl.files[n];
      assert fl.files[..n + 1][..n] == fl.files[..n];
      if f in fs {
        IndexFile(hash, f, fs[f]);
      }
      n := n + 1;
    }
    assert fl.files[..n] == fl.files;
    st := Success;
  }

  // ---------------------------------------------------------------------
  // Searching

  /**
   * Looks a word up in its bucket. The main node found (None when there is
   * none) is what gets displayed: its file count and its sub nodes. Succeeds
   * whether or not the word is found.
   */
  method SearchDatabase(hash: array<HashSlot>, w: string) returns (st: Status, found: Option<Entry>)
    requires hash.Length == HASH_SIZE
    ensures found == Search(hash[..], w)
    ensures st == Success
  {
    var c := hash[FindIndex(w)].chain;
    var i := FindMainNode(c, w);
    found := if i < |c| then Some(c[i]) else None;
    st := Success;
  }

  // ---------------------------------------------------------------------
  // Saving

  /** The text written for one main node of bucket `i`: its header, its sub nodes in order, then `#` and a newline. */
  method WriteRecord(i: int, e: Entry) returns (line: string)
    ensures line == RecordText(Record(i, e))
  {
    line := HeaderText(i, e.word, e.fileCount);
    var k := 0;
    while k < |e.occs|
      invariant 0 <= k <= |e.occs|
      invariant line == HeaderText(i, e.word, e.fileCount) + OccsText(e.occs[..k])
    {
      OccsTextPrefix(e.occs, k);
      Assoc(HeaderText(i, e.word, e.fileCount), OccsText(e.occs[..k]), PairText(e.occs[k]));
      line := line + PairText(e.occs[k]);
      k := k + 1;
    }
    assert e.occs[..k] == e.occs;
    line := line + "#\n";
  }

  /** The text written for the main nodes of bucket `i`, in chain order. */
  method WriteBucket(i: int, chain: seq<Entry>) returns (text: string)
    ensures text == RecordsText(BucketRecords(i, chain))
  {
    text := "";
    var j := 0;
    while j < |chain|
      invariant 0 <= j <= |chain|
      invariant text == RecordsText(BucketRecords(i, chain[..j]))
    {
      var line := WriteRecord(i, chain[j]);
      BucketTextPrefix(i, chain, j);
      text := text + line;
      j := j + 1;
    }
    assert chain[..j] == chain;
  }

  /**
   * Writes the backup: refuses a name without the ".txt" extension; otherwise
   * writes the main nodes of each bucket from 0 to 26, in chain order, and
   * returns what the file then holds.
   */
  method SaveDatabase(hash: array<HashSlot>, name: string) returns (st: Status, written: Option<string>)
    requires hash.Length == HASH_SIZE
    ensures SaveOutcome(st, written) == Save(hash[..], name)
  {
    if ValidateFileExtension(name) == Failure {
      return Failure, None;
    }
    var out := "";
    for i := 0 to HASH_SIZE
      invariant out == RecordsText(RecordsUpTo(hash[..], i))
    {
      var text := WriteBucket(i, hash[i].chain);
      RecordsTextUpTo(hash[..], i);
      out := out + text;
    }
    return Success, Some(out);
  }

  // ---------------------------------------------------------------------
  // Loading

  /** One sub-node read: on success the file name read is struck from the file list. */
  method ReadSubNode(s: string, fl: FileList) returns (read: bool, o: Occ, after: string)
    modifies fl
    ensures read == ParsePair(s).Some?
    ensures read ==> ParsePair(s) == Some((o, after))
    ensures !read ==> fl.files == old(fl.files)
    ensures read ==> fl.files == RemoveFirst(old(fl.files), o.name)
  {
    match ParsePair(s) {
      case None =>
        return false, Occ("", 0), s;
      case Some((occ, left)) =>
        var deleted := DeleteDuplicateFile(fl, occ.name);
        return true, occ, left;
    }
  }

  /**
   * Reads up to `n` sub nodes from `s`, one pair per round, striking each
   * file name read from the file list. Stops early when a read fails.
   */
  method ReadSubNodes(s: string, n: int, fl: FileList) returns (occs: seq<Occ>, rest: string, ok: bool)
    modifies fl
    ensures Pairs(occs, rest, ok) == ParsePairs(s, n)
    ensures fl.files == Prune(old(fl.files), Names(occs))
    decreases if n > 0 then n else 0
  {
    if n <= 0 {
      return [], s, true;
    }
    var read, o, after := ReadSubNode(s, fl);
    if !read {
      ParsePairsStop(s, n);
      return [], s, false;
    }
    var more;
    more, rest, ok := ReadSubNodes(after, n - 1, fl);
    occs := [o] + more;
    ParsePairsCons(s, n, o, after);
    PruneNamesCons(old(fl.files), o, more);
  }

  /**
   * One round of the reading loop: reads a header and its sub nodes, appends
   * the new main node after the last one of its bucket, strikes each file
   * name read from the file list, and skips the closing `#` and newline.
   * Nothing changes when the header does not match.
   */
  method LoadRecord(hash: array<HashSlot>, rest: string, fl: FileList) returns (read: bool, more: bool, after: string)
    requires hash.Length == HASH_SIZE
    modifies hash, fl
    ensures read == NextRecord(rest).Some?
    ensures !read ==> hash[..] == old(hash[..]) && fl.files == old(fl.files)
    ensures read ==>
      var p := NextRecord(rest).value;
      && hash[..] == AppendRecord(old(hash[..]), p.rec)
      && fl.files == Prune(old(fl.files), Names(p.rec.entry.occs))
      && more == p.complete && after == p.rest
  {
    match ParseHeader(rest) {
      case None =>
        return false, false, rest;
      case Some(h) =>
        var occs, left, ok := ReadSubNodes(h.rest, h.fileCount, fl);
        var e := CreateMainNode(h.word).(fileCount := h.fileCount, occs := occs);
        hash[h.index] := HashSlot(hash[h.index].index, hash[h.index].chain + [e]);
        return true, ok, SkipTrailer(left);
    }
  }

  /** The reading loop of loading: loads record after record until one cannot be read whole. */
  method LoadText(hash: array<HashSlot>, text: string, fl: FileList)
    requires hash.Length == HASH_SIZE
    modifies hash, fl
    ensures hash[..] == LoadRecords(old(hash[..]), ParseRecords(text))
    ensures fl.files == Prune(old(fl.files), RecordNames(ParseRecords(text)))
  {
    var rest := text;
    var more := true;
    ghost var done: seq<Record> := [];
    while more
      invariant IndicesInRange(done)
      invariant ParseRecords(text) == done + (if more then ParseRecords(rest) else [])
      invariant hash[..] == LoadRecords(old(hash[..]), done)
      invariant fl.files == Prune(old(fl.files), RecordNames(done))
      decreases more, |rest|
    {
      ghost var p := NextRecord(rest);
      ParseRecordsRound(done, rest);
      var read, complete, after := LoadRecord(hash, rest, fl);
      if read {
        LoadStep(old(hash[..]), old(fl.files), done, p.value.rec);
        done := done + [p.value.rec];
      }
      more := read && complete;
      rest := after;
    }
    assert done + [] == done;
  }

  /**
   * Loads a backup named `backup` whose contents are `content` (None when it
   * cannot be opened): the extension, open, emptiness and format checks come
   * first, then the reading loop.
   */
  method UpdateDatabase(hash: array<HashSlot>, backup: string, content: Option<string>, fl: FileList)
    returns (st: Status)
    requires hash.Length == HASH_SIZE
    modifies hash, fl
    ensures var r := Update(old(hash[..]), old(fl.files), backup, content);
      st == r.status && hash[..] == r.table && fl.files == r.files
  {
    if ValidateFileExtension(backup) == Failure {
      return Failure;
    }
    if content.None? {
      return Failure;
    }
    var text := content.value;
    if |text| < 1 {
      return Failure;
    }
    if ValidateBackupDatabase(text) == Failure {
      return Failure;
    }
    LoadText(hash, text, fl);
    st := Success;
  }
}
