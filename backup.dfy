/**
 * The backup file: the text the save operation writes, the reading of that
 * text back record by record, and what loading does to the hash array and
 * to the file list.
 */
module Backup {

  import opened InvertedSearch
  import opened Scan
  import opened Helper
  import opened Validate
  import opened Indexer

  /** One line of a backup: the bucket it was saved from and the main node with its sub nodes. */
  datatype Record = Record(index: int, entry: Entry)

  // ---------------------------------------------------------------------
  // Saving

  /** `name;count;`: the text of one sub node. */
  function PairText(o: Occ): (r: string)
    ensures |r| > |o.name| + 1 && r[..|o.name|] == o.name && r[|o.name|] == ';' && r[|r| - 1] == ';'
  {
    o.name + ";" + IntToString(o.count) + ";"
  }

  /** The texts of the sub nodes, in list order. */
  function OccsText(os: seq<Occ>): (r: string)
    ensures r == [] <==> os == []
  {
    if os == [] then "" else PairText(os[0]) + OccsText(os[1..])
  }

  /** `#index;word;file_count;`: the header of a record. */
  function HeaderText(index: int, word: string, fileCount: int): (r: string)
    ensures |r| > |word| + 3 && r[0] == '#' && r[|r| - 1] == ';'
  {
    "#" + IntToString(index) + ";" + word + ";" + IntToString(fileCount) + ";"
  }

  /** A record's header, then its sub nodes, then `#` and a newline. */
  function RecordText(r: Record): (s: string)
    ensures |s| >= 2 && s[0] == '#' && s[|s| - 2..] == "#\n"
  {
    HeaderText(r.index, r.entry.word, r.entry.fileCount) + OccsText(r.entry.occs) + "#\n"
  }

  function RecordsText(rs: seq<Record>): (s: string)
    ensures s == [] <==> rs == []
  {
    if rs == [] then "" else RecordText(rs[0]) + RecordsText(rs[1..])
  }

  /** Writing one more sub node extends the text by that sub node's text. */
  lemma {:induction false} OccsTextSnoc(os: seq<Occ>, o: Occ)
    ensures OccsText(os + [o]) == OccsText(os) + PairText(o)
  {
    if os != [] {
      assert (os + [o])[1..] == os[1..] + [o];
      OccsTextSnoc(os[1..], o);
    }
  }

  /** The text of consecutive records is the text of the first ones followed by that of the others. */
  lemma {:induction false} RecordsTextConcat(xs: seq<Record>, ys: seq<Record>)
    ensures RecordsText(xs + ys) == RecordsText(xs) + RecordsText(ys)
  {
    if xs == [] {
      assert xs + ys == ys;
    } else {
      assert (xs + ys)[1..] == xs[1..] + ys;
      RecordsTextConcat(xs[1..], ys);
    }
  }

  /** The main nodes of one chain as records of bucket `i`, in chain order. */
  function BucketRecords(i: int, c: seq<Entry>): (rs: seq<Record>)
    ensures |rs| == |c|
    ensures forall k :: 0 <= k < |c| ==> rs[k] == Record(i, c[k])
  {
    if c == [] then [] else [Record(i, c[0])] + BucketRecords(i, c[1..])
  }

  /** The records of the first `n` buckets, bucket by bucket. */
  function RecordsUpTo(t: Table, n: nat): (rs: seq<Record>)
    requires n <= |t|
    ensures forall k :: 0 <= k < |rs| ==> 0 <= rs[k].index < n
  {
    if n == 0 then [] else RecordsUpTo(t, n - 1) + BucketRecords(n - 1, t[n - 1].chain)
  }

  /** Every main node of the hash array as a record: buckets 0 to 26, each chain in order. */
  function Records(t: Table): (rs: seq<Record>)
    ensures forall k :: 0 <= k < |rs| ==> 0 <= rs[k].index < |t|
  {
    RecordsUpTo(t, |t|)
  }

  /** The records of the first `n` buckets come bucket by bucket, in increasing bucket order. */
  lemma {:induction false} RecordsUpToSorted(t: Table, n: nat)
    requires n <= |t|
    ensures forall k, l :: 0 <= k <= l < |RecordsUpTo(t, n)| ==> RecordsUpTo(t, n)[k].index <= RecordsUpTo(t, n)[l].index
  {
    if n > 0 {
      var pre := RecordsUpTo(t, n - 1);
      var last := BucketRecords(n - 1, t[n - 1].chain);
      var rs := pre + last;
      RecordsUpToSorted(t, n - 1);
      forall k, l | 0 <= k <= l < |rs|
        ensures rs[k].index <= rs[l].index
      {
        if l < |pre| {
          assert rs[k] == pre[k] && rs[l] == pre[l];
          assert pre[k].index <= pre[l].index;
        } else {
          assert rs[l] == last[l - |pre|] == Record(n - 1, t[n - 1].chain[l - |pre|]);
          if k < |pre| {
            assert rs[k] == pre[k];
            assert pre[k].index < n - 1;
          } else {
            assert rs[k] == last[k - |pre|] == Record(n - 1, t[n - 1].chain[k - |pre|]);
          }
        }
      }
    }
  }

  /** The main nodes of the records that go to bucket `b`, in order. */
  function EntriesFor(rs: seq<Record>, b: int): seq<Entry>
  {
    if rs == [] then []
    else EntriesFor(rs[..|rs| - 1], b) + (if rs[|rs| - 1].index == b then [rs[|rs| - 1].entry] else [])
  }

  /** The main nodes of a bucket in consecutive records are those in the first ones, then those in the others. */
  lemma {:induction false} EntriesForConcat(xs: seq<Record>, ys: seq<Record>, b: int)
    ensures EntriesFor(xs + ys, b) == EntriesFor(xs, b) + EntriesFor(ys, b)
  {
    if ys == [] {
      assert xs + ys == xs;
    } else {
      assert (xs + ys)[..|xs + ys| - 1] == xs + ys[..|ys| - 1];
      EntriesForConcat(xs, ys[..|ys| - 1], b);
    }
  }

  /** The records of one chain give back that chain for its own bucket, and nothing for any other. */
  lemma {:induction false} EntriesForBucket(i: int, c: seq<Entry>, b: int)
    ensures EntriesFor(BucketRecords(i, c), b) == if i == b then c else []
  {
    if c != [] {
      var rs := BucketRecords(i, c);
      var pre := c[..|c| - 1];
      assert rs[..|rs| - 1] == BucketRecords(i, pre);
      EntriesForBucket(i, pre, b);
      assert c == pre + [c[|c| - 1]];
    }
  }

  /** The records of the first `n` buckets hold, for each of them, its chain in order. */
  lemma {:induction false} RecordsUpToEntries(t: Table, n: nat, b: int)
    requires n <= |t|
    ensures EntriesFor(RecordsUpTo(t, n), b) == if 0 <= b < n then t[b].chain else []
  {
    if n > 0 {
      RecordsUpToEntries(t, n - 1, b);
      EntriesForConcat(RecordsUpTo(t, n - 1), BucketRecords(n - 1, t[n - 1].chain), b);
      EntriesForBucket(n - 1, t[n - 1].chain, b);
    }
  }

  /**
   * The save order: buckets 0 to 26 in increasing order, and within each
   * bucket its main nodes in chain order.
   */
  lemma RecordsOrder(t: Table, b: int)
    requires 0 <= b < |t|
    ensures EntriesFor(Records(t), b) == t[b].chain
    ensures forall k, l :: 0 <= k <= l < |Records(t)| ==> Records(t)[k].index <= Records(t)[l].index
  {
    RecordsUpToEntries(t, |t|, b);
    RecordsUpToSorted(t, |t|);
  }

  /** The text the save operation writes for a hash array. */
  function Serialise(t: Table): (s: string)
    ensures s == [] <==> forall b :: 0 <= b < |t| ==> t[b].chain == []
  {
    RecordsUpToEmpty(t, |t|);
    RecordsText(Records(t))
  }

  /** The first `n` buckets give no record exactly when their chains are all empty. */
  lemma {:induction false} RecordsUpToEmpty(t: Table, n: nat)
    requires n <= |t|
    ensures RecordsUpTo(t, n) == [] <==> forall b :: 0 <= b < n ==> t[b].chain == []
  {
    if n > 0 {
      RecordsUpToEmpty(t, n - 1);
    }
  }

  /** The sub-node text grows by one sub node at a time. */
  lemma OccsTextPrefix(os: seq<Occ>, k: nat)
    requires k < |os|
    ensures OccsText(os[..k + 1]) == OccsText(os[..k]) + PairText(os[k])
  {
    assert os[..k + 1] == os[..k] + [os[k]];
    OccsTextSnoc(os[..k], os[k]);
  }

  /** The text of a bucket grows by one record at a time. */
  lemma BucketTextPrefix(i: int, c: seq<Entry>, j: nat)
    requires j < |c|
    ensures RecordsText(BucketRecords(i, c[..j + 1])) == RecordsText(BucketRecords(i, c[..j])) + RecordText(Record(i, c[j]))
  {
    assert BucketRecords(i, c[..j + 1]) == BucketRecords(i, c[..j]) + [Record(i, c[j])];
    RecordsTextConcat(BucketRecords(i, c[..j]), [Record(i, c[j])]);
    assert RecordsText([Record(i, c[j])]) == RecordText(Record(i, c[j])) + "";
  }

  /** The text of the whole array grows by one bucket at a time. */
  lemma RecordsTextUpTo(t: Table, i: nat)
    requires i < |t|
    ensures RecordsText(RecordsUpTo(t, i + 1)) == RecordsText(RecordsUpTo(t, i)) + RecordsText(BucketRecords(i, t[i].chain))
  {
    RecordsTextConcat(RecordsUpTo(t, i), BucketRecords(i, t[i].chain));
  }

  datatype SaveOutcome = SaveOutcome(status: Status, written: Option<string>)

  /**
   * The save operation: a name that does not end in ".txt" is refused and
   * nothing is written; otherwise the file receives the whole backup text.
   */
  function Save(t: Table, name: string): (r: SaveOutcome)
    ensures r.status == Success || r.status == Failure
    ensures r.status == Success <==> EndsWithTxt(name)
    ensures r.status == Failure ==> r.written == None
    ensures r.status == Success ==> r.written == Some(Serialise(t))
  {
    if ValidateFileExtension(name) == Failure then SaveOutcome(Failure, None)
    else SaveOutcome(Success, Some(Serialise(t)))
  }

  // ---------------------------------------------------------------------
  // Reading a backup back

  datatype Header = Header(index: int, word: string, fileCount: int, rest: string)

  /** The format of a record's header: `#%d;%[^;];%d;`. */
  const HeaderFormat: seq<Directive> := [Lit('#'), Int, Lit(';'), Set, Lit(';'), Int, Lit(';')]

  /** The format of one sub node: `%[^;];%d;`. */
  const PairFormat: seq<Directive> := [Set, Lit(';'), Int, Lit(';')]

  /** The format read after a record's sub nodes: `#` and a newline, which matches any white space. */
  const TrailerFormat: seq<Directive> := [Lit('#'), Space]

  /**
   * Reads the header of a record: a record is read only when the call stores
   * all three values (the final ';' is then consumed if it is there). A bucket
   * index outside 0..26 or a word too long for its buffer ends the reading.
   */
  function ParseHeader(s: string): (r: Option<Header>)
    ensures r.Some? ==> |r.value.rest| < |s| && 0 <= r.value.index < HASH_SIZE
  {
    var sc := Scanf(HeaderFormat, s);
    if |sc.values| != 3 then None
    else
      match (sc.values[0], sc.values[1], sc.values[2])
      case (IntVal(index), SetVal(word), IntVal(fileCount)) =>
        if 0 <= index < HASH_SIZE && |word| < WORD_SIZE then Some(Header(index, word, fileCount, sc.rest))
        else None
      case _ => None
  }

  /**
   * Reads one sub node: the file name and its count. A call that does not
   * store both, or a name too long for its buffer, ends the reading.
   */
  function ParsePair(s: string): (r: Option<(Occ, string)>)
    ensures r.Some? ==> |r.value.1| < |s|
  {
    var sc := Scanf(PairFormat, s);
    if |sc.values| != 2 then None
    else
      match (sc.values[0], sc.values[1])
      case (SetVal(name), IntVal(count)) =>
        if |name| < WORD_SIZE then Some((Occ(name, count), sc.rest)) else None
      case _ => None
  }

  /** The sub nodes read by up to `n` pair reads, the text left, and whether all `n` succeeded. */
  datatype Pairs = Pairs(occs: seq<Occ>, rest: string, ok: bool)

  function ParsePairs(s: string, n: int): (r: Pairs)
    ensures |r.rest| <= |s|
    ensures |r.occs| <= (if n > 0 then n else 0)
    ensures r.ok ==> |r.occs| == (if n > 0 then n else 0)
    ensures !r.ok ==> |r.occs| < n
    decreases if n > 0 then n else 0
  {
    if n <= 0 then Pairs([], s, true)
    else
      var p := ParsePair(s);
      if p.None? then Pairs([], s, false)
      else
        var more := ParsePairs(p.value.1, n - 1);
        Pairs([p.value.0] + more.occs, more.rest, more.ok)
  }

  /** A pair read that succeeds puts its sub node first, before those of the remaining reads. */
  lemma ParsePairsCons(s: string, n: int, o: Occ, after: string)
    requires n > 0 && ParsePair(s) == Some((o, after))
    ensures var more := ParsePairs(after, n - 1);
      ParsePairs(s, n) == Pairs([o] + more.occs, more.rest, more.ok)
  {
  }

  /** A pair read that fails ends the reading with no sub node and the text untouched. */
  lemma ParsePairsStop(s: string, n: int)
    requires n > 0 && ParsePair(s).None?
    ensures ParsePairs(s, n) == Pairs([], s, false)
  {
  }

  /** The `#\n` read after a record: a '#' and the white space after it, when the '#' is there. */
  function SkipTrailer(s: string): (r: string)
    ensures |r| <= |s|
  {
    Scanf(TrailerFormat, s).rest
  }

  /** A record read from the text: the main node, the text after it, and whether every pair was read. */
  datatype Parsed = Parsed(rec: Record, rest: string, complete: bool)

  /**
   * Reads one record: None when its header does not match. The main node
   * takes the file count of the header and the sub nodes actually read.
   */
  function NextRecord(s: string): (r: Option<Parsed>)
    ensures r.Some? ==> |r.value.rest| < |s| && 0 <= r.value.rec.index < HASH_SIZE
    ensures r.Some? ==> var e := r.value.rec.entry;
      if r.value.complete then |e.occs| == (if e.fileCount > 0 then e.fileCount else 0)
      else |e.occs| < e.fileCount
  {
    var h := ParseHeader(s);
    if h.None? then None
    else
      var p := ParsePairs(h.value.rest, h.value.fileCount);
      Some(Parsed(Record(h.value.index, Entry(h.value.word, h.value.fileCount, p.occs)),
                  SkipTrailer(p.rest), p.ok))
  }

  /** One round of the loading loop appends the record it reads to those read before it. */
  lemma ParseRecordsRound(done: seq<Record>, s: string)
    ensures NextRecord(s).None? ==> done + ParseRecords(s) == done
    ensures NextRecord(s).Some? ==>
      var p := NextRecord(s).value;
      done + ParseRecords(s) == (done + [p.rec]) + (if p.complete then ParseRecords(p.rest) else [])
  {
    if NextRecord(s).None? {
      assert done + [] == done;
    }
  }

  predicate IndicesInRange(rs: seq<Record>)
  {
    forall r :: r in rs ==> 0 <= r.index < HASH_SIZE
  }

  /**
   * The records loading reads from a backup text, in order: reading stops at
   * the first header that does not match and after a record whose pairs
   * could not all be read.
   */
  function ParseRecords(s: string): (rs: seq<Record>)
    ensures IndicesInRange(rs)
    decreases |s|
  {
    var p := NextRecord(s);
    if p.None? then []
    else
      var more := if p.value.complete then ParseRecords(p.value.rest) else [];
      [p.value.rec] + more
  }

  // ---------------------------------------------------------------------
  // Loading

  /** A record's main node linked after the last node of its bucket, without looking for the same word. */
  function AppendRecord(t: Table, r: Record): (u: Table)
    requires |t| == HASH_SIZE && 0 <= r.index < HASH_SIZE
    ensures |u| == HASH_SIZE
  {
    t[r.index := HashSlot(t[r.index].index, t[r.index].chain + [r.entry])]
  }

  /** The hash array after appending the records in order. */
  function LoadRecords(t: Table, rs: seq<Record>): (u: Table)
    requires |t| == HASH_SIZE && IndicesInRange(rs)
    ensures |u| == HASH_SIZE
  {
    if rs == [] then t else AppendRecord(LoadRecords(t, rs[..|rs| - 1]), rs[|rs| - 1])
  }

  /** The file names of all sub nodes of the records, in reading order. */
  function RecordNames(rs: seq<Record>): seq<string>
  {
    if rs == [] then [] else RecordNames(rs[..|rs| - 1]) + Names(rs[|rs| - 1].entry.occs)
  }

  /** The file list after removing, for each name in turn, its first node. */
  function Prune(fl: seq<string>, names: seq<string>): (r: seq<string>)
    ensures |r| <= |fl|
  {
    if names == [] then fl else RemoveFirst(Prune(fl, names[..|names| - 1]), names[|names| - 1])
  }

  /** Loading strikes one node per name read, while any is left: the list loses the names read, as a multiset. */
  lemma {:induction false} PruneMultiset(fl: seq<string>, names: seq<string>)
    ensures multiset(Prune(fl, names)) == multiset(fl) - multiset(names)
  {
    if names != [] {
      var pre := names[..|names| - 1];
      var x := names[|names| - 1];
      assert names == pre + [x];
      PruneMultiset(fl, pre);
      RemoveFirstMultiset(Prune(fl, pre), x);
    }
  }

  /** Striking the names of two batches is striking the first batch, then the second. */
  lemma {:induction false} PruneConcat(fl: seq<string>, xs: seq<string>, ys: seq<string>)
    ensures Prune(fl, xs + ys) == Prune(Prune(fl, xs), ys)
  {
    if ys == [] {
      assert xs + ys == xs;
    } else {
      assert (xs + ys)[..|xs + ys| - 1] == xs + ys[..|ys| - 1];
      PruneConcat(fl, xs, ys[..|ys| - 1]);
    }
  }

  /** Striking the names of `[o] + occs` is striking `o`'s name first, then the others'. */
  lemma PruneNamesCons(fl: seq<string>, o: Occ, occs: seq<Occ>)
    ensures Prune(fl, Names([o] + occs)) == Prune(RemoveFirst(fl, o.name), Names(occs))
  {
    assert Names([o] + occs) == [o.name] + Names(occs);
    PruneConcat(fl, [o.name], Names(occs));
    assert [o.name][..0] == [];
  }

  /** Loading one more record appends its main node to its bucket and strikes its file names. */
  lemma LoadStep(t: Table, fl: seq<string>, done: seq<Record>, r: Record)
    requires |t| == HASH_SIZE && IndicesInRange(done) && 0 <= r.index < HASH_SIZE
    ensures IndicesInRange(done + [r])
    ensures LoadRecords(t, done + [r]) == AppendRecord(LoadRecords(t, done), r)
    ensures Prune(fl, RecordNames(done + [r])) == Prune(Prune(fl, RecordNames(done)), Names(r.entry.occs))
  {
    assert (done + [r])[..|done|] == done;
    PruneConcat(fl, RecordNames(done), Names(r.entry.occs));
  }

  datatype LoadOutcome = LoadOutcome(status: Status, table: Table, files: seq<string>)

  /**
   * Loading a backup named `backup` whose contents are `content` (None when
   * it cannot be opened): the extension check, the open, the emptiness check
   * and the sniff come first and leave everything unchanged when one fails;
   * otherwise every record read is appended to its bucket and each file name
   * read is struck from the file list.
   */
  function Update(t: Table, fl: seq<string>, backup: string, content: Option<string>): (r: LoadOutcome)
    requires |t| == HASH_SIZE
    ensures r.status == Success || r.status == Failure
    ensures r.status == Failure ==> r.table == t && r.files == fl
    ensures r.status == Success <==>
      EndsWithTxt(backup) && content.Some? && |content.value| >= 2
      && content.value[0] == '#' && content.value[|content.value| - 2] == '#'
  {
    if ValidateFileExtension(backup) == Failure then LoadOutcome(Failure, t, fl)
    else if content.None? then LoadOutcome(Failure, t, fl)
    else if |content.value| < 1 then LoadOutcome(Failure, t, fl)
    else if ValidateBackupDatabase(content.value) == Failure then LoadOutcome(Failure, t, fl)
    else
      var rs := ParseRecords(content.value);
      LoadOutcome(Success, LoadRecords(t, rs), Prune(fl, RecordNames(rs)))
  }

  // ---------------------------------------------------------------------
  // Properties of loading

  /**
   * Loading appends: each bucket keeps its main nodes and receives, after
   * them, the main nodes of its records in reading order, with no merging
   * into a node of the same word.
   */
  lemma {:induction false} LoadRecordsAppends(t: Table, rs: seq<Record>, b: int)
    requires |t| == HASH_SIZE && IndicesInRange(rs) && 0 <= b < HASH_SIZE
    ensures LoadRecords(t, rs)[b].index == t[b].index
    ensures LoadRecords(t, rs)[b].chain == t[b].chain + EntriesFor(rs, b)
  {
    if rs != [] {
      LoadRecordsAppends(t, rs[..|rs| - 1], b);
    }
  }

  /** Striking names from a file list without repeats leaves it without repeats. */
  lemma {:induction false} PruneNoDup(fl: seq<string>, names: seq<string>)
    requires NoDup(fl)
    ensures NoDup(Prune(fl, names))
  {
    if names != [] {
      PruneNoDup(fl, names[..|names| - 1]);
      RemoveFirstNoDup(Prune(fl, names[..|names| - 1]), names[|names| - 1]);
    }
  }

  /**
   * Loading into a file list without repeats strikes each name read exactly
   * once: the list keeps exactly the names that were not read.
   */
  lemma {:induction false} PruneRemoves(fl: seq<string>, names: seq<string>, x: string)
    requires NoDup(fl)
    ensures x in Prune(fl, names) <==> x in fl && x !in names
  {
    if names != [] {
      var pre := names[..|names| - 1];
      var y := names[|names| - 1];
      PruneRemoves(fl, pre, x);
      assert x in names <==> x in pre || x == y by {
        assert names == pre + [y];
      }
      if x == y {
        PruneNoDup(fl, pre);
        RemoveFirstNoDup(Prune(fl, pre), y);
      } else {
        RemoveFirstMembers(Prune(fl, pre), y, x);
      }
    }
  }

  // ---------------------------------------------------------------------
  // Saving then loading

  /** A field the reading gets back: not empty, free of ';', fitting its buffer. */
  predicate FieldOk(s: string, size: nat)
  {
    0 < |s| < size && forall k :: 0 <= k < |s| ==> s[k] != ';'
  }

  /** A record whose text reads back as itself. */
  predicate RecordOk(r: Record)
  {
    && 0 <= r.index < HASH_SIZE
    && FieldOk(r.entry.word, WORD_SIZE)
    && r.entry.fileCount == |r.entry.occs|
    && forall k :: 0 <= k < |r.entry.occs| ==> FieldOk(r.entry.occs[k].name, WORD_SIZE)
  }

  /** A `scanf` call whose first directive succeeds goes on with the rest of the format after it. */
  lemma ScanfStep(d: Directive, fmt: seq<Directive>, s: string, vs: seq<Stored>, t: string)
    requires Convert(d, s) == Some((vs, t))
    ensures Scanf([d] + fmt, s) == Scanned(vs + Scanf(fmt, t).values, Scanf(fmt, t).rest)
  {
    assert ([d] + fmt)[0] == d && ([d] + fmt)[1..] == fmt;
  }

  lemma ConvertLit(c: char, t: string)
    ensures Convert(Lit(c), [c] + t) == Some(([], t))
  {
    assert ([c] + t)[1..] == t;
  }

  lemma ConvertInt(n: int, t: string)
    requires t == [] || !IsDigit(t[0])
    ensures Convert(Int, IntToString(n) + t) == Some(([IntVal(n)], t))
  {
    ScanIntOfIntToString(n, t);
  }

  lemma ConvertSet(w: string, t: string)
    requires |w| > 0 && forall k :: 0 <= k < |w| ==> w[k] != ';'
    requires t == [] || t[0] == ';'
    ensures Convert(Set, w + t) == Some(([SetVal(w)], t))
  {
    ScanSetOfField(w, t);
  }

  lemma Assoc(a: string, b: string, c: string)
    ensures a + b + c == a + (b + c)
  {
  }

  /** The header text followed by more text, split at each field. */
  lemma HeaderTextSplit(index: int, word: string, fileCount: int, tail: string)
    ensures HeaderText(index, word, fileCount) + tail
         == ['#'] + (IntToString(index) + ([';'] + (word + ([';'] + (IntToString(fileCount) + ([';'] + tail))))))
  {
    var x1 := "#" + IntToString(index);
    var x2 := x1 + ";";
    var x3 := x2 + word;
    var x4 := x3 + ";";
    var x5 := x4 + IntToString(fileCount);
    assert HeaderText(index, word, fileCount) == x5 + ";";
    Assoc(x5, ";", tail);
    Assoc(x4, IntToString(fileCount), ";" + tail);
    Assoc(x3, ";", IntToString(fileCount) + (";" + tail));
    Assoc(x2, word, ";" + (IntToString(fileCount) + (";" + tail)));
    Assoc(x1, ";", word + (";" + (IntToString(fileCount) + (";" + tail))));
    Assoc("#", IntToString(index), ";" + (word + (";" + (IntToString(fileCount) + (";" + tail)))));
  }

  /** `%d;` reads a printed number and the separator after it. */
  lemma ScanIntField(n: int, t: string)
    ensures Scanf([Int, Lit(';')], IntToString(n) + ([';'] + t)) == Scanned([IntVal(n)], t)
  {
    ConvertLit(';', t);
    ScanfStep(Lit(';'), [], [';'] + t, [], t);
    ConvertInt(n, [';'] + t);
    ScanfStep(Int, [Lit(';')], IntToString(n) + ([';'] + t), [IntVal(n)], [';'] + t);
  }

  /** `;%d;` reads the separator, a printed number and the separator after it. */
  lemma ScanSemiIntField(n: int, t: string)
    ensures Scanf([Lit(';'), Int, Lit(';')], [';'] + (IntToString(n) + ([';'] + t))) == Scanned([IntVal(n)], t)
  {
    var s2 := IntToString(n) + ([';'] + t);
    ScanIntField(n, t);
    ConvertLit(';', s2);
    ScanfStep(Lit(';'), [Int, Lit(';')], [';'] + s2, [], s2);
  }

  lemma PairFormatSplit()
    ensures PairFormat == [Set] + [Lit(';'), Int, Lit(';')]
  {
  }

  /** `%[^;];%d;` reads a field free of ';', a printed number, and the separators after them. */
  lemma ScanPairFields(w: string, n: int, t: string)
    requires |w| > 0 && forall k :: 0 <= k < |w| ==> w[k] != ';'
    ensures Scanf(PairFormat, w + ([';'] + (IntToString(n) + ([';'] + t))))
         == Scanned([SetVal(w), IntVal(n)], t)
  {
    var s1 := [';'] + (IntToString(n) + ([';'] + t));
    ScanSemiIntField(n, t);
    ConvertSet(w, s1);
    PairFormatSplit();
    ScanfStep(Set, [Lit(';'), Int, Lit(';')], w + s1, [SetVal(w)], s1);
  }

  /** `%d;%[^;];%d;` reads a printed number, a field free of ';', another printed number and the separators. */
  lemma ScanHeaderFields(index: int, word: string, fileCount: int, tail: string)
    requires |word| > 0 && forall k :: 0 <= k < |word| ==> word[k] != ';'
    ensures var s2 := word + ([';'] + (IntToString(fileCount) + ([';'] + tail)));
      Scanf([Int] + ([Lit(';')] + PairFormat), IntToString(index) + ([';'] + s2))
        == Scanned([IntVal(index), SetVal(word), IntVal(fileCount)], tail)
  {
    var s2 := word + ([';'] + (IntToString(fileCount) + ([';'] + tail)));
    ScanPairFields(word, fileCount, tail);
    ConvertLit(';', s2);
    ScanfStep(Lit(';'), PairFormat, [';'] + s2, [], s2);
    ConvertInt(index, [';'] + s2);
    ScanfStep(Int, [Lit(';')] + PairFormat, IntToString(index) + ([';'] + s2), [IntVal(index)], [';'] + s2);
  }

  /** A literal character that matches is consumed and the call goes on with the rest of the format. */
  lemma ScanLiteral(c: char, fmt: seq<Directive>, t: string)
    ensures Scanf([Lit(c)] + fmt, [c] + t) == Scanf(fmt, t)
  {
    ConvertLit(c, t);
    ScanfStep(Lit(c), fmt, [c] + t, [], t);
  }

  /** The header text reads back as its three values, and reading stops after its final ';'. */
  lemma ScanHeaderText(index: int, word: string, fileCount: int, tail: string)
    requires FieldOk(word, WORD_SIZE)
    ensures Scanf(HeaderFormat, HeaderText(index, word, fileCount) + tail)
         == Scanned([IntVal(index), SetVal(word), IntVal(fileCount)], tail)
  {
    var s1 := IntToString(index) + ([';'] + (word + ([';'] + (IntToString(fileCount) + ([';'] + tail)))));
    HeaderTextSplit(index, word, fileCount, tail);
    ScanHeaderFields(index, word, fileCount, tail);
    ScanLiteral('#', [Int] + ([Lit(';')] + PairFormat), s1);
    HeaderFormatSplit();
  }

  /** The header format is '#', `%d`, ';' and then the same directives as a sub node. */
  lemma HeaderFormatSplit()
    ensures HeaderFormat == [Lit('#')] + ([Int] + ([Lit(';')] + PairFormat))
  {
  }

  /** The text of one sub node reads back as its name and count. */
  lemma ScanPairText(o: Occ, tail: string)
    requires FieldOk(o.name, WORD_SIZE)
    ensures Scanf(PairFormat, PairText(o) + tail)
         == Scanned([SetVal(o.name), IntVal(o.count)], tail)
  {
    assert PairText(o) + tail == o.name + ([';'] + (IntToString(o.count) + ([';'] + tail)));
    ScanPairFields(o.name, o.count, tail);
  }

  lemma {:induction false} ParsePairsOfText(os: seq<Occ>, tail: string)
    requires forall k :: 0 <= k < |os| ==> FieldOk(os[k].name, WORD_SIZE)
    ensures ParsePairs(OccsText(os) + tail, |os|) == Pairs(os, tail, true)
  {
    if os != [] {
      var o := os[0];
      var more := OccsText(os[1..]) + tail;
      assert OccsText(os) + tail == PairText(o) + more;
      ScanPairText(o, more);
      ParsePairsOfText(os[1..], tail);
    }
  }

  /** The newline after a record's closing '#' is white space; the next record starts with '#', which is not. */
  lemma SkipNewline(rest: string)
    requires rest == [] || rest[0] == '#'
    ensures Convert(Space, "\n" + rest) == Some(([], rest))
  {
    assert ("\n" + rest)[1..] == rest;
    assert SkipSpace(rest) == rest;
  }

  lemma TrailerFormatSplit()
    ensures TrailerFormat == [Lit('#')] + ([Space] + [])
  {
  }

  /** After a record, the trailer reading consumes `#` and the newline and stops at the next record. */
  lemma SkipTrailerOfText(rest: string)
    requires rest == [] || rest[0] == '#'
    ensures SkipTrailer("#\n" + rest) == rest
  {
    assert "#\n" + rest == ['#'] + ("\n" + rest);
    TrailerFormatSplit();
    ScanLiteral('#', [Space], "\n" + rest);
    SkipNewline(rest);
    ScanfStep(Space, [], "\n" + rest, [], rest);
  }

  lemma RecordTextSplit(r: Record, rest: string)
    ensures RecordText(r) + rest
         == HeaderText(r.index, r.entry.word, r.entry.fileCount) + (OccsText(r.entry.occs) + ("#\n" + rest))
  {
  }

  /** The text of a record, followed by more records or by nothing, reads back as that record. */
  lemma NextRecordOfText(r: Record, rest: string)
    requires RecordOk(r)
    requires rest == [] || rest[0] == '#'
    ensures NextRecord(RecordText(r) + rest) == Some(Parsed(r, rest, true))
  {
    var e := r.entry;
    var tail := "#\n" + rest;
    RecordTextSplit(r, rest);
    ScanHeaderText(r.index, e.word, e.fileCount, OccsText(e.occs) + tail);
    ParsePairsOfText(e.occs, tail);
    SkipTrailerOfText(rest);
  }

  /** A complete record read from `s` is followed by the records read after it. */
  lemma ParseRecordsOfNext(s: string, r: Record, rest: string)
    requires NextRecord(s) == Some(Parsed(r, rest, true))
    ensures ParseRecords(s) == [r] + ParseRecords(rest)
  {
  }

  /** A well-formed record's text, followed by more records or by nothing, reads as that record and then the rest. */
  lemma ParseRecordsOfRecordText(r: Record, rest: string)
    requires RecordOk(r)
    requires rest == [] || rest[0] == '#'
    ensures ParseRecords(RecordText(r) + rest) == [r] + ParseRecords(rest)
  {
    NextRecordOfText(r, rest);
    ParseRecordsOfNext(RecordText(r) + rest, r, rest);
  }

  /** The text of records starts with the `#` of the first header, or is empty. */
  lemma RecordsTextStart(rs: seq<Record>)
    ensures RecordsText(rs) == [] || RecordsText(rs)[0] == '#'
  {
  }

  /** An empty backup reads as no record. */
  lemma ParseRecordsOfEmpty()
    ensures ParseRecords("") == []
  {
  }

  /** One well-formed record in front of text that reads back adds that record in front. */
  lemma ParseRecordsOfMore(r: Record, rs: seq<Record>)
    requires RecordOk(r)
    requires ParseRecords(RecordsText(rs)) == rs
    ensures ParseRecords(RecordsText([r] + rs)) == [r] + rs
  {
    assert ([r] + rs)[1..] == rs;
    RecordsTextStart(rs);
    ParseRecordsOfRecordText(r, RecordsText(rs));
  }

  /** Reading the text of well-formed records gives back those records. */
  lemma {:induction false} ParseRecordsOfText(rs: seq<Record>)
    requires forall k :: 0 <= k < |rs| ==> RecordOk(rs[k])
    ensures ParseRecords(RecordsText(rs)) == rs
  {
    if rs == [] {
      ParseRecordsOfEmpty();
    } else {
      var tail := rs[1..];
      forall k | 0 <= k < |tail|
        ensures RecordOk(tail[k])
      {
        assert tail[k] == rs[k + 1];
      }
      ParseRecordsOfText(tail);
      ParseRecordsOfMore(rs[0], tail);
      assert rs == [rs[0]] + tail;
    }
  }

  lemma {:induction false} LoadRecordsConcat(t: Table, xs: seq<Record>, ys: seq<Record>)
    requires |t| == HASH_SIZE && IndicesInRange(xs) && IndicesInRange(ys)
    ensures IndicesInRange(xs + ys)
    ensures LoadRecords(t, xs + ys) == LoadRecords(LoadRecords(t, xs), ys)
  {
    if ys != [] {
      var pre := ys[..|ys| - 1];
      assert (xs + ys)[..|xs + ys| - 1] == xs + pre;
      assert (xs + ys)[|xs + ys| - 1] == ys[|ys| - 1];
      LoadRecordsConcat(t, xs, pre);
    } else {
      assert xs + ys == xs;
    }
  }

  lemma {:induction false} LoadBucket(t: Table, i: int, c: seq<Entry>)
    requires |t| == HASH_SIZE && 0 <= i < HASH_SIZE
    ensures IndicesInRange(BucketRecords(i, c))
    ensures LoadRecords(t, BucketRecords(i, c)) == t[i := HashSlot(t[i].index, t[i].chain + c)]
  {
    var rs := BucketRecords(i, c);
    if c != [] {
      var pre, e := c[..|c| - 1], c[|c| - 1];
      assert rs == BucketRecords(i, pre) + [Record(i, e)];
      LoadBucket(t, i, pre);
      LoadRecordsLast(t, rs, BucketRecords(i, pre), Record(i, e));
      AppendToBucket(t, i, pre, e);
      assert pre + [e] == c;
    } else {
      assert t[i].chain + c == t[i].chain;
      assert t[i := HashSlot(t[i].index, t[i].chain + c)] == t;
    }
  }

  /** Appending one more main node to a bucket that already received `c` extends it by `c + [e]`. */
  lemma AppendToBucket(t: Table, i: int, c: seq<Entry>, e: Entry)
    requires |t| == HASH_SIZE && 0 <= i < HASH_SIZE
    ensures AppendRecord(t[i := HashSlot(t[i].index, t[i].chain + c)], Record(i, e))
         == t[i := HashSlot(t[i].index, t[i].chain + (c + [e]))]
  {
    assert (t[i].chain + c) + [e] == t[i].chain + (c + [e]);
  }

  /** Loading records that end with `r` is loading the others, then appending `r`. */
  lemma LoadRecordsLast(t: Table, rs: seq<Record>, pre: seq<Record>, r: Record)
    requires |t| == HASH_SIZE && IndicesInRange(rs) && rs == pre + [r]
    ensures IndicesInRange(pre) && 0 <= r.index < HASH_SIZE
    ensures LoadRecords(t, rs) == AppendRecord(LoadRecords(t, pre), r)
  {
    assert r in rs;
    assert rs[..|rs| - 1] == pre;
  }

  /** The table whose first `n` buckets are those of `t`, the others as initialised. */
  function LoadedUpTo(t: Table, n: nat): (u: Table)
    requires |t| == HASH_SIZE && n <= HASH_SIZE
    ensures |u| == HASH_SIZE
  {
    seq(HASH_SIZE, b requires 0 <= b < HASH_SIZE => if b < n then HashSlot(b, t[b].chain) else HashSlot(b, []))
  }

  lemma LoadedUpToStep(t: Table, n: nat)
    requires |t| == HASH_SIZE && 0 < n <= HASH_SIZE
    ensures var u := LoadedUpTo(t, n - 1);
      LoadedUpTo(t, n) == u[n - 1 := HashSlot(u[n - 1].index, u[n - 1].chain + t[n - 1].chain)]
  {
    var u := LoadedUpTo(t, n - 1);
    var v := u[n - 1 := HashSlot(u[n - 1].index, u[n - 1].chain + t[n - 1].chain)];
    assert [] + t[n - 1].chain == t[n - 1].chain;
    assert forall b :: 0 <= b < HASH_SIZE ==> v[b] == LoadedUpTo(t, n)[b];
  }

  lemma LoadedUpToEnds(t: Table)
    requires |t| == HASH_SIZE
    ensures LoadedUpTo(t, 0) == EmptyTable()
    ensures (forall b :: 0 <= b < HASH_SIZE ==> t[b].index == b) ==> LoadedUpTo(t, HASH_SIZE) == t
  {
  }

  lemma {:induction false} LoadRecordsUpTo(t: Table, n: nat)
    requires |t| == HASH_SIZE && n <= HASH_SIZE
    ensures IndicesInRange(RecordsUpTo(t, n))
    ensures LoadRecords(EmptyTable(), RecordsUpTo(t, n)) == LoadedUpTo(t, n)
  {
    if n > 0 {
      LoadRecordsUpTo(t, n - 1);
      LoadBucket(LoadedUpTo(t, n - 1), n - 1, t[n - 1].chain);
      LoadRecordsConcat(EmptyTable(), RecordsUpTo(t, n - 1), BucketRecords(n - 1, t[n - 1].chain));
      LoadedUpToStep(t, n);
    } else {
      LoadedUpToEnds(t);
    }
  }

  /** The hash array can be saved and read back: initialised indices, records that read back as themselves. */
  predicate Saveable(t: Table)
  {
    && |t| == HASH_SIZE
    && (forall b :: 0 <= b < HASH_SIZE ==> t[b].index == b)
    && (forall b, k :: 0 <= b < HASH_SIZE && 0 <= k < |t[b].chain| ==> RecordOk(Record(b, t[b].chain[k])))
  }

  lemma {:induction false} RecordsUpToOk(t: Table, n: nat)
    requires Saveable(t) && n <= HASH_SIZE
    ensures forall k :: 0 <= k < |RecordsUpTo(t, n)| ==> RecordOk(RecordsUpTo(t, n)[k])
  {
    if n > 0 {
      RecordsUpToOk(t, n - 1);
    }
  }

  /** The text of at least one record starts with '#' and has '#' just before its final newline. */
  lemma {:induction false} RecordsTextShape(rs: seq<Record>)
    requires rs != []
    ensures var s := RecordsText(rs); |s| >= 2 && s[0] == '#' && s[|s| - 2] == '#'
  {
    var s := RecordsText(rs);
    var first := RecordText(rs[0]);
    assert s == first + RecordsText(rs[1..]);
    assert first[0] == '#';
    if rs[1..] == [] {
      assert s == first;
    } else {
      RecordsTextShape(rs[1..]);
    }
  }

  /** The saved text reads back as the saved records, and loading them into an initialised array rebuilds it. */
  lemma ReadBackSaved(t: Table)
    requires Saveable(t)
    ensures ParseRecords(Serialise(t)) == Records(t)
    ensures IndicesInRange(Records(t))
    ensures LoadRecords(EmptyTable(), Records(t)) == t
  {
    RecordsUpToOk(t, HASH_SIZE);
    ParseRecordsOfText(Records(t));
    LoadRecordsUpTo(t, HASH_SIZE);
    LoadedUpToEnds(t);
  }

  /**
   * Saving a hash array under a ".txt" name and loading what was written into
   * a freshly initialised hash array gives back the saved hash array exactly:
   * the same buckets, main nodes in the same order, the same words, file
   * counts, file names and counts. Each saved file name is struck from the
   * file list. An array with no main node saves an empty file, which loading
   * refuses, leaving the array as it is, that is, equal to the saved one.
   */
  lemma SaveLoadRoundTrip(t: Table, fl: seq<string>, name: string)
    requires Saveable(t)
    requires EndsWithTxt(name)
    ensures Save(t, name).written.Some?
    ensures var out := Update(EmptyTable(), fl, name, Save(t, name).written);
      && out.table == t
      && out.files == Prune(fl, RecordNames(Records(t)))
      && (out.status == Success <==> Records(t) != [])
  {
    var rs := Records(t);
    ReadBackSaved(t);
    if rs != [] {
      RecordsTextShape(rs);
    } else {
      assert Serialise(t) == "";
    }
  }

  // ---------------------------------------------------------------------
  // Saving a built index

  /** A main node whose word and file names all fit a backup field. */
  predicate EntryFieldsOk(e: Entry)
  {
    FieldOk(e.word, WORD_SIZE) && forall j :: 0 <= j < |e.occs| ==> FieldOk(e.occs[j].name, WORD_SIZE)
  }

  predicate ChainFieldsOk(c: seq<Entry>)
  {
    forall k :: 0 <= k < |c| ==> EntryFieldsOk(c[k])
  }

  predicate FieldsOk(t: Table)
  {
    forall b :: 0 <= b < |t| ==> ChainFieldsOk(t[b].chain)
  }

  /** Every listed file that opens has a name and tokens that fit a backup field. */
  predicate FilesFieldsOk(files: seq<string>, fs: FileSystem)
  {
    forall g :: g in files && g in fs ==>
      FieldOk(g, WORD_SIZE) && forall k :: 0 <= k < |Tokens(fs[g])| ==> FieldOk(Tokens(fs[g])[k], WORD_SIZE)
  }

  /** Reading a word that fits into a chain whose fields fit keeps them fitting. */
  lemma AddToChainFields(c: seq<Entry>, w: string, f: string)
    requires ChainFieldsOk(c) && FieldOk(w, WORD_SIZE) && FieldOk(f, WORD_SIZE)
    ensures ChainFieldsOk(AddToChain(c, w, f))
  {
  }

  lemma AddTokenFields(t: Table, w: string, f: string)
    requires |t| == HASH_SIZE && FieldsOk(t) && FieldOk(w, WORD_SIZE) && FieldOk(f, WORD_SIZE)
    ensures FieldsOk(AddToken(t, w, f))
  {
  }

  lemma {:induction false} AddFileFields(t: Table, f: string, toks: seq<string>)
    requires |t| == HASH_SIZE && FieldsOk(t) && FieldOk(f, WORD_SIZE)
    requires forall k :: 0 <= k < |toks| ==> FieldOk(toks[k], WORD_SIZE)
    ensures FieldsOk(AddFile(t, f, toks))
  {
    if toks != [] {
      AddFileFields(t, f, toks[..|toks| - 1]);
      AddTokenFields(AddFile(t, f, toks[..|toks| - 1]), toks[|toks| - 1], f);
    }
  }

  lemma {:induction false} BuildFields(t: Table, files: seq<string>, fs: FileSystem)
    requires |t| == HASH_SIZE && FieldsOk(t) && FilesFieldsOk(files, fs)
    ensures FieldsOk(Build(t, files, fs))
  {
    if files != [] {
      var pre := files[..|files| - 1];
      var f := files[|files| - 1];
      assert FilesFieldsOk(pre, fs);
      BuildFields(t, pre, fs);
      if f in fs {
        AddFileFields(Build(t, pre, fs), f, Tokens(fs[f]));
      }
    }
  }

  /**
   * An index built from scratch can be saved and read back when every listed
   * file that opens has a name, and tokens, that are non-empty, free of ';'
   * and shorter than 50 characters.
   */
  lemma BuildSaveable(files: seq<string>, fs: FileSystem)
    requires FilesFieldsOk(files, fs)
    ensures Saveable(Build(EmptyTable(), files, fs))
  {
    var t := Build(EmptyTable(), files, fs);
    BuildWellFormed(EmptyTable(), files, fs);
    BuildFields(EmptyTable(), files, fs);
    forall b, k | 0 <= b < HASH_SIZE && 0 <= k < |t[b].chain|
      ensures RecordOk(Record(b, t[b].chain[k]))
    {
      assert EntryOk(t[b].chain[k]);
      assert EntryFieldsOk(t[b].chain[k]);
    }
  }

  /** Saving a freshly built index and loading it into an initialised array gives back that index. */
  lemma BuildSaveLoadRoundTrip(files: seq<string>, fs: FileSystem, fl: seq<string>, name: string)
    requires FilesFieldsOk(files, fs)
    requires EndsWithTxt(name)
    ensures var t := Build(EmptyTable(), files, fs);
      Update(EmptyTable(), fl, name, Save(t, name).written).table == t
  {
    BuildSaveable(files, fs);
    SaveLoadRoundTrip(Build(EmptyTable(), files, fs), fl, name);
  }
}
