/**
 * The data model of the inverted search system: size limits, status codes,
 * the word entry ("main node"), the per-file occurrence ("sub node"), one
 * bucket of the hash table, and the singly-linked list of file names.
 */
module InvertedSearch {

  /** Size of the file-name buffers; a stored name has at most 49 characters. */
  const FILE_SIZE: nat := 50
  /** Size of the word buffers; a stored word has at most 49 characters. */
  const WORD_SIZE: nat := 50
  /** One bucket per letter a-z plus one for every other leading character. */
  const HASH_SIZE: nat := 27

  /** Operation status codes. */
  datatype Status = Failure | Success | Duplicate | Exit

  /** The numeric value of each status code. */
  function Code(s: Status): (c: nat)
    ensures c < 4
    ensures s == Failure <==> c == 0
  {
    match s
    case Failure => 0
    case Success => 1
    case Duplicate => 2
    case Exit => 3
  }

  /** Distinct status codes have distinct numeric values. */
  lemma CodesDistinct(s: Status, t: Status)
    requires s != t
    ensures Code(s) != Code(t)
  {
  }

  datatype Option<T> = None | Some(value: T)

  /** A sub node: one file in which a word occurs, with its number of occurrences. */
  datatype Occ = Occ(name: string, count: int)

  /** A main node: one word, the number of files it occurs in, and its sub nodes in list order. */
  datatype Entry = Entry(word: string, fileCount: int, occs: seq<Occ>)

  /** One element of the hash array: its index and its chain of main nodes in list order. */
  datatype HashSlot = HashSlot(index: int, chain: seq<Entry>)

  /** The value of the whole hash array. */
  type Table = seq<HashSlot>

  /** The contents of the files on disk: a name that is absent cannot be opened. */
  type FileSystem = map<string, string>

  /** The file list (File_list), a singly-linked list of names held as a sequence. */
  class FileList {
    var files: seq<string>

    constructor ()
      ensures files == []
    {
      files := [];
    }
  }

  /** No name occurs twice. */
  predicate NoDup(s: seq<string>)
  {
    forall i, j :: 0 <= i < j < |s| ==> s[i] != s[j]
  }

  /** The names of a sequence of occurrences, in order. */
  function Names(os: seq<Occ>): (r: seq<string>)
    ensures |r| == |os|
    ensures forall k :: 0 <= k < |os| ==> r[k] == os[k].name
  {
    if os == [] then [] else [os[0].name] + Names(os[1..])
  }

  /** The words of a chain of entries, in order. */
  function Words(c: seq<Entry>): (r: seq<string>)
    ensures |r| == |c|
    ensures forall k :: 0 <= k < |c| ==> r[k] == c[k].word
  {
    if c == [] then [] else [c[0].word] + Words(c[1..])
  }
}
