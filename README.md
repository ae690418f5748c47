# Inverted Search System — a verified Dafny model of its core

The Inverted Search System builds an inverted index over a set of text files.
For every distinct word it records the files that contain the word and, per
file, how many times the word occurs. The index is a hash array of 27 buckets,
one per letter plus one for any other leading character. Each bucket holds a
chain of *main nodes* (one per word, with a file count), and each main node
holds a list of *sub nodes* (one per file, with a word count). The index can
be searched by exact word, written to a textual backup file, and loaded back
from one. Loading strikes every file named in the backup from the pending
*file list*, the list of command-line files still waiting to be indexed.

The model follows the C sources `database.c`, `helper.c`, `validate.c` and
`inverted_search.h`, one Dafny module per concern:

- `inverted_search.dfy` (module `InvertedSearch`)
  - The constants, the `Status` codes and the node records: `Occ` for a sub node, `Entry` for a main node, `HashSlot` for a bucket.
  - The file list as a class `FileList` whose field `files` the operations reassign.
- `helper.dfy` (module `Helper`)
  - Hash-array initialisation (an in-place loop over an `array<HashSlot>`), the first-character bucketer and node construction.
  - The two-character structural check of a backup.
  - `delete_duplicate_file` as a method on the file list, specified by the function `RemoveFirst`, and `delete_list`.
- `validate.dfy` (module `Validate`)
  - The `.txt` extension check, the duplicate check and the append to the file list.
  - The command-line validation loop as a method, specified by the function `AdmitAll`, with lemmas about what that loop admits.
- `scan.dfy` (module `Scan`)
  - The C library conversions the code relies on, stated over character sequences:
    - `%s` splits a file into tokens;
    - `%d` reads an integer, and `printf`'s `%d` writes one;
    - `%[^;]` reads a field up to the next `;`.
  - A small `scanf` interpreter over a list of directives, which returns the values stored and the text left.
- `indexer.dfy` (module `Indexer`)
  - What building the index and searching it compute, as functions of the hash array's value.
  - The invariants the build keeps, the counts it records, and which words it makes present, in what order.
- `backup.dfy` (module `Backup`)
  - The backup text the save writes, the record-by-record reading of a backup, and what loading does to the hash array and the file list.
  - The save-then-load round trip.
- `database.dfy` (module `Database`)
  - The operations of `database.c` as methods over the hash array (`array<HashSlot>`) and the `FileList` object.
  - Each method is proved equal to the matching function of `Indexer` or `Backup`.
  - A search does not change the index: the methods that leave it unchanged have no `modifies` clause.

Files on disk are a parameter `fs: map<string, string>`. A name that is absent
cannot be opened, and the value is the file's text. The backup file being
loaded is given as `content: Option<string>`, where None means it cannot be
opened.

Behaviours of the code that the model reproduces as written:

- **Backup format check.** Loading checks the backup's second-to-last byte (a character in the model) for `#`, not that the file ends in `#` and a newline (`helper.c:91-93`).
- **File handles.** The handle opened by loading is not closed on its early failure paths (`database.c:283-293`). The save does not check that its `fopen` succeeded. The model has no handles, so neither shows up in it.
- **Record loop.** Loading reads records with a `while` loop whose condition is that the header read stores three values. A header read that does not match ends loading, and the status is still Success.

The sub-node reading of one record (`database.c:321-342`) is a counted `for`
loop in C. In the model it is a method that reads one pair and recurses on the
remaining count. The reads, the removals from the file list and their order
are the same as long as every pair read succeeds (see the Database.ReadSubNodes
line under "## Left out").

## Model

| member | source | states |
|---|---|---|
| InvertedSearch.Code | inverted_search.h:59-65 | Failure is code 0 and every code is below 4 |
| InvertedSearch.CodesDistinct | inverted_search.h:59-65 | distinct statuses have distinct numeric codes |
| InvertedSearch.FileList.constructor | inverted_search.h:28-32 | a new file list is empty |
| Helper.EmptyTable | helper.c:29-37 | 27 slots, slot i has index i and no main node |
| Helper.InitialiseHash | helper.c:29-37 | after the loop the array equals the initialised table; returns Success |
| Helper.FindIndex | helper.c:39-53 | the bucket is below 27; it is below 26 exactly when the word starts with an ASCII letter, and then it is that letter's place in the alphabet, case folded |
| Helper.SameBucketIgnoringCase | helper.c:39-53 | words whose first letters differ only in case share a bucket |
| Helper.NewEntryShape | helper.c:55-82 | a new main node with its first sub node has the word, file count 1 = number of sub nodes, and that sub node has the file and count 1 |
| Helper.ValidateBackupDatabase | helper.c:84-98 | Success exactly when the text has at least two characters, starts with '#' and has '#' second to last; otherwise Failure |
| Helper.IndexOf | helper.c:105-124 | the position of the first node holding the name, or the length when there is none |
| Helper.RemoveFirst | helper.c:100-126 | a name not in the list leaves it unchanged; otherwise exactly its first node is cut out |
| Helper.RemoveFirstMultiset | helper.c:100-126 | removing a present name removes exactly one copy and shortens the list by one |
| Helper.RemoveFirstMembers | helper.c:100-126 | every other name is in the result exactly when it was in the list |
| Helper.RemoveFirstNoDup | helper.c:100-126 | on a list without repeats the result has none, the name is gone, and a second removal changes nothing |
| Helper.DeleteDuplicateFile | helper.c:100-126 | the list becomes RemoveFirst of the old list; Success exactly when the name was in the list, otherwise Failure |
| Helper.DeleteList | helper.c:139-158 | the list ends empty; Failure exactly when it was already empty, otherwise Success |
| Validate.LastDot | validate.c:111-113 | None exactly when there is no '.'; otherwise the position of a '.' with no '.' after it |
| Validate.ValidateFileExtension | validate.c:109-116 | Success exactly when the name ends in ".txt", otherwise Failure |
| Validate.ExtensionExamples | validate.c:109-116 | "notes.txt" and ".txt" pass; "notes", "notes.txt.bak" and "notes.TXT" fail |
| Validate.ValidateDuplicateFile | validate.c:147-160 | Duplicate exactly when the name is in the list, otherwise Success |
| Validate.Acceptable | validate.c:51-72 | an argument passes the per-file checks exactly when it ends in ".txt", opens and is not empty |
| Validate.InsertAtLast | validate.c:171-194 | the name is appended after the last node; returns Success |
| Validate.AdmitAll | validate.c:49-91 | the loop keeps the list it started from as a prefix |
| Validate.AdmitAllMembers | validate.c:49-91 | a name ends in the list exactly when it was there or is an argument with a .txt name that opens and is not empty |
| Validate.AdmitAllKeepsFirst | validate.c:49-91 | the loop appends exactly each acceptable argument that is neither in the starting list nor an earlier argument, in argument order |
| Validate.AdmitAllNoDup | validate.c:75-87 | starting from a list without repeats, the loop never adds a name twice |
| Validate.ReadAndValidateInputArguments | validate.c:41-99 | the file list becomes AdmitAll of the arguments after the program name; Success exactly when at least one file was added |
| Scan.Tokens | database.c:37-38 | each word the `%s` loop reads is non-empty and free of white space |
| Scan.ScanWord | database.c:37 | a `%s` read that returns a word returns a non-empty token free of white space and consumes input |
| Scan.TokensByScanWord | database.c:37 | reading word after word yields exactly the tokens of the text |
| Scan.ScanWordStep | database.c:37 | one more read appends the next token to those already read, or ends the loop |
| Scan.TokensOfJoin | database.c:37 | the tokens of words separated by spaces are those words |
| Scan.SkipSpace | database.c:343 | the result is a suffix of the input and does not start with white space |
| Scan.SkipSpaceSkipsSpace | database.c:343 | every character skipped is white space, so skipping stops at the first other character |
| Scan.ScanSet | database.c:323 | `%[^;]` fails exactly on empty input or a leading ';'; otherwise it splits the input into a non-empty ';'-free field and a rest that is empty or starts with ';' |
| Scan.Literal | database.c:297 | a format character is consumed exactly when it is next in the input |
| Scan.Convert | database.c:297 | one directive stores at most one value and leaves no more input than it was given, strictly less when it stored a value |
| Scan.ScanDigits | database.c:297 | a digit run is read exactly when the input starts with a digit; it leaves a strictly shorter suffix |
| Scan.ScanSigned | database.c:297 | an optionally signed number that is read leaves a strictly shorter suffix of its input |
| Scan.ScanInt | database.c:297 | a `%d` read that succeeds consumes input |
| Scan.ScanIntSuffix | database.c:297 | a `%d` read that succeeds leaves a suffix of its input |
| Scan.ScanDigitsOf | database.c:297 | a run of digits followed by a non-digit is read as the number it denotes, stopping after the run |
| Scan.Scanf | database.c:297 | a call stores at most one value per directive and leaves no more input than it was given, strictly less when it stored a value |
| Scan.ConvertSuffix | database.c:297 | one conversion leaves a suffix of its input: the input after the characters it read |
| Scan.ScanfSuffix | database.c:297 | a call leaves a suffix of its input: the characters it did not read, unchanged |
| Scan.IntToString | database.c:247 | `%d` prints at least one character, starting with a digit or '-', with no ';' and no white space |
| Scan.ValueOfNatToString | database.c:251 | the digits printed for a number denote that number |
| Scan.ScanIntOfIntToString | database.c:297 | `%d` reads back exactly the number `%d` printed and stops where it ends |
| Scan.ScanSetOfField | database.c:323 | `%[^;]` reads back a non-empty ';'-free field and stops at the ';' after it |
| Indexer.WordPos | database.c:59-69 | the position of the first main node holding the word, with no match before it; the chain length when there is none |
| Indexer.OccPos | database.c:78-88 | the position of the first sub node for the file, with no match before it; the list length when there is none |
| Helper.CreateMainNode | helper.c:55-68 | a new main node holds the word, has file count 1 and no sub node yet |
| Helper.CreateSubNode | helper.c:70-82 | a new sub node holds the file name and count 1 |
| Indexer.CountFile | database.c:89-106 | counting a file keeps the main node's word and never shortens its sub-node list |
| Indexer.CountFileNames | database.c:89-106 | counting a file the node lacks appends its sub node at the end and raises the file count by one; counting a file it has changes neither |
| Indexer.AddToChain | database.c:54-126 | reading a word into a chain adds at most one main node |
| Indexer.AddToChainWords | database.c:108-125 | a new word's main node goes after the chain's words, which keep their places; a known word adds none |
| Indexer.AddToken | database.c:41-127 | reading a word changes only the word's bucket and keeps every slot's index |
| Indexer.AddFile | database.c:37-128 | reading a file keeps the size of the array and every slot's index |
| Indexer.Build | database.c:25-133 | the build keeps the size of the array and every slot's index |
| Indexer.CountFileOk | database.c:89-106 | counting a file for a well-formed main node keeps it well formed |
| Indexer.AddTokenWellFormed | database.c:41-127 | reading a word keeps every node in its word's bucket, file count = number of sub nodes, counts positive, no repeated file per word, no repeated word per bucket |
| Indexer.AddFileWellFormed | database.c:37-128 | reading a whole file keeps the same invariant |
| Indexer.BuildWellFormed | database.c:25-133 | a build over any file list keeps the same invariant |
| Indexer.CountFileCount | database.c:89-106 | counting file f raises the count of f by one and no other file's count |
| Indexer.AddToChainCount | database.c:54-126 | reading (w, f) into a chain raises the count of (w, f) by one and no other count |
| Indexer.AddTokenCount | database.c:41-127 | reading (w, f) raises the count of (w, f) by one and no other count |
| Indexer.AddFileCount | database.c:37-128 | reading a file raises the count of each word for that file by its number of occurrences |
| Indexer.BuildCount | database.c:25-133 | over distinct files, the count of (v, g) grows by v's number of occurrences in g when g is listed and opens, and by nothing otherwise |
| Indexer.AddTokenPresent | database.c:41-127 | after reading w a word is present exactly when it was before or is w |
| Indexer.AddTokenOrder | database.c:41-127 | reading a word keeps the words of every bucket at their places |
| Indexer.AddFilePresent | database.c:37-128 | after reading a file a word is present exactly when it was before or is one of its tokens |
| Indexer.AddFileOrder | database.c:37-128 | reading a file keeps the words of every bucket at their places |
| Indexer.InSomeFileExists | database.c:27-35 | the file-by-file description agrees with "some listed file that opens contains the word" |
| Indexer.BuildPresent | database.c:25-133 | after a build a word is present exactly when it was before or some listed file that opens contains it |
| Indexer.BuildOrder | database.c:25-133 | a build keeps the words found earlier at their places; new words go after them |
| Indexer.AddToChainFiles | database.c:93-106 | reading (w, f) into a chain appends f to w's files when it is new there and changes no other word's files |
| Indexer.AddTokenFiles | database.c:41-127 | reading (w, f) appends f to w's files when it is new there and changes no other word's files |
| Indexer.AddFileFiles | database.c:37-128 | reading file f appends f once to the files of each of its words that lacked it; other words' files are unchanged |
| Indexer.FilesWith | database.c:27-35 | a file is listed exactly when it is in the list and opens with the word among its tokens |
| Indexer.BuildFiles | database.c:25-133 | over distinct files, a fresh build records for each word exactly the listed files containing it, in list order |
| Indexer.Search | database.c:193-222 | found exactly when the word is held by a main node of its bucket; the node found holds the word and is the first such node of that bucket |
| Indexer.SearchAfterBuild | database.c:180-229 | on a fresh build over distinct files, a word is found exactly when a listed file that opens contains it; its file count is its number of sub nodes; each sub node names a listed file with the word's exact count there; the sub nodes are exactly the listed files containing the word, in list order |
| Indexer.SearchAfterBuildCounts | database.c:89-125 | on a fresh build over distinct files, each sub node of the node found names a listed file and counts the word's occurrences in it |
| Backup.BucketRecords | database.c:242-257 | one record per main node of the bucket, in chain order, tagged with the bucket |
| Backup.RecordsUpTo | database.c:240-258 | the records of the first n buckets carry bucket indices below n |
| Backup.Records | database.c:240-258 | every record written carries a bucket index of the array |
| Backup.RecordsUpToSorted | database.c:240 | the records of the first n buckets come in non-decreasing bucket order |
| Backup.EntriesForConcat | database.c:240-258 | the main nodes of a bucket in consecutive records are those of the first ones, then those of the others |
| Backup.EntriesForBucket | database.c:242-257 | the records of one chain give back that chain for its own bucket and nothing for any other |
| Backup.RecordsUpToEntries | database.c:240-258 | the records of the first n buckets hold each of those buckets' chains, in order, and nothing for the other buckets |
| Backup.RecordsOrder | database.c:240-258 | the save writes buckets 0 to 26 in increasing order and each bucket's main nodes in chain order |
| Backup.PairText | database.c:251 | a sub node's text is its file name, then ';', and ends with ';' |
| Backup.OccsText | database.c:249-253 | the sub-node texts are empty exactly when there is no sub node |
| Backup.HeaderText | database.c:247 | a header starts with '#', is longer than its word, and ends with ';' |
| Backup.RecordText | database.c:245-255 | a record's text starts with '#' and ends with '#' and a newline |
| Backup.RecordsText | database.c:242-257 | the records' text is empty exactly when there is no record |
| Backup.RecordsUpToEmpty | database.c:240-258 | the first n buckets give no record exactly when their chains are empty |
| Backup.Serialise | database.c:240-258 | the saved text is empty exactly when the array holds no main node |
| Backup.OccsTextSnoc | database.c:249-253 | writing one more sub node appends its text |
| Backup.RecordsTextConcat | database.c:240-258 | the text of consecutive records is their texts concatenated |
| Backup.Save | database.c:231-264 | Success exactly when the name ends in ".txt"; then the file holds the whole backup text; on Failure nothing is written |
| Backup.ParseHeader | database.c:297 | a header read consumes input and yields a bucket index within 0..26 |
| Backup.ParsePair | database.c:323 | a pair read consumes input |
| Backup.ParsePairs | database.c:321-342 | the pair reads never leave more input than they were given; they read max(n, 0) pairs when all succeed, and fewer than n when one fails |
| Backup.ParsePairsCons | database.c:321-342 | proof step: a successful pair read puts its sub node in front of those the remaining n - 1 reads give |
| Backup.ParsePairsStop | database.c:321-342 | proof step: a failed pair read ends the record's pairs, with nothing read |
| Backup.SkipTrailer | database.c:343 | the trailer read never leaves more input than it was given |
| Backup.NextRecord | database.c:297-343 | reading a record consumes input and yields a bucket index within 0..26; a complete record has as many sub nodes as its header's file count (none for a count below 1), an incomplete one fewer |
| Backup.ParseRecordsRound | database.c:297-344 | proof step: one round of the loading loop appends the record it reads to those before it |
| Backup.ParseRecords | database.c:297-344 | every record read has a bucket index within 0..26 |
| Backup.ParseRecordsOfEmpty | database.c:297 | proof step: an empty backup reads as no record |
| Backup.AppendRecord | database.c:299-314 | appending a main node keeps the array's size |
| Backup.LoadRecords | database.c:297-344 | loading keeps the array's size |
| Backup.PruneConcat | database.c:321-342 | proof step: striking two batches of names is striking the first, then the second |
| Backup.PruneNamesCons | database.c:321-342 | striking the names of a record's pairs strikes the first pair's name first |
| Backup.Prune | database.c:321-342 | striking names never lengthens the file list |
| Backup.PruneMultiset | database.c:321-342 | as a multiset, the list loses the names read: one copy per name read while a copy is left |
| Backup.LoadStep | database.c:297-344 | proof step: loading one more record appends its main node and strikes its file names after the earlier ones |
| Backup.Update | database.c:266-349 | Success exactly when the name ends in ".txt", the file opens, has at least two characters, starts with '#' and has '#' second to last; on Failure array and file list are unchanged |
| Backup.LoadRecordsAppends | database.c:299-314 | each bucket keeps its main nodes and receives its records' main nodes after them in reading order, without merging same-word nodes |
| Backup.PruneNoDup | database.c:327 | striking names from a list without repeats leaves it without repeats |
| Backup.PruneRemoves | database.c:327 | on a list without repeats, a name stays exactly when it was there and was not read |
| Backup.ScanPairFields | database.c:323 | `%[^;];%d;` reads back a field and a printed number |
| Backup.ScanHeaderFields | database.c:297 | `%d;%[^;];%d;` reads back a printed number, a field and a printed number |
| Backup.ScanHeaderText | database.c:297 | the header read reads back the header text the save writes |
| Backup.ScanPairText | database.c:323 | the pair read reads back the sub-node text the save writes |
| Backup.ParsePairsOfText | database.c:321-342 | the pair loop reads back exactly the sub nodes whose text was written |
| Backup.SkipTrailerOfText | database.c:343 | the trailer read consumes the "#" and newline after a record and stops at the next record |
| Backup.NextRecordOfText | database.c:297-343 | the text of a well-formed record reads back as that record, complete |
| Backup.ParseRecordsOfRecordText | database.c:297-344 | a well-formed record's text followed by more records reads as that record, then the rest |
| Backup.ParseRecordsOfText | database.c:297-344 | the text of well-formed records reads back as exactly those records |
| Backup.LoadBucket | database.c:299-314 | loading a bucket's records appends its chain to that bucket |
| Backup.LoadRecordsUpTo | database.c:297-344 | loading the records of the first n buckets into an initialised array rebuilds those buckets |
| Backup.RecordsTextShape | helper.c:84-98 | the text of at least one record starts with '#' and has '#' second to last, so it passes the backup check |
| Backup.ReadBackSaved | database.c:231-344 | the saved text reads back as the saved records, and loading them into an initialised array rebuilds it |
| Backup.SaveLoadRoundTrip | database.c:231-349 | saving under a .txt name, then loading into an initialised array, yields the saved array exactly and strikes every saved file name; the status is Success exactly when something was saved |
| Backup.AddToChainFields | database.c:54-126 | reading a word and a file name that fit a backup field into a chain whose fields fit keeps them fitting |
| Backup.AddTokenFields | database.c:41-127 | the same for one word read into the hash array |
| Backup.AddFileFields | database.c:37-128 | the same for all the tokens of a file |
| Backup.BuildFields | database.c:25-133 | a build over files whose names and tokens fit keeps every word and file name fitting a backup field |
| Backup.BuildSaveable | database.c:25-133 | an index built from scratch over files whose names and tokens are non-empty, free of ';' and shorter than 50 characters meets every condition of the save-then-load round trip |
| Backup.BuildSaveLoadRoundTrip | database.c:231-349 | saving a freshly built index under a .txt name and loading it into an initialised array gives back that index |
| Database.FindMainNode | database.c:59-69 | the chain walk stops at WordPos |
| Database.FindSubNode | database.c:78-88 | the sub-node walk stops at OccPos |
| Database.InsertWord | database.c:41-127 | the array becomes AddToken of its old value |
| Database.IndexFile | database.c:36-129 | the array becomes AddFile of its old value over the file's tokens |
| Database.CreateDatabase | database.c:25-133 | the array becomes Build of its old value over the file list; returns Success |
| Database.SearchDatabase | database.c:180-229 | the node reported is Search of the array; returns Success |
| Database.WriteRecord | database.c:245-255 | the text written for one main node is its record text |
| Database.WriteBucket | database.c:242-257 | the text written for one bucket is its records' text |
| Database.SaveDatabase | database.c:231-264 | the status and the text written are those of Save |
| Database.ReadSubNode | database.c:323-327 | a pair read succeeds exactly when ParsePair does; the name read is struck from the file list; a failed read changes nothing |
| Database.ReadSubNodes | database.c:321-342 | the sub nodes read, the text left and completeness are ParsePairs; the file list loses the names read, in order |
| Database.LoadRecord | database.c:297-343 | a record is read exactly when NextRecord succeeds; then its main node is appended to its bucket and its names are struck; otherwise nothing changes |
| Database.LoadText | database.c:297-344 | the array becomes LoadRecords of its old value over ParseRecords of the text; the file list loses RecordNames of those records |
| Database.UpdateDatabase | database.c:266-349 | the status, the new array and the new file list are those of Update |

## Left out

- `main.c` (the menu loop), `display_database` and `print_file_list` are not part of this model. They only print.
- Formatted output to the terminal and to `stderr` is not modelled.
- `validate_file_size` is modelled as the file's text being non-empty. The `fseek`/`ftell` calls themselves are not modelled.
- Files are a map from names to their text. Opening, reading and closing handles is not modelled, and neither are unclosed handles or the unchecked `fopen` in `save_database`.
- `malloc` failure and `free` are not modelled. The nodes are values, and `insert_at_last` always succeeds.
- A file's text is modelled one character per byte, so only ASCII text is modelled exactly. The 50-byte limits and the backup check's test of the second-to-last byte are counted in characters. For multi-byte text C counts bytes instead: a backup ending in `#é` passes the model's check but not C's, and a word of 30 two-byte letters is within the model's limit but overflows C's buffer.
- Only the ASCII letters count as letters, as in the C locale, and a NUL character inside a file is not treated as a terminator.
- Integers are unbounded. The `%d` conversions do not wrap or saturate on overflow, and a count does not overflow `int`.
- Database.ReadSubNodes: when a pair read fails, the model appends the partly read main node, with the file count of its header, and then loading ends: no further record is read. The C loop instead goes on for the remaining pairs, each time with the buffers of the previous read (or uninitialised ones), then does the `#\n` read and tries the next header. The model does not reproduce those stale buffers.
- Database.LoadText: a header whose bucket index is outside 0..26, or whose word has 50 characters or more (the 50-byte buffer, counted one character per byte), ends loading. In C it indexes outside the array or overflows the buffer.
- Backup.ParsePair: a file name of 50 characters or more in a backup ends loading. In C it overflows the buffer.
- Database.CreateDatabase: requires every word in the listed files to be shorter than 50 characters, the size of the `%s` buffer counted one character per byte. The C code overflows the buffer otherwise.
- Validate.ReadAndValidateInputArguments: requires every acceptable argument to be shorter than 50 characters, the size of the file-name buffer counted one character per byte. The C code overflows it otherwise.
- Database.LoadRecord: the C code links the new main node into its bucket before reading its sub nodes. The model links the finished node after reading them. No other operation runs in between, so the resulting array is the same.
- The chain walks to the last node (`database.c:302-306`, `validate.c:186-190`) are sequence appends rather than loops.
- Backup.SaveLoadRoundTrip: the round trip is stated for arrays in which slot b holds index b, each file count equals its number of sub nodes, and the words and file names are non-empty, free of ';' and shorter than 50 characters. Other arrays cannot be read back: the `%[^;]` format cannot read such words, and loading trusts the saved index and file count.
