# Split and merge of large files, modelled in Dafny

The program in `main.py` has two operations on folders.

- `split_files` cuts every file of a source folder into pieces of at most
  `CHUNK_SIZE` bytes (25 MiB). Piece `n` of file `f` is written to the output
  folder as `f_n`, counting from 1.
- `merge_files` reads a folder of such pieces and cuts every entry's name at
  its last underscore. It keeps the entries whose suffix is a string of
  digits and groups them by the part before the underscore (the base name).
  It sorts each group by (part number, file name) and writes the pieces'
  bytes one after the other into one file named by the base name.

This project models both operations and proves what they promise.

- A folder is a `Dir`: a finite map from file name to bytes (`seq<bv8>`).
- The two loops over a folder listing are methods. They take a file of the
  listing in no fixed order, since the listing order is unspecified.
- Each method is proved equal to a specification function: `SplitOutput`
  for the splitter and `MergeOutput` for the merger.
- Properties of those functions are proved as lemmas. The main one is the
  round trip: merging what the splitter wrote gives back every non-empty
  file, under its own name and with its own bytes.

Modules:

- `Files` (files.dfy): bytes, folders, `CHUNK_SIZE`, `Option`.
- `ChunkNames` (chunk_names.dfy): formatting `{name}_{n}` and parsing it
  back.
  - `str(n)` is `Decimal`.
  - `int(s)` on a digit string is `DecimalValue`.
  - `rsplit('_', 1)` is `RSplitUnderscore`.
  - The test on the suffix (`len(parts) == 2 and parts[1].isdigit()`) is
    `ParseChunkName`.
- `Ordering` (ordering.dfy): Python's `<` on `str` and on `(int, str)`
  tuples, `sorted` as an insertion sort, and the uniqueness of the sorted
  arrangement.
- `Splitter` (splitter.dfy): the chunks of one file, the chunk files
  written for one file and for a folder, and the methods `SplitFile` and
  `SplitFiles`.
- `Merger` (merger.dfy): groups, the merged contents, and the methods
  `GroupChunks`, `AppendChunks`, `MergeGroup` and `MergeFiles`.
- `RoundTrip` (round_trip.dfy): split followed by merge.

## Model

| member | source | states |
|---|---|---|
| Splitter.Chunks | main.py:26-30 | Definition: the successive reads of one file. Each read takes the next min(size, bytes left) bytes, and reading stops at the first empty read. |
| Splitter.FileChunks | main.py:25-35 | Definition: the chunk files written for one file. The k-th piece goes under `{name}_{k}`, for k = 1 .. the number of pieces. |
| Splitter.SplitOutput | main.py:21-35 | Definition: everything the splitter writes for a folder. This is every source file's chunk files, the chunk `{f}_{k}` holding the k-th read of `f`. |
| Splitter.SplitFile | main.py:24-35 | The read/write loop on one file leaves the output folder as before plus chunk k of the file stored under `{name}_{k}`, for every chunk. |
| Splitter.SplitFiles | main.py:21-35 | Splitting a folder, whatever order the listing gives the files in, leaves the output as before plus `SplitOutput(src, size)`: the chunk files of every source file. |
| Splitter.FileChunksHas | main.py:25-35 | The names written for one file are exactly `{name}_1` .. `{name}_{n}`: numbering starts at 1 and goes up by 1. `{name}_{k}` holds chunk k. |
| Splitter.SplitOutputHas | main.py:21-32 | A name is in the split output exactly when it is `{f}_{k}` for a source file `f` and 1 <= k <= its chunk count. It then holds chunk k of `f`. |
| Splitter.SplitOutputInsert | main.py:21-35 | One more source file adds exactly that file's chunk files to the split output. |
| Splitter.ChunkSizes | main.py:26-30 | Every chunk is non-empty and at most the chunk size. Every chunk but the last is exactly the chunk size. |
| Splitter.ChunksFlatten | main.py:26-34 | The chunks of a file, concatenated in order, are the file's bytes. |
| Splitter.ChunkCount | main.py:25-35 | A file of L bytes gives ceil(L / size) chunks. It gives none exactly when it is empty. |
| Splitter.LastChunkSize | main.py:28-30 | The last chunk of a non-empty file holds L mod size bytes, or a full chunk when size divides L. |
| ChunkNames.ChunkName | main.py:32 | Definition: the name of chunk n of a file is the file name, an underscore, then `str(n)`. |
| ChunkNames.DecimalValue | main.py:58 | Definition: `int(s)` on a string of ASCII digits, read from the left as base 10. |
| ChunkNames.DecimalValueLeadingZero | main.py:58 | A leading zero does not change the part number: `int("0" + s) == int(s)`. |
| ChunkNames.Decimal | main.py:32 | `str(n)`: a non-empty digit string whose first digit is 0 only for n = 0. |
| ChunkNames.DecimalRoundTrip | main.py:58 | `int(str(n)) == n`. |
| ChunkNames.RSplitUnderscore | main.py:55 | `rsplit('_', 1)` gives one piece exactly when the name has no underscore. Otherwise the name is before + `_` + after, with no underscore in after. |
| ChunkNames.RSplitAtLastUnderscore | main.py:55 | The cut is at the last underscore: whenever s = before + `_` + after with no underscore in after, rsplit returns exactly (before, after). |
| ChunkNames.ParseChunkName | main.py:55-57 | A name without an underscore is never a chunk. The base name of a chunk, followed by `_`, is a prefix of the name. |
| ChunkNames.ParseAt | main.py:55-58 | A name is kept exactly when the text after its last underscore is a non-empty digit string. Its base is the text before that underscore and its part is the value of the digits. |
| ChunkNames.ParseFormat | main.py:32 | Parsing `{name}_{n}` as the splitter formats it gives back (name, n), whatever the file name contains. |
| ChunkNames.ChunkNameInjective | main.py:32 | Two different (file, part) pairs never produce the same chunk name. |
| ChunkNames.IgnoredNames | main.py:56 | `garbage`, `c_x` and `a_` are not chunk names. |
| ChunkNames.KeptName | main.py:55-58 | `a.txt_1` is part 1 of `a.txt`. |
| ChunkNames.KeptNameWithUnderscore | main.py:55-58 | `a_b_3` is part 3 of `a_b`: only the last underscore separates the part number. |
| ChunkNames.KeptNameLeadingZero | main.py:56-58 | `f_01` is part 1 of `f`. |
| Ordering.StringLess | main.py:64 | Definition: Python's `<` on `str`. It compares code points from the left, and a proper prefix comes before its extensions. |
| Ordering.EntryLess | main.py:64 | Definition: Python's `<` on `(int, str)` tuples. It compares part numbers first, then file names. |
| Ordering.StringLessIrreflexive | main.py:64 | No string is below itself in Python's string order. |
| Ordering.StringLessTransitive | main.py:64 | Python's string order is transitive. |
| Ordering.StringLessTotal | main.py:64 | Any two different strings are ordered one way or the other. |
| Ordering.StringLessAsymmetric | main.py:64 | Python's string order is never true both ways. |
| Ordering.EntryLeTotal | main.py:64 | Any two (part, name) entries are comparable. |
| Ordering.EntryLeAntisymmetric | main.py:64 | Two entries each at most the other are equal. |
| Ordering.EntryLeTransitive | main.py:64 | The order on entries is transitive. |
| Ordering.Insert | main.py:64 | Inserting into a sorted list keeps it sorted and adds exactly the one element. |
| Ordering.Sort | main.py:64 | `sorted(file_list)` is ascending in (part, name) and a permutation of the list. |
| Ordering.SortedUnique | main.py:64 | Two ascending lists with the same elements are equal, so the sorted group does not depend on the listing order. |
| Ordering.OrderExamples | main.py:64 | Part 2 comes before part 10 although "f_10" < "f_2" as text. Equal parts fall back to the name: (1, "f_01") before (1, "f_1"). |
| Merger.Group | main.py:53-59 | Definition: the list `groups[b]` as a set. It holds (int(suffix), name) for every listed name that parses with base b. |
| Merger.Bases | main.py:53-59 | Definition: the keys of `groups`, that is the base names of the listed names that parse as chunk names. |
| Merger.Join | main.py:66-70 | Definition: the bytes of an output file that gets the listed files' contents written one after the other, in list order. |
| Merger.MergeOutput | main.py:47-70 | Definition: everything the merger writes. For each base name b it is one file b holding b's group sorted by (part, name) and joined. |
| Merger.GroupChunks | main.py:50-59 | The dictionary built from a listing has one key per base name that occurs. Each key's list holds exactly that group's (part, name) entries. |
| Merger.GroupHas | main.py:53-59 | (part, name) is in the group of base b exactly when name is in the folder and parses as part `part` of b. |
| Merger.BasesHas | main.py:59-62 | A base name gets a group exactly when at least one entry parses with that base. |
| Merger.AppendChunks | main.py:66-70 | Writing the sorted list's files one after the other gives their contents concatenated in list order. |
| Merger.MergeGroup | main.py:64-70 | The file written for one group is the merged contents the specification gives for that base name. |
| Merger.MergeFiles | main.py:47-70 | Merging a folder, in any listing order, leaves the output as before plus `MergeOutput(src)`: one file per base name. |
| Merger.MergedFile | main.py:62-70 | The merged file of a base name is its chunks appended in any ascending (part, name) arrangement of its group. |
| Merger.MergeOutputNames | main.py:53-62 | The merger writes a file named b exactly when some entry of the folder parses with base b. |
| Merger.IgnoredEntry | main.py:56 | Adding an entry whose name does not parse changes nothing in the merge output. |
| Merger.JoinFrame | main.py:67-70 | The merged bytes depend only on the contents of the chunk files named in the group. |
| Merger.Ordered | main.py:64 | The sorted group is ascending and holds exactly the group's entries. |
| Merger.MergeExample | main.py:53-70 | Entries `{f}_10`, `{f}_2` and `{f}_1` merge into one file `f` with the contents of parts 1, 2 and 10 in that order. |
| RoundTrip.SplitThenMerge | main.py:7-70 | Merging the split output of a folder gives exactly its non-empty files, with their names and bytes. |
| RoundTrip.SplitThenMergeChunkSize | main.py:5 | The same round trip at the chunk size the program uses, `CHUNK_SIZE` = 25 MiB. |
| RoundTrip.RestoredFile | main.py:62-70 | A non-empty file's name is among the merged names and its merged file holds the file's bytes. |
| RoundTrip.SplitBases | main.py:55-59 | Among the split output's names, base b has a group exactly when b is a non-empty source file. |
| RoundTrip.SplitGroup | main.py:53-59 | The group the merger collects for file f from the split output is exactly the entries (k, `{f}_{k}`) for k = 1 .. its chunk count, each once. |
| RoundTrip.SplitChunk | main.py:32-34 | Chunk k of file f is in the split output under `{f}_{k}`. |
| RoundTrip.JoinNumbered | main.py:67-70 | Appending `{f}_1` .. `{f}_{k}` from a folder that holds the pieces under those names gives the first k pieces concatenated. |
| RoundTrip.ChunkEntriesSorted | main.py:64 | The entries (1, `{f}_1`) .. (n, `{f}_{n}`) are already in ascending (part, name) order, which is the order `sorted` leaves a file's group in. |

## Left out

- File-system I/O is not modelled. This covers `os.makedirs`, `os.path.join`, opening, reading and writing files, and the errors these raise (missing folder, no permission, full disk). A folder is a map from names to bytes, and writing a file is a map update.
- Sub-directories are not modelled: a `Dir` holds only files. The splitter's `os.path.isfile` test therefore always passes. The merger has no such test, so a sub-directory of the chunk folder whose name looks like a chunk name would be grouped, and reading it raises an error; a `Dir` cannot represent that case.
- The order of `os.listdir` is not a fixed order in the model. Each loop takes the next entry from the remaining ones in no fixed order, and every result is proved for every such order.
- Reading a file in pieces is modelled on the file's whole contents. The chunk at position pos is `data[pos..min(pos + size, |data|)]`, which is what `f.read(size)` returns on a regular file.
- `ChunkNames.IsDigit`: `str.isdigit` is modelled on the ASCII digits only. Python also accepts other Unicode digit characters, and `int` rejects some of them; such names are outside the model.
- Some base names make the source open a directory as the output file, which raises an OS error. These are the empty base (an entry `_1`), `.` (an entry `._1`) and `..` (an entry `.._2`). The model writes a file under that name instead.
- The case where the output folder is also the source folder is not modelled. There the listing and the writes interleave. The model reads `src` and writes to a separate `out`.
- Python's `sorted` (Timsort) is modelled by insertion sort. `Ordering.SortedUnique` shows both give the same list, since an ascending arrangement is unique.
- `RoundTrip.SplitThenMerge` is stated for the non-empty files only. An empty source file produces no chunk file, so merging cannot bring it back.
- The operations take the chunk size as a parameter greater than zero, and every result is proved for every such size. The source always passes `CHUNK_SIZE`, and `RoundTrip.SplitThenMergeChunkSize` states the round trip at that value.
- The two calls at the end of `main.py`, one of them commented out, are not modelled: they are a run of the script on fixed folder names.
- Concurrency and changes to the folders by other processes while a loop runs are not modelled.
