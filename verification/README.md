# upspin-localserver, modelled in Dafny

upspin-localserver serves one directory of the host filesystem to Upspin
clients. It runs two services over that directory:

- A **directory server** (`dir`). Its `Lookup` turns a path name into a
  signed, plain-packed directory entry. Its `Glob` lists a directory. Its
  `canList` decides whether a user may list a directory: it walks up to the
  nearest `Access` file and lets that file decide.
- A **store server** (`store`). Its `Get` serves one block of a file. The block
  is named by a reference of the form `<file>-<offset>`.

Between them sit two pieces:

- **Local storage** (`local`) confines names under a root directory. It does
  this lexically: it cleans `"/" + name` and joins the result onto the root.
- **Packing** (`packing`) builds the directory entry for a file. It cuts the
  file into 1 MiB blocks, gives each block a reference, and signs the entry
  through the user's factotum.

The project models these pieces as pure functions over immutable data, in
these modules:

| module | models |
|---|---|
| `Results` | Go's `(value, err)` pairs. |
| `Text` | `strings.Split`, `Join`, `TrimPrefix` and `TrimSuffix`, `fmt`'s `%d` and `strconv.ParseInt(s, 10, 64)`. |
| `FilePaths` | Go's lexical `Clean`, `Join` and `Dir`. A clean path is a rootedness plus a stack of elements. |
| `Os` | The host filesystem: a map from path text to what `os.Open`, `Stat`, `ReadAt` and `ioutil.ReadDir` find there. |
| `Upspin` | The upspin types and constants the server uses. |
| `UpspinPath` | `upspin.io/path` parsing: a user and the cleaned elements below the user's root. |
| `LocalStorage` | local/storage.go |
| `Packing` | packing/plain.go |
| `Store` | store/store.go |
| `DirServer` | dir/dir.go and dir/access.go |

Five themes are proved:

1. **Confinement.** `filename(name)` is the root or a path strictly below it,
   whatever `..` segments `name` holds. Climbing `..` segments are dropped,
   not rejected.
2. **Block chunking.** The block list has the exact ceiling count. Offsets are
   contiguous and increasing, sizes are bounded and sum to the file size, and
   each reference is `filename-offset`.
3. **Reference decoding.** `Get` serves exactly one block, with zero padding
   past the end of the file. Its error mapping is stated case by case.
   Together with chunking, this gives a round trip for dash-free file names.
4. **The Access walk.** For a directory that parses, `canList` equals an
   independent "nearest Access file decides" specification. That
   specification fixes the exact sequence of storage lookups the server's
   tests expect. For a directory that does not parse, its own Access file
   alone decides when present, and otherwise the answer is no.
5. **Request screening.** `Lookup` and `Glob` check the user and map names to
   host paths. These are stated with every error branch.

Behaviour a reader may not expect, as the code has it:

- **Entry names.** An entry's name is the owner concatenated with the
  reported filename, with no `/` inserted (packing/plain.go:42-43). The `/`
  comes from `Stat`'s trimmed filename.
- **Dashes in references.** References are decoded by splitting on every `-`
  and rejoining with `""` (store/store.go:55-63), not by a single split at the
  last `-`. This is a finding below.
- **Offsets.** The offset is the text after the last `-`, so it never holds
  a `-` and never parses to a negative number (store/store.go:55-57).
  Store.OffsetNeverNegative states this.
- **Buffer length.** `Get` always returns a `BlockSize` buffer, zero-padded
  past the end of the file (store/store.go:69-79). It is not shortened to the
  bytes read.
- **Access lookups.** `Storage.Access` in this revision never reports absence
  (local/storage.go:57-59). `canList` is modelled over any storage lookup, and
  DirServer.WalkOverGrantingStorage states what the stub implies.
- **The reported directory.** `dir(name)` is the parent of `filename(name)`.
  For a name that cleans to the root itself, that parent lies outside the
  root: `.` for root `test_data`, as local/storage_test.go:126-138 expects.
  A record of `List("/")` therefore has a `Path()` that is the bare child,
  relative to the working directory, not the child's file under the root
  (LocalStorage.ListOfRootPath).

## Model

| member | source | states |
|---|---|---|
| Text.Split | store/store.go:55 | Splitting on `-` always gives at least one piece, and no piece contains the separator. |
| Text.JoinSplit | store/store.go:55 | Joining the pieces of a split with the separator gives back the original text. |
| Text.SplitJoin | store/store.go:55 | Splitting the join of separator-free pieces gives back the pieces. |
| Text.ConcatSplit | store/store.go:62-63 | Joining the split pieces with `""` gives the text with every separator removed. |
| Text.SplitLast | store/store.go:57 | The last piece of a split is the text after the last separator, or the whole text when there is none. The earlier pieces are the split of the text before that separator. |
| Text.TrimPrefix | local/storage.go:49-50 | When `prefix` is a prefix, `prefix + result` is the input. Otherwise the input comes back unchanged. |
| Text.TrimSuffix | dir/dir.go:90 | When `suffix` is a suffix, `result + suffix` is the input. Otherwise the input comes back unchanged. |
| Text.ParseInt64 | store/store.go:57 | A parsed value lies in the int64 range. It is non-negative when the text has no `-`. A success needs a non-empty text starting with a digit or a sign. |
| Text.DecimalValue | packing/plain.go:64 | Reading the `%d` digits of `n` back as a decimal gives `n`. |
| Text.ParseDecimal | store/store.go:57 | `ParseInt` in base 10 of the `%d` text of any int64-sized natural gives that natural back. |
| FilePaths.Resolve | local/storage.go:83 | Folding pieces onto a clean stack keeps it clean: only proper elements, plus a leading run of `..` in a relative path. |
| FilePaths.ResolveAppend | local/storage.go:83 | Resolving a concatenation of pieces is resolving the first part, then the second. |
| FilePaths.ResolveStack | local/storage.go:83 | Resolving the proper elements of a stack onto its prefix gives back the stack. |
| FilePaths.ResolveClimb | local/storage.go:83 | In a rooted path, at least as many `..` as there are elements empties the stack instead of failing. |
| FilePaths.ResolveWithoutClimb | local/storage.go:83 | Pieces with no `..` never touch the elements below them. They resolve on top as they would from the root. |
| FilePaths.RenderSplit | local/storage.go:83 | A rendered clean path is non-empty and keeps its rootedness. Splitting and resolving it gives back its stack. |
| FilePaths.CleanRender | local/storage.go:83 | Cleaning a rendered clean path changes nothing. |
| FilePaths.CleanIdempotent | local/storage.go:83 | `Clean(Clean(p)) == Clean(p)`, and cleaning preserves rootedness. |
| FilePaths.CleanIsRender | local/storage.go:83 | A clean path is the rendering of its own rootedness and element stack. |
| FilePaths.JoinPathResolve | local/storage.go:83 | `Join(base, x)` is the rendering of `x`'s pieces resolved onto `base`'s stack, with `base`'s rootedness. |
| FilePaths.JoinRooted | local/storage.go:83 | Joining a rooted clean path onto a base appends its elements to the base's stack. |
| FilePaths.JoinRelative | local/storage.go:71 | Joining `/`-joined proper elements onto a base appends them to the base's stack. |
| FilePaths.CleanTrailingSlash | dir/dir.go:91 | A trailing slash on a clean path is removed by cleaning. |
| FilePaths.DirOfRender | local/storage.go:87 | `Dir` of a clean path renders its stack without the last element. |
| FilePaths.DirOfEmpty | local/storage.go:87 | `Dir` of `/` is `/`, and `Dir` of `.` is `.`. |
| UpspinPath.UserPart | dir/dir.go:56 | The user part of a name has no slash and is a prefix of the name. |
| UpspinPath.FilePart | dir/dir.go:61 | The name is its user part followed by its file part. The file part is empty or starts with `/`. |
| UpspinPath.ElemsBelow | dir/access.go:32 | The elements below a user's root are proper elements. |
| UpspinPath.Parse | dir/dir.go:52-55 | A name parses exactly when its user part is a valid user name. A parsed name is well formed and carries that user and the cleaned elements. A failure names the user. |
| UpspinPath.DropOne | dir/access.go:40 | `Drop(1)` keeps the user and removes the last element. |
| UpspinPath.ParsePathOf | dir/access.go:40 | Parsing the printed form of a well-formed parsed path gives it back. |
| UpspinPath.DropOneWellFormed | dir/access.go:40 | Dropping an element of a well-formed non-root path keeps it well formed. |
| UpspinPath.AccessPathOfParsed | dir/access.go:17 | `Clean(dir + "/Access")` is the user, a slash, and the directory's elements followed by `Access`. |
| UpspinPath.CleanChild | dir/access.go:17 | `Clean(dir + "/" + f)` for a proper element `f` is the user, a slash, and the directory's elements followed by `f`. |
| UpspinPath.AccessPathOfCanonical | dir/access.go:17 | The Access path of a printed parsed path is its user, a slash, and its elements followed by `Access`. |
| LocalStorage.Below | local/storage.go:83 | The elements kept by `Clean("/" + name)` are all proper: no `..` survives. |
| LocalStorage.CleanRooted | local/storage.go:83 | `Clean("/" + name)` is the rooted rendering of those elements. |
| LocalStorage.Filename | local/storage.go:82-84 | `filename(name)` renders the root's own stack followed by the name's surviving elements, with the root's rootedness. |
| LocalStorage.DirOf | local/storage.go:86-88 | `dir(name)` is the same stack without the name's last element. When the name cleans to the root itself, it is the root's parent. |
| LocalStorage.FilenameUnderRoot | local/storage.go:82-84 | For a clean root other than `.` and `/`, `filename(name)` is the root exactly when no element survives. Otherwise it is `root + "/"` followed by proper elements only. |
| LocalStorage.CleanNameSameFile | local/storage.go:83 | A name and `Clean("/" + name)` keep the same elements and name the same file. |
| LocalStorage.BelowPieces | local/storage.go:83 | The surviving elements of a `/`-joined name are its pieces resolved from the root. |
| LocalStorage.FilenameExampleToto | local/storage_test.go:182 | With root `a`, `toto` names `a/toto` in directory `a`. |
| LocalStorage.FilenameExampleRepeat | local/storage_test.go:183 | With root `a`, `a/toto` names `a/a/toto` in directory `a/a`. |
| LocalStorage.FilenameExampleClimbOnce | local/storage_test.go:184 | With root `a`, `../b/toto` names `a/b/toto` in directory `a/b`. |
| LocalStorage.FilenameExampleClimbFar | local/storage_test.go:185 | With root `a`, `../b/../../../../toto` names `a/toto` in directory `a`: the climb is dropped. |
| LocalStorage.ClimbFarBelow | local/storage_test.go:185 | `../b/../../../../toto` keeps the single element `toto`. |
| LocalStorage.Stat | local/storage.go:38-55 | An unopenable file gives an open error. A failing stat gives a stat error. An openable file whose stat succeeds gives a record. On success the kind, size and time come from the stat. The names are `filename` and `dir` with the root prefix trimmed. |
| LocalStorage.ReportedName | local/storage.go:49 | No contract of its own. LocalStorage.ReportedNameBelow states that under a proper root it is "" for the root and otherwise `/` plus the surviving elements. LocalStorage.StatDotRootWitness states that under the root `.` two names collide. |
| LocalStorage.ReportedNameBelow | local/storage.go:49 | For a clean root other than `.` and `/`, the reported name is empty for the root itself. Otherwise it is `/` followed by the surviving elements. |
| LocalStorage.ReportedDirBelow | local/storage.go:50 | For a clean root other than `.` and `/`, the reported directory is empty for a top-level name. Otherwise it is the rooted parent of the name. |
| LocalStorage.DirOfTop | local/storage.go:86-88 | For a clean root other than `.` and `/`, `dir` of a top-level name is the root. |
| LocalStorage.DirOfNested | local/storage.go:86-88 | For a clean root other than `.` and `/`, `dir` of a deeper name is the root, a slash, and the name's elements without the last. |
| LocalStorage.StatNames | local/storage.go:48-50 | For a clean root other than `.` and `/`, a reported name below the root is `Clean("/" + name)` and starts with `/`. The reported directory is `""` at top level and the rooted parent otherwise. |
| LocalStorage.StatTwoDeep | local/storage.go:48-50 | A two-element name `d/f` reports `/d/f` in directory `/d`. |
| LocalStorage.StatTopLevel | local/storage.go:48-50 | A one-element name `f` reports `/f` in directory `""`. |
| LocalStorage.StatExampleNested | local/storage_test.go:81-86 | With root `test_data`, `subdir/toto` reports `/subdir/toto` in `/subdir`. |
| LocalStorage.StatExampleClimb | local/storage_test.go:91 | With root `test_data`, `unknown_dir/../../../test_1.txt` reports `/test_1.txt` in `""`. |
| LocalStorage.Access | local/storage.go:57-59 | `Access` reports the fixed grant text, as found, for every name. |
| LocalStorage.Records | local/storage.go:67-77 | One record per listed child, in listing order. Each record is named `Join(pattern, child)`, shares the given directory, and copies the child's kind, size and time. |
| LocalStorage.Path | local/storage.go:25-27 | No contract of its own. LocalStorage.ListedPath states that, for a one-element pattern, a listed record's `Path()` is the host path of `pattern/child`. LocalStorage.ListOfRootPath states that for the pattern `/` it is the bare child. |
| LocalStorage.List | local/storage.go:61-80 | `List` fails exactly when reading `filename(pattern)` fails, and then it returns only the error. Otherwise it returns the records of that listing with directory `dir(pattern)`. |
| Os.ReadDir | local/storage.go:62 | Reading a directory succeeds exactly when the path exists and holds a listing, and then returns that listing in its order. A missing path or one that is not a readable directory gives an error. |
| LocalStorage.DirOfElem | local/storage.go:72 | For a one-element pattern, the shared directory is the root's own clean form. |
| LocalStorage.JoinedUnderRoot | local/storage.go:25-27 | For a one-element pattern and child, joining the record's directory and name gives the `filename` of `pattern/child`. |
| LocalStorage.ListedPath | local/storage.go:25-27 | For a one-element pattern, a listed record's `Path()` is the host path of `pattern + "/" + child`. |
| LocalStorage.JoinOntoSlash | local/storage.go:71 | Joining a proper element onto the pattern `/` gives `/` followed by the element. |
| LocalStorage.ListOfRoot | local/storage.go:61-80 | Under a one-element relative root, every record of `List("/")` has directory `.`, the parent of the root, and the name `/` followed by the child. |
| LocalStorage.ListOfRootPath | local/storage.go:25-27 | For `List("/")` under a one-element relative root, a record's `Path()` is the bare child. That differs from the child's file under the root. |
| LocalStorage.ListRootExample | local/storage_test.go:126-138 | With root `test_data`, the records of `List("/")` have directory `.` and names like `/subdir` and `/test_1.txt`. |
| LocalStorage.StatDotRootWitness | local/storage.go:49 | With root `.`, `.hidden` and `hidden` are different files that `Stat` reports under the same name `hidden`. Joining that name back onto the root misses `.hidden`. |
| LocalStorage.RootRelativeName | local/storage.go:49 | The corrected name is empty exactly for the root itself and otherwise starts with `/`. Joined back onto the root, it is `filename(name)`. |
| LocalStorage.RootRelativeMatchesProperRoots | local/storage.go:49 | For a clean root other than `.` and `/`, the corrected name equals the trimmed name. |
| LocalStorage.StatRooted | local/storage.go:38-55 | The corrected `Stat` fails exactly when `Stat` does, with the same error. Otherwise it differs only in the name, and that name joined onto the root is the file that was opened. |
| Packing.CeilBlocks | packing/plain.go:58-63 | The block count is 0 for a size of at most 0. Otherwise it is the unique `n` with `(n-1)*BlockSize < size <= n*BlockSize`. |
| Packing.BlockAt | packing/plain.go:59-73 | Block `i` starts at `i*BlockSize`, inside the file. It holds between 1 and `BlockSize` bytes, a full `BlockSize` unless it is the last, and is named `filename-offset` at the server's address. |
| Packing.BlockRef | packing/plain.go:64 | No contract of its own. Store.BlockReference states that a block's reference is `filename-offset` with an int64 offset and never the sentinel, and Store.DecodeDashFree that such a reference decodes back to the file name and offset when the name has no `-`. |
| Packing.Blocks | packing/plain.go:55-79 | There are exactly the ceiling number of blocks. The first block starts at 0, and each later one starts where the previous one ends, so the offsets strictly increase. Every size is between 1 and `BlockSize`, and all but the last are full. Each block is at `usl.gildas.ch` (Remote) under the reference `filename-offset`. |
| Packing.BlocksFromFileInfo | packing/plain.go:55-79 | The loop builds exactly that block list. |
| Packing.PrefixSum | packing/plain.go:63 | The first `k` blocks cover `min(k*BlockSize, size)` bytes. |
| Packing.BlocksSum | packing/plain.go:63 | The block sizes sum to the file size, or to 0 for a non-positive size. |
| Packing.DirEntryFromFileInfo | packing/plain.go:40-53 | The name is exactly the owner followed by the file name, so trimming the owner gives the file name back. The writer is the owner and the packing is plain. The signed name, link, time and packdata keep their zero values. A directory has the directory attribute and no blocks. A file has no attribute, the blocks of `Blocks`, and sizes summing to its size. |
| Packing.Zeros | packing/plain.go:28-29 | `make([]byte, n)` gives `n` zero bytes. |
| Packing.SignedFields | packing/plain.go:28-30 | The hash input copies the entry's signed name, link, attribute, packing and time. Its key and checksum are 32 zero bytes each. |
| Packing.PdMarshal | packing/plain.go:81-97 | Marshalling panics on a nil component of the first signature, or on a second signature with an `R` but no `S`. Otherwise it writes `R` and `S`, followed by the second signature, or `(0, 0)` when its `R` is nil. |
| Packing.PlainDirEntry | packing/plain.go:23-38 | The entry is built exactly when the signer succeeds with a complete signature. It is the synthesized entry with packdata `[R, S, 0, 0]`. A signer error becomes a panic carrying its message. |
| Store.DecodePieces | store/store.go:55-63 | The offset text is the text after the last `-`. The rebuilt path is the text before it with every `-` removed. |
| Store.DecodeRef | store/store.go:55-63 | Decoding succeeds exactly when the text after the last `-` parses as an int64. It gives that offset and the earlier text without its dashes. |
| Store.ReadBlock | store/store.go:69-70 | The buffer holds exactly `BlockSize` bytes. Byte `i` is `file[offset+i]` within the file and 0 past its end. |
| Store.OffsetNeverNegative | store/store.go:55-57 | The text after the last `-` never parses to a negative offset. |
| Store.Get | store/store.go:44-80 | The sentinel and an unparsable offset give NotExist. A file that cannot be opened gives NotExist. A failing read gives IO. An openable, readable file gives the block at the offset, with a receipt echoing the reference. Decoded offsets are never negative. |
| Store.Serve | store/store.go:64-79 | No contract of its own. Store.Get states its outcomes: NotExist when the file cannot be opened, IO when the read fails, and otherwise the block at the offset with a receipt echoing the reference. |
| Store.SentinelRefused | store/store.go:51-53 | The sentinel reference gives NotExist whatever the filesystem holds. |
| Store.GetContents | store/store.go:69-79 | A successful read has `BlockSize` bytes and a receipt echoing the reference. Its bytes are the file's from the offset, then zeros. An offset at or past the end gives all zeros. |
| Store.BogusRefNotExist | store/store.go:57-60 | `bogus-ref` gives NotExist. |
| Store.ReportScenario | store/store.go:69-73 | Reading the second block of a 1,500,000-byte file returns its last 451,424 bytes, then zeros. |
| Store.DecodeDashFree | store/store.go:62-63 | A dash-free file name and an int64 offset are decoded from their reference exactly. |
| Store.DashedNameMisread | store/store.go:62-63 | A file name containing `-` is always decoded to a different, dash-free name. |
| Store.DashDroppedWitness | store/store.go:62-63 | The reference of `/my-file` at offset 0 decodes to a name other than `/my-file`. |
| Store.DecodeBlockRef | store/store.go:62-63 | Decoding a block reference drops the name's dashes. The intended decoding gives the name back. |
| Store.DecodeRefIntended | packing/plain.go:64 | The intended decoding succeeds on the same references and gives the text before the last dash, unchanged. |
| Store.GetIntended | store/store.go:44-80 | Where the two decodings agree, the corrected `Get` answers as `Get` does. |
| Store.GetDashFree | store/store.go:44-80 | For a dash-free name whose file exists and reads, `Get` of its reference returns the block at the offset. |
| Store.BlockReference | packing/plain.go:64-72 | Every block carries the reference `filename-offset`, with an int64 offset. That reference is never the sentinel. |
| Store.BlockRoundTrip | store/store.go:62-70 | For a clean root other than `.` and `/`, `Get` of any block reference of a dash-free stated file returns that block's bytes. |
| Store.BlockRoundTripIntended | packing/plain.go:64 | With the corrected `Stat` and decoder, `Get` of any block reference returns that block's bytes, dashes or not. |
| Store.BlockOffsetInRange | packing/plain.go:72-75 | Block `i` starts at `i*BlockSize`, inside the file. |
| DirServer.FailingLoader | dir/access.go:24 | The loader handed to the evaluator fails on every name. |
| DirServer.Decide | dir/access.go:19-29 | A found Access file allows exactly when it parses and the evaluator returns true. A parse error or an evaluator error denies. |
| DirServer.CanList | dir/access.go:12-41 | An empty user name denies without consulting storage. Otherwise the first lookup is `Clean(dir + "/Access")`, and for a parsable directory there are at most one lookup per element plus one. When that Access file is found it alone decides, through `Decide`, after that one lookup, whether or not the directory parses. An unparsable directory without its own Access file is denied after that one lookup. |
| DirServer.FirstFound | dir/access.go:18 | The first position at which storage has a file: all earlier ones are missing. |
| DirServer.Locations | dir/access.go:17 | There is one candidate Access path per element plus one, for the user root. |
| DirServer.CanListStep | dir/access.go:32-40 | With no Access file here, the walk is that lookup followed by the walk of the parent. |
| DirServer.LocationsOfParent | dir/access.go:40 | The parent's candidates are the directory's candidates without the first. |
| DirServer.NearestStep | dir/access.go:40 | With the nearest candidate missing, the nearest-file walk continues on the parent. |
| DirServer.NearestHere | dir/access.go:18-29 | A present first candidate alone decides. |
| DirServer.NearestAtRoot | dir/access.go:37-39 | At the user root, with no Access file, the answer is a denial. |
| DirServer.FirstLocation | dir/access.go:17 | The first candidate is `Clean(dir + "/Access")`. |
| DirServer.WalkIsNearest | dir/access.go:12-41 | For a parsable directory, `canList` is the nearest-file walk. It consults the candidates from the directory up to the first one present, and that one decides for its own directory. When none is present, all candidates are consulted and the answer is a denial. |
| DirServer.NearestFoundAt | dir/access.go:18-30 | When the first present candidate is at position `j`, the walk consults exactly the first `j+1` candidates, and candidate `j` decides. |
| DirServer.NearestNoneFound | dir/access.go:37-39 | With no candidate present, all are consulted and the answer is a denial. |
| DirServer.LocationsLonger | dir/access.go:40 | Each later candidate is strictly shorter, so the walk climbs. |
| DirServer.WalkFourDeepFoundAtTop | dir/access_test.go:45-58 | Four levels deep, with only `user/a/Access` present, the walk consults four paths, from the deepest up to `user/a/Access`, and that file decides for `user/a`. |
| DirServer.WalkFourDeepNoneFound | dir/access_test.go:74-85 | Four levels deep, with no Access file, the walk consults all five paths down to `user/Access` and denies. |
| DirServer.WalkOverGrantingStorage | local/storage.go:57-59 | Over this revision's storage stub, which reports a grant everywhere, only the directory's own Access path is consulted. |
| DirServer.Lookup | dir/dir.go:47-79 | An unparsable name gives the parse error before any user check, and a foreign user is rejected as unknown. Otherwise the server opens the root joined with the file part. Open and stat failures name that file part. A signer panic surfaces, and otherwise the result is the plain entry. |
| DirServer.LookupPath | dir/dir.go:61 | No contract of its own. DirServer.LookupConfined states that it is the host path `filename(FilePath(p))`, which under a proper root is the root or below it. |
| DirServer.BelowFilePath | dir/dir.go:61 | A parsed path's file part keeps exactly its elements under local cleaning. |
| DirServer.LookupConfined | dir/dir.go:61 | The path `Lookup` opens is `filename` of the file part. For a clean root other than `.` and `/`, it is the root or strictly below it. |
| DirServer.GlobRest | dir/dir.go:89-90 | The remainder after the user prefix loses one trailing `*` at most. |
| DirServer.GlobDirectory | dir/dir.go:86-91 | A directory is chosen exactly when the pattern starts with the user name. |
| DirServer.FirstPanic | dir/dir.go:99-102 | The position of the first file whose packing panics: all earlier files pack. |
| DirServer.PackAll | dir/dir.go:97-102 | Packing succeeds exactly when no file panics. It then gives one entry per file, in order. Otherwise it gives the first panic. |
| DirServer.Pack | dir/dir.go:100 | No contract of its own. Packing.PlainDirEntry states the entry built from the converted record, or the signer's panic. |
| DirServer.Glob | dir/dir.go:81-109 | A pattern without the user prefix gives "path unknown" before any read. A read error on `Join(Root, rest)` gives an error and no entries. Otherwise the result is the packed listing. |
| DirServer.GlobEntries | dir/dir.go:97-108 | A successful `Glob` returns one entry per listed file, in listing order. |
| DirServer.GlobEscapes | dir/dir.go:91 | For a rooted root, `user/` followed by enough `..` and then `x/*` makes `Glob` read `/x` outside the root. The confined version reads `root/x`. |
| DirServer.ConfinedGlobDirectory | dir/dir.go:86-91 | The corrected directory is chosen on the same patterns. |
| DirServer.ConfinedGlob | dir/dir.go:81-109 | The corrected `Glob` screens as `Glob` does, but reads `filename(rest)` under the root. |
| DirServer.ConfinedGlobUnderRoot | dir/dir.go:91 | For a clean root other than `.` and `/`, the corrected directory is the root or strictly below it. |
| DirServer.ConfinedGlobAgrees | dir/dir.go:91 | For a non-empty root, on patterns whose remainder has no `..`, the corrected `Glob` and `Glob` coincide. |

## Left out

- main.go: flag parsing, the PORT variable, HTTP handlers and factotum loading. These are process wiring and network I/O.
- `Dial`, `Endpoint`, `Close`, `Storage.Open`, and every `Debug` or `fmt.Println` output. These are plumbing with no logic to state.
- Real filesystem calls (`os.Open`, `File.Stat`, `File.ReadAt`, `ioutil.ReadDir`). They become the abstract `Os.FileSystem` map, and a directory listing is taken as given, in its reported order. Open files are never closed in the source, and nothing is modelled about that.
- The factotum's `FileSign` and `DirEntryHash`. They are a function parameter of `Packing.Config` returning a signature or an error. The hash input is passed as a record of its arguments.
- The byte layout `pdMarshal` writes via `packutil.PutBytes` and `big.Int.Bytes`. Packdata is the sequence of integers written, in order.
- The Access-file grammar and evaluator (`access.Parse`, `acc.Can`). They are function parameters of `DirServer.AccessLib`.
- The user-name rules of upspin.io/user beyond "exactly one `@`". They are the `validUser` parameter.
- `Storage.Access` as `canList` calls it is the `storage` field of the `Dir` record. It is an arbitrary lookup, as in the tests, rather than the stub alone.
- Timestamps: `ModTime` is carried along and never inspected. `DirEntry.Time` and `SignedName` are left at their zero values, as `dirEntryFromFileInfo` leaves them.
- The conversion from `os.FileInfo` to the `local.FileInfo` that `PlainDirEntry` takes. In the shown dir.go it is a type mismatch, so it is the `toLocal` parameter of `Lookup` and `Glob`.
- The two revisions of `Dir`: the record carries both `Username`/`Root`/`Config` from dir.go and `Storage`/`userName` from access.go.
- Any confinement claim for store/store.go:64. That line joins a decoded reference onto the root without prefixing `/`, so a `..` in a reference can leave the root, and the source promises nothing there.
- The error-message text of dir/dir_test.go:236. It belongs to a newer `Glob` than the shown one. Errors are modelled as datatype constructors, not as their wrapped text.
- Integer widths: sizes and offsets are unbounded integers. Lemmas that decode references require offsets of at most `Int64Max`, where `fmt` and `strconv` agree.
- `upspin.BlockSize` is taken as 1 MiB and `upspin.HTTPBaseMetadata` as `metadata:HTTP-Base`. Both constants belong to upspin.io/upspin, which is not part of this model.
- packing/simulator.go is an interface declaration only.
- Text.ParseInt64: states range, sign and shape facts and the round trip with `%d` (Text.ParseDecimal), but not the full accepted language as one equivalence.
- DirServer.CanList: its own contract gives the answer when the directory's Access file is found, and for an unparsable directory without one. For a parsable directory without one, the answer is given by DirServer.WalkIsNearest.
- LocalStorage.ListedPath: covers one-element patterns only. For the pattern `/`, a record's `Path()` is the bare child, outside the root (LocalStorage.ListOfRootPath). Deeper patterns are not stated. `FileInfo.Path` has no caller in the modelled code.
- Store.GetIntended: its own contract only says it agrees with `Get` where the decoders agree. Its round trip is Store.BlockRoundTripIntended.

## Findings

| source | as written | input that shows it | evidently intended | confidence | as-written member | corrected member |
|---|---|---|---|---|---|---|
| store/store.go:62-63 | The pieces before the offset are rejoined with `""`, so every `-` in the file name is dropped. | The block reference `/my-file-0` written by packing/plain.go:64 is read from `/myfile`. | Rejoin with `-`, so that `Get` reads back the file whose block reference it was given. | not executed | Store.DashDroppedWitness | Store.BlockRoundTripIntended |
| local/storage.go:49 | `Filename` is trimmed by the raw root text. For root `.`, the host name `.hidden` loses its dot. For root `/`, the leading slash is lost. | Root `.` (main.go's default), names `.hidden` and `hidden`: both are reported as `hidden`. | Report the name relative to the root, starting with `/`, so that joining it to the root gives the opened file. | not executed | LocalStorage.StatDotRootWitness | LocalStorage.RootRelativeMatchesProperRoots |
| dir/dir.go:91 | The pattern remainder is joined onto the root without the rooted cleaning that local/storage.go:83 applies, so `..` climbs out of the root. | Root `/srv`, pattern `user/../../etc/*`: the server reads `/etc`. | Confine the directory read to the root as `filename` does. | not executed | DirServer.GlobEscapes | DirServer.ConfinedGlobUnderRoot |
