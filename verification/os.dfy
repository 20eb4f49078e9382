/**
 * The host filesystem as the server sees it through `os.Open`, `File.Stat`,
 * `File.ReadAt` and `ioutil.ReadDir`: a map from the path text handed to `os`
 * to what is found there. A path absent from the map cannot be opened.
 */
module Os {
  import opened Results

  newtype byte = x: int | 0 <= x < 256

  /** time.Time, carried along but never inspected. */
  datatype ModTime = ModTime(unixNanos: int)

  /** os.FileInfo: what a stat or a directory read reports about one entry
      (`name` is the base name). */
  datatype OsInfo = OsInfo(name: string, isDir: bool, size: int, modTime: ModTime)

  /** What an openable path holds: the outcome of `Stat` on the open file (None
      when it fails), the entries `ioutil.ReadDir` reports when the path is a
      readable directory (None otherwise), the file's bytes, and whether
      `ReadAt` fails with an error other than end-of-file. */
  datatype Inode = Inode(stat: Option<OsInfo>, listing: Option<seq<OsInfo>>, data: seq<byte>, readFails: bool)

  type FileSystem = map<string, Inode>

  datatype OsError = CannotOpen(path: string) | NotADirectory(path: string)

  /** ioutil.ReadDir(path): the directory's entries in the order the listing
      holds them, or an error when the path cannot be opened or is not a
      readable directory. */
  function ReadDir(fs: FileSystem, path: string): (r: Result<seq<OsInfo>, OsError>)
    ensures r.Ok? <==> path in fs && fs[path].listing.Some?
    ensures r.Ok? ==> r.value == fs[path].listing.value
  {
    if path !in fs then Err(CannotOpen(path))
    else if fs[path].listing.None? then Err(NotADirectory(path))
    else Ok(fs[path].listing.value)
  }
}
