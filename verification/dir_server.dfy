/**
 * dir/access.go and dir/dir.go: the directory server. `CanList` searches
 * upwards from a directory for the nearest Access file and lets that file alone
 * decide; `Lookup` and `Glob` screen a request by its user and turn the files
 * they find under the root into plain-packed entries.
 *
 * The Access-file grammar and evaluator (upspin.io/access) are not part of
 * this model: they are the parameters of `AccessLib`.
 */
module DirServer {
  import opened Results
  import opened Text
  import opened FilePaths
  import opened Os
  import opened Upspin
  import opened UpspinPath
  import LocalStorage
  import Packing

  /** The Dir server. `storage` is the Access method of its storage (None for
      "not found"); `userName` is the user the server was dialled as. */
  datatype Dir = Dir(
    username: string,
    root: string,
    config: Packing.Config,
    storage: string -> Option<seq<byte>>,
    userName: string)

  /** A file loader handed to the evaluator for files an Access file refers to. */
  type Loader = string -> Result<seq<byte>, string>

  /** upspin.io/access, reduced to what canList uses: the user-name check of
      path.Parse, access.Parse(name, data), and acc.Can(user, access.List, dir,
      loader). */
  datatype AccessLib<!A> = AccessLib(
    validUser: string -> bool,
    parse: (string, seq<byte>) -> Result<A, string>,
    can: (A, string, string, Loader) -> Result<bool, string>)

  /** The loader canList passes: every load fails. */
  function FailingLoader(name: string): (r: Result<seq<byte>, string>)
    ensures r.Err?
  {
    Err("")
  }

  // ---------------------------------------------------------------------------
  // The Access-file walk
  // ---------------------------------------------------------------------------

  /** The outcome of canList together with the names it asked the storage for,
      in order. */
  datatype Walk = Walk(allowed: bool, consulted: seq<string>)

  /** The verdict of the Access file found at `accessPath` for `dir`: a parse
      error or an evaluation error denies. */
  function Decide<A>(d: Dir, lib: AccessLib<A>, accessPath: string, data: seq<byte>, dir: string): (b: bool)
    ensures b <==> (lib.parse(accessPath, data).Ok?
      && lib.can(lib.parse(accessPath, data).value, d.userName, dir, FailingLoader) == Ok(true))
  {
    match lib.parse(accessPath, data)
    case Err(_) => false
    case Ok(acc) =>
      match lib.can(acc, d.userName, dir, FailingLoader)
      case Err(_) => false
      case Ok(can) => can
  }

  /** How many more levels the walk can climb from `dir`. */
  function Depth(validUser: string -> bool, dir: string): nat
  {
    match Parse(validUser, dir)
    case Err(_) => 0
    case Ok(p) => |p.elems| + 1
  }

  /** canList: without a user name, deny at once; otherwise look for the Access
      file of `dir`, let it decide when it is found, and else retry on the
      parent until the user's root has been tried. The directory's own Access
      file is looked up before the directory is parsed, so it decides even for
      a directory that does not parse; an unparsable directory with no Access
      file of its own is denied. */
  function CanList<A>(d: Dir, lib: AccessLib<A>, dir: string): (w: Walk)
    ensures d.userName == "" ==> w == Walk(false, [])
    ensures d.userName != "" ==> |w.consulted| >= 1 && w.consulted[0] == AccessPath(dir)
    ensures d.userName != "" && Parse(lib.validUser, dir).Ok? ==>
      |w.consulted| <= |Parse(lib.validUser, dir).value.elems| + 1
    ensures d.userName != "" && d.storage(AccessPath(dir)).Some? ==>
      w == Walk(Decide(d, lib, AccessPath(dir), d.storage(AccessPath(dir)).value, dir), [AccessPath(dir)])
    ensures d.userName != "" && d.storage(AccessPath(dir)).None? && Parse(lib.validUser, dir).Err? ==>
      w == Walk(false, [AccessPath(dir)])
    decreases Depth(lib.validUser, dir)
  {
    if d.userName == "" then Walk(false, [])
    else
      var accessPath := AccessPath(dir);
      match d.storage(accessPath)
      case Some(data) => Walk(Decide(d, lib, accessPath, data, dir), [accessPath])
      case None =>
        match Parse(lib.validUser, dir)
        case Err(_) => Walk(false, [accessPath])
        case Ok(p) =>
          if IsRoot(p) then Walk(false, [accessPath])
          else
            DropOneWellFormed(lib.validUser, p);
            ParsePathOf(lib.validUser, DropOne(p));
            var w := CanList(d, lib, PathOf(DropOne(p)));
            Walk(w.allowed, [accessPath] + w.consulted)
  }

  /** The Access files that can govern the parsed directory `p`, nearest first:
      the one in `p` itself, then one per ancestor up to the user's root. */
  function Locations(p: Parsed): (locs: seq<string>)
    ensures |locs| == |p.elems| + 1
  {
    seq(|p.elems| + 1, i requires 0 <= i <= |p.elems| =>
      p.user + "/" + Join(p.elems[..|p.elems| - i] + ["Access"], "/"))
  }

  /** The directory whose Access file is Locations(p)[k]: `dir` as given for
      k = 0, the printed ancestor otherwise. */
  function LevelDir(dir: string, p: Parsed, k: nat): string
    requires k <= |p.elems|
  {
    if k == 0 then dir else PathOf(Prefix(p, |p.elems| - k))
  }

  /** The position of the first name the storage finds (|locs| when none). */
  function FirstFound(storage: string -> Option<seq<byte>>, locs: seq<string>): (k: nat)
    ensures k <= |locs|
    ensures forall i :: 0 <= i < k ==> storage(locs[i]).None?
    ensures k < |locs| ==> storage(locs[k]).Some?
    decreases |locs|
  {
    if |locs| == 0 then 0
    else if storage(locs[0]).Some? then 0
    else 1 + FirstFound(storage, locs[1..])
  }

  /** One step of the walk: with no Access file in `dir`, the walk of `dir` is
      the lookup of that file followed by the walk of the parent. */
  lemma CanListStep<A>(d: Dir, lib: AccessLib<A>, dir: string)
    requires d.userName != "" && d.storage(AccessPath(dir)).None?
    requires Parse(lib.validUser, dir).Ok? && !IsRoot(Parse(lib.validUser, dir).value)
    ensures var q := DropOne(Parse(lib.validUser, dir).value);
      Parse(lib.validUser, PathOf(q)) == Ok(q)
      && CanList(d, lib, dir) == Walk(CanList(d, lib, PathOf(q)).allowed, [AccessPath(dir)] + CanList(d, lib, PathOf(q)).consulted)
  {
    var p := Parse(lib.validUser, dir).value;
    DropOneWellFormed(lib.validUser, p);
    ParsePathOf(lib.validUser, DropOne(p));
  }

  /** The Access files above a directory are those of its parent. */
  lemma LocationsOfParent(p: Parsed)
    requires !IsRoot(p)
    ensures Locations(p)[1..] == Locations(DropOne(p))
  {
    var q := DropOne(p);
    var n := |p.elems|;
    var above := Locations(q);
    forall i | 0 <= i < |above| ensures Locations(p)[1..][i] == above[i] {
      assert q.elems[..|q.elems| - i] == p.elems[..n - (i + 1)];
    }
  }

  lemma LevelDirOfParent(dir: string, p: Parsed, k: nat)
    requires !IsRoot(p) && k < |p.elems|
    ensures LevelDir(PathOf(DropOne(p)), DropOne(p), k) == LevelDir(dir, p, k + 1)
  {
    var q := DropOne(p);
    if k > 0 {
      assert Prefix(q, |q.elems| - k) == Prefix(p, |p.elems| - (k + 1));
    }
  }

  /** The walk the nearest-file rule prescribes for `dir`, parsed as `p`: the
      Access files from `dir` up to the first one the storage has, decided by
      that one for its own directory; all of them, and a denial, when none
      exists. */
  function Nearest<A>(d: Dir, lib: AccessLib<A>, dir: string, p: Parsed): Walk
  {
    var locs := Locations(p);
    var k := FirstFound(d.storage, locs);
    if k == |locs| then Walk(false, locs)
    else Walk(Decide(d, lib, locs[k], d.storage(locs[k]).value, LevelDir(dir, p, k)), locs[..k + 1])
  }

  /** When the directory's own Access file is missing, the nearest-file walk is
      that lookup followed by the parent's nearest-file walk. */
  lemma NearestStep<A>(d: Dir, lib: AccessLib<A>, dir: string, p: Parsed)
    requires !IsRoot(p) && d.storage(Locations(p)[0]).None?
    ensures var up := Nearest(d, lib, PathOf(DropOne(p)), DropOne(p));
      Nearest(d, lib, dir, p) == Walk(up.allowed, [Locations(p)[0]] + up.consulted)
  {
    var q := DropOne(p);
    var locs := Locations(p);
    LocationsOfParent(p);
    var above := Locations(q);
    var k := FirstFound(d.storage, above);
    assert FirstFound(d.storage, locs) == k + 1;
    if k < |above| {
      LevelDirOfParent(dir, p, k);
      assert locs[..k + 2] == [locs[0]] + above[..k + 1];
    } else {
      assert locs == [locs[0]] + above;
    }
  }

  /** When the directory's own Access file exists, it alone is asked for and
      decides. */
  lemma NearestHere<A>(d: Dir, lib: AccessLib<A>, dir: string, p: Parsed)
    requires d.storage(Locations(p)[0]).Some?
    ensures Nearest(d, lib, dir, p)
      == Walk(Decide(d, lib, Locations(p)[0], d.storage(Locations(p)[0]).value, dir), [Locations(p)[0]])
  {
    assert FirstFound(d.storage, Locations(p)) == 0;
  }

  /** At the user's root with no Access file, the one lookup is all and the
      answer is no. */
  lemma NearestAtRoot<A>(d: Dir, lib: AccessLib<A>, dir: string, p: Parsed)
    requires IsRoot(p) && d.storage(Locations(p)[0]).None?
    ensures Nearest(d, lib, dir, p) == Walk(false, [Locations(p)[0]])
  {
    var locs := Locations(p);
    assert FirstFound(d.storage, locs[1..]) == 0;
    assert locs == [locs[0]];
  }

  /** The first Access file the walk asks for is the directory's own. */
  lemma FirstLocation(validUser: string -> bool, dir: string)
    requires Parse(validUser, dir).Ok?
    ensures Locations(Parse(validUser, dir).value)[0] == AccessPath(dir)
  {
    var p := Parse(validUser, dir).value;
    AccessPathOfParsed(validUser, dir);
    assert p.elems[..|p.elems|] == p.elems;
  }

  /** The walk of a directory that parses asks for exactly the Access files from
      the directory up to the nearest one that exists, and that file alone
      decides; when none exists up to the user's root, every level was asked and
      the answer is no. */
  lemma {:induction false} WalkIsNearest<A>(d: Dir, lib: AccessLib<A>, dir: string)
    requires d.userName != "" && Parse(lib.validUser, dir).Ok?
    ensures CanList(d, lib, dir) == Nearest(d, lib, dir, Parse(lib.validUser, dir).value)
    decreases Depth(lib.validUser, dir)
  {
    var p := Parse(lib.validUser, dir).value;
    FirstLocation(lib.validUser, dir);
    if d.storage(AccessPath(dir)).Some? {
      NearestHere(d, lib, dir, p);
    } else if IsRoot(p) {
      NearestAtRoot(d, lib, dir, p);
    } else {
      CanListStep(d, lib, dir);
      WalkIsNearest(d, lib, PathOf(DropOne(p)));
      NearestStep(d, lib, dir, p);
    }
  }

  // ---------------------------------------------------------------------------
  // The walks of dir/access_test.go
  // ---------------------------------------------------------------------------

  /** The Access file of a directory below the user's root is its elements
      joined with '/', then "/Access". */
  lemma LocationBelowRoot(p: Parsed, i: nat)
    requires i < |p.elems|
    ensures Locations(p)[i] == p.user + "/" + Join(p.elems[..|p.elems| - i], "/") + "/Access"
  {
    JoinAppend(p.elems[..|p.elems| - i], ["Access"], "/");
  }

  lemma JoinFour(e: seq<string>)
    requires |e| == 4
    ensures Join(e[..1], "/") == e[0]
    ensures Join(e[..2], "/") == e[0] + "/" + e[1]
    ensures Join(e[..3], "/") == e[0] + "/" + e[1] + "/" + e[2]
    ensures Join(e[..4], "/") == e[0] + "/" + e[1] + "/" + e[2] + "/" + e[3]
  {
    assert e[..2] == e[..1] + [e[1]];
    assert e[..3] == e[..2] + [e[2]];
    assert e[..4] == e[..3] + [e[3]];
    JoinAppend(e[..1], [e[1]], "/");
    JoinAppend(e[..2], [e[2]], "/");
    JoinAppend(e[..3], [e[3]], "/");
  }

  /** The Access files of a directory four levels below the user's root. */
  lemma FourDeepLocations(p: Parsed)
    requires |p.elems| == 4
    ensures var u := p.user; var e := p.elems;
      Locations(p) == [
        u + "/" + e[0] + "/" + e[1] + "/" + e[2] + "/" + e[3] + "/Access",
        u + "/" + e[0] + "/" + e[1] + "/" + e[2] + "/Access",
        u + "/" + e[0] + "/" + e[1] + "/Access",
        u + "/" + e[0] + "/Access",
        u + "/Access"]
  {
    var locs := Locations(p);
    JoinFour(p.elems);
    LocationBelowRoot(p, 0);
    LocationBelowRoot(p, 1);
    LocationBelowRoot(p, 2);
    LocationBelowRoot(p, 3);
    assert p.elems[..0] + ["Access"] == ["Access"];
    assert Join(["Access"], "/") == "Access";
    assert p.user + "/" + "Access" == p.user + "/Access";
    var u := p.user;
    var e := p.elems;
    assert locs[0] == u + "/" + e[0] + "/" + e[1] + "/" + e[2] + "/" + e[3] + "/Access";
    assert locs[1] == u + "/" + e[0] + "/" + e[1] + "/" + e[2] + "/Access";
    assert locs[2] == u + "/" + e[0] + "/" + e[1] + "/Access";
    assert locs[3] == u + "/" + e[0] + "/Access";
  }

  /** The first found name is at `j` when it is found there and nowhere before. */
  lemma {:induction false} FirstFoundAt(storage: string -> Option<seq<byte>>, locs: seq<string>, j: nat)
    requires j < |locs| && storage(locs[j]).Some?
    requires forall i :: 0 <= i < j ==> storage(locs[i]).None?
    ensures FirstFound(storage, locs) == j
    decreases j
  {
    if j > 0 {
      FirstFoundAt(storage, locs[1..], j - 1);
    }
  }

  /** With only the Access file just below the user's root present, the walk of
      a directory four levels deep asks four times, nearest first, and the
      found file decides for its own directory. */
  lemma WalkFourDeepFoundAtTop<A>(d: Dir, lib: AccessLib<A>, p: Parsed, top: string, data: seq<byte>)
    requires d.userName != "" && WellFormed(lib.validUser, p) && |p.elems| == 4
    requires top == p.user + "/" + p.elems[0] + "/Access"
    requires d.storage(top) == Some(data) && forall n :: n != top ==> d.storage(n).None?
    ensures var u := p.user; var e := p.elems; var w := CanList(d, lib, PathOf(p));
      w.consulted == [
        u + "/" + e[0] + "/" + e[1] + "/" + e[2] + "/" + e[3] + "/Access",
        u + "/" + e[0] + "/" + e[1] + "/" + e[2] + "/Access",
        u + "/" + e[0] + "/" + e[1] + "/Access",
        top]
      && w.allowed == Decide(d, lib, top, data, u + "/" + e[0])
  {
    var locs := Locations(p);
    FourDeepTop(p);
    forall i | 0 <= i < 3
      ensures d.storage(locs[i]).None?
    {
      LocationsLonger(p, i, 3);
    }
    NearestFoundAt(d, lib, PathOf(p), p, 3);
    ParsePathOf(lib.validUser, p);
    WalkIsNearest(d, lib, PathOf(p));
    FourDeepLevel(p);
  }

  /** The nearest-file walk when the first file found is the j-th. */
  lemma NearestFoundAt<A>(d: Dir, lib: AccessLib<A>, dir: string, p: Parsed, j: nat)
    requires j < |Locations(p)| && d.storage(Locations(p)[j]).Some?
    requires forall i :: 0 <= i < j ==> d.storage(Locations(p)[i]).None?
    ensures Nearest(d, lib, dir, p) == Walk(
      Decide(d, lib, Locations(p)[j], d.storage(Locations(p)[j]).value, LevelDir(dir, p, j)),
      Locations(p)[..j + 1])
  {
    FirstFoundAt(d.storage, Locations(p), j);
  }

  /** The Access files of deeper levels have longer names, so they are
      different files. */
  lemma LocationsLonger(p: Parsed, i: nat, j: nat)
    requires i < j <= |p.elems| && forall k :: 0 <= k < |p.elems| ==> p.elems[k] != ""
    ensures |Locations(p)[i]| > |Locations(p)[j]|
    decreases j - i
  {
    var n := |p.elems|;
    if j == i + 1 {
      LocationBelowRoot(p, i);
      if j < n {
        LocationBelowRoot(p, j);
        assert p.elems[..n - i] == p.elems[..n - j] + [p.elems[n - j]];
        JoinAppend(p.elems[..n - j], [p.elems[n - j]], "/");
      } else {
        assert p.elems[..n - j] + ["Access"] == ["Access"];
        assert Join(["Access"], "/") == "Access";
        assert |Join(p.elems[..n - i], "/")| >= 1 by {
          JoinStartsWithFirst(p.elems[..n - i], "/");
        }
      }
    } else {
      LocationsLonger(p, i, i + 1);
      LocationsLonger(p, i + 1, j);
    }
  }

  lemma FourDeepTop(p: Parsed)
    requires |p.elems| == 4
    ensures var u := p.user; var e := p.elems;
      Locations(p)[3] == u + "/" + e[0] + "/Access"
      && Locations(p)[..4] == [
        u + "/" + e[0] + "/" + e[1] + "/" + e[2] + "/" + e[3] + "/Access",
        u + "/" + e[0] + "/" + e[1] + "/" + e[2] + "/Access",
        u + "/" + e[0] + "/" + e[1] + "/Access",
        u + "/" + e[0] + "/Access"]
  {
    FourDeepLocations(p);
  }

  lemma FourDeepLevel(p: Parsed)
    requires |p.elems| == 4
    ensures LevelDir(PathOf(p), p, 3) == p.user + "/" + p.elems[0]
  {
    assert Prefix(p, 1).elems == [p.elems[0]];
  }

  /** The nearest-file walk when no Access file exists: every level is asked. */
  lemma NearestNoneFound<A>(d: Dir, lib: AccessLib<A>, dir: string, p: Parsed)
    requires forall i :: 0 <= i < |Locations(p)| ==> d.storage(Locations(p)[i]).None?
    ensures Nearest(d, lib, dir, p) == Walk(false, Locations(p))
  {
    FirstFoundNone(d.storage, Locations(p));
  }

  lemma {:induction false} FirstFoundNone(storage: string -> Option<seq<byte>>, locs: seq<string>)
    requires forall i :: 0 <= i < |locs| ==> storage(locs[i]).None?
    ensures FirstFound(storage, locs) == |locs|
    decreases |locs|
  {
    if |locs| > 0 {
      FirstFoundNone(storage, locs[1..]);
    }
  }

  /** With no Access file at all, the walk of a directory four levels deep asks
      five times, up to and including the user's root, and denies. */
  lemma WalkFourDeepNoneFound<A>(d: Dir, lib: AccessLib<A>, p: Parsed)
    requires d.userName != "" && WellFormed(lib.validUser, p) && |p.elems| == 4
    requires forall n :: d.storage(n).None?
    ensures var u := p.user; var e := p.elems;
      CanList(d, lib, PathOf(p)) == Walk(false, [
        u + "/" + e[0] + "/" + e[1] + "/" + e[2] + "/" + e[3] + "/Access",
        u + "/" + e[0] + "/" + e[1] + "/" + e[2] + "/Access",
        u + "/" + e[0] + "/" + e[1] + "/Access",
        u + "/" + e[0] + "/Access",
        u + "/Access"])
  {
    NearestNoneFound(d, lib, PathOf(p), p);
    ParsePathOf(lib.validUser, p);
    WalkIsNearest(d, lib, PathOf(p));
    FourDeepLocations(p);
  }

  /** A storage whose Access always reports the same file, as the local
      storage does, is asked once: the directory's own Access file decides. */
  lemma WalkOverGrantingStorage<A>(d: Dir, lib: AccessLib<A>, dir: string, grant: seq<byte>)
    requires d.userName != "" && forall n :: d.storage(n) == Some(grant)
    ensures CanList(d, lib, dir) == Walk(Decide(d, lib, AccessPath(dir), grant, dir), [AccessPath(dir)])
  {
  }

  // ---------------------------------------------------------------------------
  // Lookup and Glob
  // ---------------------------------------------------------------------------

  /** The errors Lookup and Glob return; `PackPanic` is a panic inside
      PlainDirEntry. */
  datatype DirError =
    | BadPath(cause: PathError)
    | UnknownUser(user: string)
    | OpenFailed(filePath: string)
    | StatFailed(filePath: string)
    | PathUnknown
    | ReadDirFailed(localPath: string)
    | PackPanic(panic: Packing.PackError)

  /** How this revision turns the os.FileInfo it gets from `Stat` and `ReadDir`
      into the local.FileInfo PlainDirEntry takes. */
  type ToLocal = OsInfo -> LocalStorage.FileInfo

  /** The host path Lookup opens for a parsed name: the root joined with the
      name's file part. */
  function LookupPath(d: Dir, p: Parsed): string
  {
    JoinPath(d.root, FilePath(p))
  }

  /** Dir.Lookup: parse the name, accept only the server's own user, open and
      stat the file under the root and pack what the stat reports. */
  function Lookup(fs: FileSystem, d: Dir, validUser: string -> bool, toLocal: ToLocal, name: string): (r: Result<DirEntry, DirError>)
    ensures Parse(validUser, name).Err? ==> r == Err(BadPath(InvalidUser(UserPart(name))))
    ensures Parse(validUser, name).Ok? && UserPart(name) != d.username ==> r == Err(UnknownUser(UserPart(name)))
    ensures Parse(validUser, name).Ok? && UserPart(name) == d.username ==>
      var p := Parse(validUser, name).value; var path := LookupPath(d, p);
      (path !in fs ==> r == Err(OpenFailed(FilePath(p))))
      && (path in fs && fs[path].stat.None? ==> r == Err(StatFailed(FilePath(p))))
      && (path in fs && fs[path].stat.Some? ==>
            match Packing.PlainDirEntry(toLocal(fs[path].stat.value), d.config)
            case Ok(e) => r == Ok(e)
            case Err(panic) => r == Err(PackPanic(panic)))
  {
    match Parse(validUser, name)
    case Err(e) => Err(BadPath(e))
    case Ok(p) =>
      if p.user != d.username then Err(UnknownUser(p.user))
      else
        var path := LookupPath(d, p);
        if path !in fs then Err(OpenFailed(FilePath(p)))
        else match fs[path].stat
          case None => Err(StatFailed(FilePath(p)))
          case Some(info) =>
            match Packing.PlainDirEntry(toLocal(info), d.config)
            case Err(panic) => Err(PackPanic(panic))
            case Ok(e) => Ok(e)
  }

  /** The file part of a parsed name, cleaned as local storage cleans names,
      gives back the name's elements. */
  lemma BelowFilePath(p: Parsed)
    requires AllElems(p.elems)
    ensures LocalStorage.Below(FilePath(p)) == p.elems
  {
    if p.elems == [] {
      assert Split("", '/') == [""];
      assert Resolve(true, [], [""]) == Resolve(true, [], []);
    } else {
      SplitJoin(p.elems, '/');
      StackAppendElems(true, [], p.elems);
      assert [] + p.elems == p.elems;
      ResolveStack(true, [], p.elems);
    }
  }

  /** Lookup is confined: the host path it opens is the one local storage
      gives for the name's file part, so under a proper root it is the root or
      a path below it, whatever ".." the name contained. */
  lemma LookupConfined(d: Dir, validUser: string -> bool, name: string)
    requires d.root != "" && Parse(validUser, name).Ok?
    ensures var p := Parse(validUser, name).value;
      LookupPath(d, p) == LocalStorage.Filename(LocalStorage.Storage(d.root), FilePath(p))
    ensures var p := Parse(validUser, name).value; var path := LookupPath(d, p);
      LocalStorage.ProperRoot(d.root) ==>
        (path == d.root || (d.root + "/" <= path && AllElems(Split(path[|d.root| + 1..], '/'))))
  {
    var p := Parse(validUser, name).value;
    JoinRelative(d.root, p.elems);
    BelowFilePath(p);
    if LocalStorage.ProperRoot(d.root) {
      LocalStorage.FilenameUnderRoot(LocalStorage.Storage(d.root), FilePath(p));
    }
  }

  /** The pattern with the user name and at most one trailing '*' removed. */
  function GlobRest(d: Dir, pattern: string): (rest: string)
    requires d.username <= pattern
    ensures var s := pattern[|d.username|..];
      s == rest + "*" || (s == rest && !HasSuffix(s, "*"))
  {
    TrimSuffix(TrimPrefix(pattern, d.username), "*")
  }

  /** The host directory Glob reads: the rest of the pattern joined onto the
      root as it is; None when the pattern does not start with the user name. */
  function GlobDirectory(d: Dir, pattern: string): (path: Option<string>)
    ensures path.Some? <==> d.username <= pattern
  {
    if d.username <= pattern then Some(JoinPath(d.root, GlobRest(d, pattern))) else None
  }

  /** The entry PlainDirEntry makes for one listed file. */
  function Pack(cfg: Packing.Config, toLocal: ToLocal, fi: OsInfo): Result<DirEntry, Packing.PackError>
  {
    Packing.PlainDirEntry(toLocal(fi), cfg)
  }

  /** The position of the first file whose packing panics (|files| when none). */
  function FirstPanic(cfg: Packing.Config, toLocal: ToLocal, files: seq<OsInfo>): (k: nat)
    ensures k <= |files|
    ensures forall i :: 0 <= i < k ==> Pack(cfg, toLocal, files[i]).Ok?
    ensures k < |files| ==> Pack(cfg, toLocal, files[k]).Err?
    decreases |files|
  {
    if |files| == 0 then 0
    else if Pack(cfg, toLocal, files[0]).Err? then 0
    else 1 + FirstPanic(cfg, toLocal, files[1..])
  }

  /** The loop of Glob: one entry per listed file, in order; the first panic
      while packing a file ends the call. */
  function PackAll(cfg: Packing.Config, toLocal: ToLocal, files: seq<OsInfo>): (r: Result<seq<DirEntry>, DirError>)
    ensures r.Ok? <==> FirstPanic(cfg, toLocal, files) == |files|
    ensures r.Ok? ==> (|r.value| == |files|
      && forall i :: 0 <= i < |files| ==> Pack(cfg, toLocal, files[i]) == Ok(r.value[i]))
    ensures r.Err? ==> r == Err(PackPanic(Pack(cfg, toLocal, files[FirstPanic(cfg, toLocal, files)]).error))
    decreases |files|
  {
    if |files| == 0 then Ok([])
    else
      match Pack(cfg, toLocal, files[0])
      case Err(panic) => Err(PackPanic(panic))
      case Ok(e) =>
        match PackAll(cfg, toLocal, files[1..])
        case Err(x) => Err(x)
        case Ok(es) => Ok([e] + es)
  }

  /** Dir.Glob: refuse a pattern that does not start with the user name, read
      the directory the rest of the pattern names under the root and pack
      every file in it. */
  function Glob(fs: FileSystem, d: Dir, toLocal: ToLocal, pattern: string): (r: Result<seq<DirEntry>, DirError>)
    ensures !(d.username <= pattern) ==> r == Err(PathUnknown)
    ensures d.username <= pattern ==>
      var path := JoinPath(d.root, GlobRest(d, pattern));
      (ReadDir(fs, path).Err? ==> r == Err(ReadDirFailed(path)))
      && (ReadDir(fs, path).Ok? ==> r == PackAll(d.config, toLocal, ReadDir(fs, path).value))
  {
    match GlobDirectory(d, pattern)
    case None => Err(PathUnknown)
    case Some(path) =>
      match ReadDir(fs, path)
      case Err(_) => Err(ReadDirFailed(path))
      case Ok(files) => PackAll(d.config, toLocal, files)
  }

  /** A successful Glob lists the directory it read and returns exactly one
      entry per listed file, in listing order. */
  lemma GlobEntries(fs: FileSystem, d: Dir, toLocal: ToLocal, pattern: string)
    requires Glob(fs, d, toLocal, pattern).Ok?
    ensures d.username <= pattern
    ensures var path := JoinPath(d.root, GlobRest(d, pattern)); var es := Glob(fs, d, toLocal, pattern).value;
      path in fs && fs[path].listing.Some? && |es| == |fs[path].listing.value|
      && forall i :: 0 <= i < |es| ==>
        Pack(d.config, toLocal, fs[path].listing.value[i]) == Ok(es[i])
  {
  }

  // ---------------------------------------------------------------------------
  // Glob leaves the root; a confined Glob
  // ---------------------------------------------------------------------------

  /** The directory the confined Glob reads: the rest of the pattern resolved
      the way local storage resolves names, below the root. */
  function ConfinedGlobDirectory(d: Dir, pattern: string): (path: Option<string>)
    ensures path.Some? <==> d.username <= pattern
  {
    if d.username <= pattern
    then Some(LocalStorage.Filename(LocalStorage.Storage(d.root), GlobRest(d, pattern)))
    else None
  }

  /** Glob reading the confined directory. */
  function ConfinedGlob(fs: FileSystem, d: Dir, toLocal: ToLocal, pattern: string): (r: Result<seq<DirEntry>, DirError>)
    ensures !(d.username <= pattern) ==> r == Err(PathUnknown)
    ensures d.username <= pattern ==>
      var path := LocalStorage.Filename(LocalStorage.Storage(d.root), GlobRest(d, pattern));
      (ReadDir(fs, path).Err? ==> r == Err(ReadDirFailed(path)))
      && (ReadDir(fs, path).Ok? ==> r == PackAll(d.config, toLocal, ReadDir(fs, path).value))
  {
    match ConfinedGlobDirectory(d, pattern)
    case None => Err(PathUnknown)
    case Some(path) =>
      match ReadDir(fs, path)
      case Err(_) => Err(ReadDirFailed(path))
      case Ok(files) => PackAll(d.config, toLocal, files)
  }

  /** Under a proper root the confined Glob reads the root or a directory below
      it, whatever ".." the pattern holds. */
  lemma ConfinedGlobUnderRoot(d: Dir, pattern: string)
    requires LocalStorage.ProperRoot(d.root) && d.username <= pattern
    ensures var path := ConfinedGlobDirectory(d, pattern).value;
      path == d.root || (d.root + "/" <= path && AllElems(Split(path[|d.root| + 1..], '/')))
  {
    LocalStorage.FilenameUnderRoot(LocalStorage.Storage(d.root), GlobRest(d, pattern));
  }

  /** For a pattern without "..", the confined Glob is Glob: same directory,
      same answer on every filesystem. */
  lemma ConfinedGlobAgrees(fs: FileSystem, d: Dir, toLocal: ToLocal, pattern: string)
    requires d.root != "" && d.username <= pattern
    requires forall i :: 0 <= i < |Split(GlobRest(d, pattern), '/')| ==> Split(GlobRest(d, pattern), '/')[i] != ".."
    ensures ConfinedGlobDirectory(d, pattern) == GlobDirectory(d, pattern)
    ensures ConfinedGlob(fs, d, toLocal, pattern) == Glob(fs, d, toLocal, pattern)
  {
    var rest := GlobRest(d, pattern);
    var rb := RootedOf(d.root);
    var rs := ElemsOf(d.root);
    JoinPathResolve(d.root, rest);
    ResolveWithoutClimb(rb, rs, [], Split(rest, '/'));
    assert rs + [] == rs;
  }

  /** The pieces of "/" + Join(parts) + "/" are an empty piece, `parts` and
      another empty piece. */
  lemma SplitSlashed(parts: seq<string>)
    requires |parts| >= 1 && NoSlash(parts)
    ensures Split("/" + Join(parts, "/") + "/", '/') == [""] + parts + [""]
  {
    var j := Join(parts, "/");
    SlashedAssoc(j);
    SplitJoinTrailing(parts);
    SplitLeadingOf(j, parts);
  }

  lemma SlashedAssoc(j: string)
    ensures "/" + j + "/" == ['/'] + (j + "/")
  {
  }

  lemma SplitJoinTrailing(parts: seq<string>)
    requires |parts| >= 1 && NoSlash(parts)
    ensures Split(Join(parts, "/") + "/", '/') == parts + [""]
  {
    SplitTrailingSep(Join(parts, "/"), '/');
    SplitJoin(parts, '/');
  }

  lemma SplitLeadingOf(j: string, parts: seq<string>)
    requires Split(j + "/", '/') == parts + [""]
    ensures Split(['/'] + (j + "/"), '/') == [""] + parts + [""]
  {
    SplitLeadingSep(j + "/", '/');
    assert [""] + (parts + [""]) == [""] + parts + [""];
  }

  /** Folding "" + pieces + "" onto a rooted stack is folding the pieces. */
  lemma ResolvePadded(st: seq<string>, parts: seq<string>)
    requires IsStack(true, st) && NoSlash(parts)
    ensures NoSlash([""] + parts + [""])
    ensures Resolve(true, st, [""] + parts + [""]) == Resolve(true, st, parts)
  {
    var padded := [""] + parts + [""];
    assert NoSlash(padded) by {
      forall i | 0 <= i < |padded| ensures '/' !in padded[i] {
        if 0 < i < |padded| - 1 {
          assert padded[i] == parts[i - 1];
        }
      }
    }
    assert padded[0] == "" && padded[1..] == parts + [""];
    ResolveAppend(true, st, parts, [""]);
  }

  /** The rest of a Glob pattern that climbs `k` levels and then names `es`. */
  lemma ClimbingRest(d: Dir, pattern: string, k: nat, es: seq<string>)
    requires pattern == d.username + "/" + Join(Dots(k) + es, "/") + "/*"
    ensures d.username <= pattern
    ensures GlobRest(d, pattern) == "/" + Join(Dots(k) + es, "/") + "/"
  {
    var x := "/" + Join(Dots(k) + es, "/") + "/";
    assert pattern == d.username + (x + "*");
    assert pattern[|d.username|..] == x + "*";
    assert HasSuffix(x + "*", "*");
  }

  /** Climbing k >= |st| levels from a rooted stack and then naming `es`
      leaves exactly `es`, padding included. */
  lemma ClimbResolves(st: seq<string>, k: nat, es: seq<string>)
    requires IsStack(true, st) && k >= |st| && AllElems(es)
    ensures NoSlash(Dots(k) + es) && NoSlash([""] + (Dots(k) + es) + [""])
    ensures Resolve(true, st, [""] + (Dots(k) + es) + [""]) == es
  {
    var parts := Dots(k) + es;
    ResolveClimb(st, k);
    assert NoSlash(parts) by {
      forall i | 0 <= i < |parts| ensures '/' !in parts[i] {
        if i >= k {
          assert parts[i] == es[i - k];
        }
      }
    }
    ResolvePadded(st, parts);
    ResolveAppend(true, st, Dots(k), es);
    StackAppendElems(true, [], es);
    assert [] + es == es;
    ResolveStack(true, [], es);
  }

  /** Glob is not confined to the root: under a rooted root of m elements, a
      pattern whose rest climbs k >= m levels and then names the elements `es`
      makes Glob read "/es...", wherever that is; the confined Glob reads
      root/es... instead. For root "/srv/data" and user "u@x", the pattern
      "u@x/../../etc/" followed by '*' reads "/etc". */
  lemma GlobEscapes(d: Dir, pattern: string, k: nat, es: seq<string>)
    requires RootedOf(d.root) && k >= |ElemsOf(d.root)|
    requires |es| >= 1 && AllElems(es)
    requires pattern == d.username + "/" + Join(Dots(k) + es, "/") + "/*"
    ensures GlobDirectory(d, pattern) == Some("/" + Join(es, "/"))
    ensures ConfinedGlobDirectory(d, pattern) == Some(Render(true, ElemsOf(d.root) + es))
  {
    ClimbingRest(d, pattern, k, es);
    var rest := GlobRest(d, pattern);
    var parts := Dots(k) + es;
    ClimbResolves(ElemsOf(d.root), k, es);
    ClimbResolves([], k, es);
    SplitSlashed(parts);
    JoinPathResolve(d.root, rest);
    assert LocalStorage.Below(rest) == es;
  }
}
