/**
 * local/storage.go: a directory tree served under a root. Client names are
 * cleaned as rooted paths before they are joined onto the root, so that no run
 * of ".." can leave the root.
 */
module LocalStorage {
  import opened Results
  import opened Text
  import opened FilePaths
  import opened Os

  datatype Storage = Storage(root: string)

  /** local.FileInfo. */
  datatype FileInfo = FileInfo(filename: string, dir: string, isDir: bool, size: int, time: ModTime)

  /** The errors Stat and List wrap around the underlying os error. */
  datatype StorageError = CannotOpenFile(name: string) | CannotStatFile(name: string) | CannotReadDir(pattern: string)

  // ---------------------------------------------------------------------------
  // Naming: filename and dir
  // ---------------------------------------------------------------------------

  /** The proper elements `Clean("/" + name)` keeps: every ".." that would climb
      above "/" is dropped. */
  function Below(name: string): (es: seq<string>)
    ensures AllElems(es)
  {
    Resolve(true, [], Split(name, '/'))
  }

  lemma CleanRooted(name: string)
    ensures Clean("/" + name) == Render(true, Below(name))
  {
    var p := "/" + name;
    assert p == "" + ['/'] + name;
    SplitAround("", name, '/');
    assert Split(p, '/') == [""] + Split(name, '/');
    assert ([""] + Split(name, '/'))[1..] == Split(name, '/');
  }

  /** Storage.filename: `name` cleaned as a rooted path and joined onto the
      root. The result is the root's own clean elements followed by proper
      elements only, so it is the root or a path under it. */
  function Filename(s: Storage, name: string): (path: string)
    ensures s.root != "" ==> path == Render(RootedOf(s.root), ElemsOf(s.root) + Below(name))
    ensures s.root == "" ==> path == Render(true, Below(name))
  {
    CleanRooted(name);
    CleanRender(true, Below(name));
    if s.root != "" then JoinRooted(s.root, Below(name)); JoinPath(s.root, Clean("/" + name))
    else JoinPath(s.root, Clean("/" + name))
  }

  /** Storage.dir: filepath.Dir of the filename. For a name below the root this
      is the parent inside the root; for a name that cleans to the root itself
      it is the root's own parent. */
  function DirOf(s: Storage, name: string): (path: string)
    ensures s.root != "" && Below(name) != [] ==>
      path == Render(RootedOf(s.root), ElemsOf(s.root) + DropLast(Below(name)))
    ensures s.root != "" && Below(name) == [] ==>
      path == Render(RootedOf(s.root), DropLast(ElemsOf(s.root)))
    ensures s.root == "" ==> path == Render(true, DropLast(Below(name)))
  {
    DirOfFilename(s, name);
    Dir(Filename(s, name))
  }

  lemma DirOfFilename(s: Storage, name: string)
    ensures s.root != "" && Below(name) != [] ==>
      Dir(Filename(s, name)) == Render(RootedOf(s.root), ElemsOf(s.root) + DropLast(Below(name)))
    ensures s.root != "" && Below(name) == [] ==>
      Dir(Filename(s, name)) == Render(RootedOf(s.root), DropLast(ElemsOf(s.root)))
    ensures s.root == "" ==> Dir(Filename(s, name)) == Render(true, DropLast(Below(name)))
  {
    var es := Below(name);
    if s.root != "" {
      var rb := RootedOf(s.root);
      var rs := ElemsOf(s.root);
      StackAppendElems(rb, rs, es);
      DirOfRender(rb, rs + es);
      if es != [] {
        assert DropLast(rs + es) == rs + DropLast(es);
      } else {
        assert rs + es == rs;
      }
    } else {
      DirOfRender(true, es);
    }
  }

  /** A root whose clean form is itself and which is neither "." nor "/": the
      roots for which trimming the root text off a filename leaves a rooted name. */
  predicate ProperRoot(root: string)
  {
    root != "" && Clean(root) == root && root != "." && root != "/"
  }

  lemma ProperRootElems(root: string)
    requires ProperRoot(root)
    ensures root == Render(RootedOf(root), ElemsOf(root))
    ensures |ElemsOf(root)| >= 1
  {
    CleanIsRender(root);
  }

  /** Confinement as text: under a proper root the filename is the root itself or
      the root, a slash and a path whose every piece is a proper element (no "..",
      no "."), whatever ".." segments the name contained. */
  lemma FilenameUnderRoot(s: Storage, name: string)
    requires ProperRoot(s.root)
    ensures Filename(s, name) == s.root <==> Below(name) == []
    ensures Below(name) != [] ==> Filename(s, name) == s.root + "/" + Join(Below(name), "/")
    ensures Filename(s, name) == s.root ||
      (s.root + "/" <= Filename(s, name) && AllElems(Split(Filename(s, name)[|s.root| + 1..], '/')))
  {
    ProperRootElems(s.root);
    var rb := RootedOf(s.root);
    var rs := ElemsOf(s.root);
    var es := Below(name);
    var path := Filename(s, name);
    if es == [] {
      assert rs + es == rs;
      assert path == s.root;
    } else {
      RenderAppend(rb, rs, es);
      var rest := Join(es, "/");
      assert path == s.root + "/" + rest;
      assert path[|s.root| + 1..] == rest;
      SplitJoin(es, '/');
    }
  }

  /** Two names that clean to the same rooted path reach the same file; in
      particular cleaning a name first changes nothing. */
  lemma CleanNameSameFile(s: Storage, name: string)
    ensures Below(Clean("/" + name)) == Below(name)
    ensures Filename(s, Clean("/" + name)) == Filename(s, name)
  {
    CleanRooted(name);
    RenderSplit(true, Below(name));
  }

  lemma BelowElem(e: string)
    requires IsElem(e)
    ensures Below(e) == [e]
  {
    SplitNoSep(e, '/');
    assert Resolve(true, [], [e]) == Resolve(true, [e], []);
  }

  lemma BelowPieces(name: string, parts: seq<string>)
    requires |parts| >= 1 && NoSlash(parts) && name == Join(parts, "/")
    ensures Below(name) == Resolve(true, [], parts)
  {
    SplitJoin(parts, '/');
  }

  /** Under a relative one-element root, a name below it is the root element
      followed by the name's elements, and its dir drops the last of them. */
  lemma UnderRelativeRoot(s: Storage, name: string, r: string, es: seq<string>)
    requires s.root != "" && !RootedOf(s.root) && ElemsOf(s.root) == [r]
    requires Below(name) == es && es != []
    ensures Filename(s, name) == Join([r] + es, "/")
    ensures DirOf(s, name) == Join([r] + DropLast(es), "/")
  {
  }

  lemma RootAFacts(s: Storage)
    requires s.root == "a"
    ensures s.root != "" && !RootedOf(s.root) && ElemsOf(s.root) == ["a"]
  {
    ElemsOfElem("a");
  }

  /** local/storage_test.go's TestFilename and TestDir (root "a"): a plain name
      lands directly under the root. */
  lemma FilenameExampleToto(s: Storage, name: string)
    requires s.root == "a" && name == "toto"
    ensures Filename(s, name) == "a/toto" && DirOf(s, name) == "a"
  {
    RootAFacts(s);
    BelowElem(name);
    UnderRelativeRoot(s, name, "a", ["toto"]);
    TotoText();
  }

  /** The texts of the root "a" with "toto" below it. */
  lemma TotoText()
    ensures Join(["a"] + ["toto"], "/") == "a/toto"
    ensures Join(["a"] + DropLast(["toto"]), "/") == "a"
  {
    assert ["a"] + ["toto"] == ["a", "toto"];
    assert DropLast(["toto"]) == [];
    assert ["a"] + [] == ["a"];
  }

  /** A name that repeats the root's own element is a subdirectory of the root. */
  lemma FilenameExampleRepeat(s: Storage, name: string)
    requires s.root == "a" && name == "a/toto"
    ensures Filename(s, name) == "a/a/toto" && DirOf(s, name) == "a/a"
  {
    RootAFacts(s);
    TwoPieceBelow(name, "a", "toto");
    UnderRelativeRoot(s, name, "a", ["a", "toto"]);
    RepeatText();
  }

  lemma RepeatText()
    ensures Join(["a"] + ["a", "toto"], "/") == "a/a/toto"
    ensures Join(["a"] + DropLast(["a", "toto"]), "/") == "a/a"
  {
    assert ["a"] + ["a", "toto"] == ["a", "a", "toto"];
    assert DropLast(["a", "toto"]) == ["a"];
    assert ["a"] + ["a"] == ["a", "a"];
  }

  /** ".." that would climb above the root is dropped, not rejected. */
  lemma FilenameExampleClimbOnce(s: Storage, name: string)
    requires s.root == "a" && name == "../b/toto"
    ensures Filename(s, name) == "a/b/toto" && DirOf(s, name) == "a/b"
  {
    RootAFacts(s);
    ClimbOnceBelow(name);
    UnderRelativeRoot(s, name, "a", ["b", "toto"]);
    ClimbOnceText();
  }

  lemma ClimbOnceText()
    ensures Join(["a"] + ["b", "toto"], "/") == "a/b/toto"
    ensures Join(["a"] + DropLast(["b", "toto"]), "/") == "a/b"
  {
    assert ["a"] + ["b", "toto"] == ["a", "b", "toto"];
    assert DropLast(["b", "toto"]) == ["b"];
    assert ["a"] + ["b"] == ["a", "b"];
  }

  /** However many ".." a name holds, it stays under the root. */
  lemma FilenameExampleClimbFar(s: Storage, name: string)
    requires s.root == "a" && name == "../b/../../../../toto"
    ensures Filename(s, name) == "a/toto" && DirOf(s, name) == "a"
  {
    RootAFacts(s);
    ClimbFarBelow(name);
    UnderRelativeRoot(s, name, "a", ["toto"]);
    TotoText();
  }

  lemma TwoPieceBelow(name: string, d: string, f: string)
    requires IsElem(d) && IsElem(f) && name == d + "/" + f
    ensures Below(name) == [d, f]
  {
    JoinCons(d, [f], "/");
    assert [d] + [f] == [d, f];
    BelowTwo(d, f);
  }

  lemma ClimbOnceBelow(name: string)
    requires name == "../b/toto"
    ensures Below(name) == ["b", "toto"]
  {
    var parts := ["..", "b", "toto"];
    assert name == Join(parts, "/");
    assert NoSlash(parts) by {
      forall i | 0 <= i < |parts| ensures '/' !in parts[i] {
        assert IsElem(parts[i]) || parts[i] == "..";
      }
    }
    BelowPieces(name, parts);
  }

  lemma ClimbFarPieces()
    ensures "../b/../../../../toto" == Join(["..", "b", "..", "..", "..", "..", "toto"], "/")
  {
    JoinSeven("..", "b", "toto");
    assert "../b/../../../../toto" == ".." + "/" + ("b" + "/" + (".." + "/" + (".." + "/" + (".." + "/" + (".." + "/" + "toto")))));
  }

  /** The seven pieces of the climbing name, joined. */
  lemma JoinSeven(x: string, b: string, t: string)
    ensures Join([x, b, x, x, x, x, t], "/") == x + "/" + (b + "/" + (x + "/" + (x + "/" + (x + "/" + (x + "/" + t)))))
  {
    var p := [x, b, x, x, x, x, t];
    assert Join(p[6..], "/") == t;
    assert Join(p[5..], "/") == x + "/" + Join(p[6..], "/");
    assert Join(p[4..], "/") == x + "/" + Join(p[5..], "/");
    assert Join(p[3..], "/") == x + "/" + Join(p[4..], "/");
    assert Join(p[2..], "/") == x + "/" + Join(p[3..], "/");
    assert Join(p[1..], "/") == b + "/" + Join(p[2..], "/");
    assert Join(p, "/") == x + "/" + Join(p[1..], "/");
  }

  lemma ClimbFarBelow(name: string)
    requires name == "../b/../../../../toto"
    ensures Below(name) == ["toto"]
  {
    var parts := ["..", "b", "..", "..", "..", "..", "toto"];
    ClimbFarPieces();
    assert NoSlash(parts) by {
      forall i | 0 <= i < |parts| ensures '/' !in parts[i] {
        assert IsElem(parts[i]) || parts[i] == "..";
      }
    }
    BelowPieces(name, parts);
  }

  // ---------------------------------------------------------------------------
  // Stat
  // ---------------------------------------------------------------------------

  /** The name Stat reports: the filename with the root text trimmed off. */
  function ReportedName(s: Storage, name: string): string
  {
    TrimPrefix(Filename(s, name), s.root)
  }

  /** Storage.Stat: open and stat the filename; report it and its directory with
      the root text trimmed off. */
  function Stat(fs: FileSystem, s: Storage, name: string): (r: Result<FileInfo, StorageError>)
    ensures Filename(s, name) !in fs ==> r == Err(CannotOpenFile(name))
    ensures Filename(s, name) in fs && fs[Filename(s, name)].stat.None? ==> r == Err(CannotStatFile(name))
    ensures Filename(s, name) in fs && fs[Filename(s, name)].stat.Some? ==> r.Ok?
    ensures r.Ok? ==> Filename(s, name) in fs && fs[Filename(s, name)].stat.Some?
    ensures r.Ok? ==> var info := fs[Filename(s, name)].stat.value;
      r.value.isDir == info.isDir && r.value.size == info.size && r.value.time == info.modTime
    ensures r.Ok? ==> (r.value.filename == ReportedName(s, name)
      && r.value.dir == TrimPrefix(DirOf(s, name), s.root))
  {
    var path := Filename(s, name);
    if path !in fs then Err(CannotOpenFile(name))
    else match fs[path].stat
      case None => Err(CannotStatFile(name))
      case Some(info) =>
        Ok(FileInfo(ReportedName(s, name), TrimPrefix(DirOf(s, name), s.root), info.isDir, info.size, info.modTime))
  }

  lemma TrimJoined(root: string, rest: string)
    ensures TrimPrefix(root + rest, root) == rest
  {
    assert root <= root + rest;
    assert (root + rest)[|root|..] == rest;
  }

  lemma TrimJoinedSep(root: string, rest: string)
    ensures TrimPrefix(root + "/" + rest, root) == "/" + rest
  {
    assert root + "/" + rest == root + ("/" + rest);
    TrimJoined(root, "/" + rest);
  }

  lemma ReportedNameBelow(s: Storage, name: string)
    requires ProperRoot(s.root)
    ensures ReportedName(s, name) == (if Below(name) == [] then "" else "/" + Join(Below(name), "/"))
  {
    FilenameUnderRoot(s, name);
    if Below(name) == [] {
      TrimJoined(s.root, "");
      assert s.root + "" == s.root;
    } else {
      TrimJoinedSep(s.root, Join(Below(name), "/"));
    }
  }

  lemma ReportedDirBelow(s: Storage, name: string)
    requires ProperRoot(s.root) && Below(name) != []
    ensures TrimPrefix(DirOf(s, name), s.root) ==
      (if |Below(name)| == 1 then "" else Render(true, DropLast(Below(name))))
  {
    var es := Below(name);
    if |es| == 1 {
      DirOfTop(s, name);
      TrimJoined(s.root, "");
      assert s.root + "" == s.root;
    } else {
      DirOfNested(s, name);
      TrimJoinedSep(s.root, Join(DropLast(es), "/"));
    }
  }

  lemma DirOfTop(s: Storage, name: string)
    requires ProperRoot(s.root) && |Below(name)| == 1
    ensures DirOf(s, name) == s.root
  {
    ProperRootElems(s.root);
    assert DropLast(Below(name)) == [];
    assert ElemsOf(s.root) + [] == ElemsOf(s.root);
  }

  lemma DirOfNested(s: Storage, name: string)
    requires ProperRoot(s.root) && |Below(name)| > 1
    ensures DirOf(s, name) == s.root + "/" + Join(DropLast(Below(name)), "/")
  {
    ProperRootElems(s.root);
    RenderAppend(RootedOf(s.root), ElemsOf(s.root), DropLast(Below(name)));
  }

  /** Under a proper root the reported name is "" for the root itself and
      otherwise the rooted clean name, which starts with "/"; the reported
      directory is "" or a rooted name one element shorter. */
  lemma StatNames(s: Storage, name: string)
    requires ProperRoot(s.root)
    ensures ReportedName(s, name) == (if Below(name) == [] then "" else Clean("/" + name))
    ensures Below(name) != [] ==> ReportedName(s, name)[0] == '/'
    ensures |Below(name)| == 1 ==> TrimPrefix(DirOf(s, name), s.root) == ""
    ensures |Below(name)| > 1 ==>
      TrimPrefix(DirOf(s, name), s.root) == Render(true, DropLast(Below(name)))
  {
    ReportedNameBelow(s, name);
    CleanRooted(name);
    if Below(name) != [] {
      ReportedDirBelow(s, name);
    }
  }

  /** A name two proper elements below a proper root is reported rooted, in
      the directory of its first element. */
  lemma StatTwoDeep(s: Storage, name: string, d: string, f: string)
    requires ProperRoot(s.root) && Below(name) == [d, f]
    ensures ReportedName(s, name) == "/" + d + "/" + f
    ensures TrimPrefix(DirOf(s, name), s.root) == "/" + d
  {
    ReportedNameBelow(s, name);
    ReportedDirBelow(s, name);
    TwoElemsText(d, f);
  }

  lemma TwoElemsText(d: string, f: string)
    ensures "/" + Join([d, f], "/") == "/" + d + "/" + f
    ensures Render(true, DropLast([d, f])) == "/" + d
  {
    assert DropLast([d, f]) == [d];
    assert [d, f][1..] == [f];
  }

  /** Stat's record for the test tree of local/storage_test.go's TestStatOK:
      "subdir/toto" is reported as "/subdir/toto" in "/subdir". */
  lemma StatExampleNested(s: Storage, name: string)
    requires s.root == "test_data" && name == "subdir/toto"
    ensures ReportedName(s, name) == "/subdir/toto"
    ensures TrimPrefix(DirOf(s, name), s.root) == "/subdir"
  {
    NestedExampleFacts(s, name);
    StatTwoDeep(s, name, "subdir", "toto");
    NestedText();
  }

  lemma NestedText()
    ensures "/" + "subdir" + "/" + "toto" == "/subdir/toto"
    ensures "/" + "subdir" == "/subdir"
  {
  }

  lemma NestedExampleFacts(s: Storage, name: string)
    requires s.root == "test_data" && name == "subdir/toto"
    ensures ProperRoot(s.root) && Below(name) == ["subdir", "toto"]
  {
    TestDataProper();
    SubdirTotoBelow();
  }

  /** A name one proper element below a proper root is reported rooted, in the
      directory "" (the root itself, trimmed off). */
  lemma StatTopLevel(s: Storage, name: string, f: string)
    requires ProperRoot(s.root) && Below(name) == [f]
    ensures ReportedName(s, name) == "/" + f
    ensures TrimPrefix(DirOf(s, name), s.root) == ""
  {
    ReportedNameBelow(s, name);
    ReportedDirBelow(s, name);
  }

  /** A name that climbs out with ".." is reported as the file under the root it
      reaches: "/test_1.txt" at the top, whose reported directory is "". */
  lemma StatExampleClimb(s: Storage, name: string)
    requires s.root == "test_data" && name == "unknown_dir/../../../test_1.txt"
    ensures ReportedName(s, name) == "/test_1.txt"
    ensures TrimPrefix(DirOf(s, name), s.root) == ""
  {
    ClimbExampleFacts(s, name);
    StatTopLevel(s, name, "test_1.txt");
    ClimbText();
  }

  lemma ClimbText()
    ensures "/" + "test_1.txt" == "/test_1.txt"
  {
  }

  lemma ClimbExampleFacts(s: Storage, name: string)
    requires s.root == "test_data" && name == "unknown_dir/../../../test_1.txt"
    ensures ProperRoot(s.root) && Below(name) == ["test_1.txt"]
  {
    TestDataProper();
    UnknownDirBelow();
  }

  lemma TestDataProper()
    ensures ProperRoot("test_data")
  {
    ElemsOfElem("test_data");
  }

  lemma SubdirTotoBelow()
    ensures Below("subdir/toto") == ["subdir", "toto"]
  {
    assert "subdir/toto" == Join(["subdir", "toto"], "/");
    BelowTwo("subdir", "toto");
  }

  lemma UnknownDirBelow()
    ensures Below("unknown_dir/../../../test_1.txt") == ["test_1.txt"]
  {
    var parts := ["unknown_dir", "..", "..", "..", "test_1.txt"];
    UnknownDirPieces();
    UnknownDirResolve();
    assert NoSlash(parts) by {
      forall i | 0 <= i < |parts| ensures '/' !in parts[i] {
        assert IsElem(parts[i]) || parts[i] == "..";
      }
    }
    BelowPieces("unknown_dir/../../../test_1.txt", parts);
  }

  lemma UnknownDirPieces()
    ensures "unknown_dir/../../../test_1.txt" == Join(["unknown_dir", "..", "..", "..", "test_1.txt"], "/")
  {
  }

  lemma UnknownDirResolve()
    ensures Resolve(true, [], ["unknown_dir", "..", "..", "..", "test_1.txt"]) == ["test_1.txt"]
  {
    ResolveUnknown("unknown_dir", "test_1.txt");
  }

  /** One element, three "..", one element: the climb stops at "/". */
  lemma ResolveUnknown(u: string, t: string)
    requires IsElem(u) && IsElem(t)
    ensures Resolve(true, [], [u, "..", "..", "..", t]) == [t]
  {
    var ps := [u, "..", "..", "..", t];
    assert ps[1..] == ["..", "..", "..", t];
    assert Resolve(true, [], ps) == Resolve(true, [u], ["..", "..", "..", t]);
    assert ["..", "..", "..", t][1..] == ["..", "..", t];
    assert [u][..0] == [];
    assert Resolve(true, [u], ["..", "..", "..", t]) == Resolve(true, [], ["..", "..", t]);
    assert ["..", "..", t][1..] == ["..", t];
    assert Resolve(true, [], ["..", "..", t]) == Resolve(true, [], ["..", t]);
    assert ["..", t][1..] == [t];
    assert Resolve(true, [], ["..", t]) == Resolve(true, [], [t]);
    assert [t][1..] == [];
    assert Resolve(true, [], [t]) == Resolve(true, [] + [t], []);
  }

  // ---------------------------------------------------------------------------
  // Access and List
  // ---------------------------------------------------------------------------

  function Ascii(t: string): (b: seq<byte>)
    requires forall i :: 0 <= i < |t| ==> t[i] as int < 256
    ensures |b| == |t|
  {
    seq(|t|, i requires 0 <= i < |t| => t[i] as int as byte)
  }

  /** The fixed grant Storage.Access hands out. */
  const GrantText: seq<byte> := Ascii("read: gildaschbt@gmail.com")

  /** Storage.Access: a stub that reports the same grant, as found, for every name. */
  function Access(s: Storage, name: string): (r: (seq<byte>, bool))
    ensures r.1 && r.0 == GrantText
  {
    (GrantText, true)
  }

  /** One List record: the child joined onto the pattern as given, in the
      directory `dir` (Storage.dir of the pattern). */
  function ListRecord(pattern: string, dir: string, fi: OsInfo): FileInfo
  {
    FileInfo(JoinPath(pattern, fi.name), dir, fi.isDir, fi.size, fi.modTime)
  }

  /** The loop of Storage.List: one record appended per entry, in order. */
  function Records(pattern: string, dir: string, fis: seq<OsInfo>): (infos: seq<FileInfo>)
    ensures |infos| == |fis|
    ensures forall i :: 0 <= i < |fis| ==>
      infos[i].filename == JoinPath(pattern, fis[i].name) && infos[i].dir == dir
      && infos[i].isDir == fis[i].isDir && infos[i].size == fis[i].size && infos[i].time == fis[i].modTime
    decreases |fis|
  {
    if |fis| == 0 then []
    else Records(pattern, dir, fis[..|fis| - 1]) + [ListRecord(pattern, dir, fis[|fis| - 1])]
  }

  /** Storage.List: read the directory at the pattern's filename; an error (and
      no records) when it is missing or not a directory. Every record shares
      the pattern's Storage.dir. */
  function List(fs: FileSystem, s: Storage, pattern: string): (r: Result<seq<FileInfo>, StorageError>)
    ensures r.Err? <==> ReadDir(fs, Filename(s, pattern)).Err?
    ensures r.Err? ==> r == Err(CannotReadDir(pattern))
    ensures r.Ok? ==> r.value == Records(pattern, DirOf(s, pattern), ReadDir(fs, Filename(s, pattern)).value)
  {
    match ReadDir(fs, Filename(s, pattern))
    case Err(_) => Err(CannotReadDir(pattern))
    case Ok(fis) => Ok(Records(pattern, DirOf(s, pattern), fis))
  }

  /** FileInfo.Path: the record's dir joined with its filename. */
  function Path(fi: FileInfo): string
  {
    JoinPath(fi.dir, fi.filename)
  }

  lemma DirOfElem(s: Storage, pattern: string)
    requires s.root != "" && IsElem(pattern)
    ensures DirOf(s, pattern) == Render(RootedOf(s.root), ElemsOf(s.root))
  {
    BelowElem(pattern);
    assert DropLast([pattern]) == [];
    assert ElemsOf(s.root) + [] == ElemsOf(s.root);
  }

  lemma JoinElems(pattern: string, child: string)
    requires IsElem(pattern) && IsElem(child)
    ensures JoinPath(pattern, child) == Join([pattern, child], "/")
  {
    ElemsOfElem(pattern);
    JoinRelative(pattern, [child]);
    assert [pattern] + [child] == [pattern, child];
  }

  lemma BelowTwo(pattern: string, child: string)
    requires IsElem(pattern) && IsElem(child)
    ensures Below(Join([pattern, child], "/")) == [pattern, child]
  {
    SplitJoin([pattern, child], '/');
    ResolveStack(true, [], [pattern, child]);
    assert [] + [pattern, child] == [pattern, child];
  }

  /** A child named inside a one-element directory: its path joined onto that
      directory's dir is the child's filename. */
  lemma JoinedUnderRoot(s: Storage, pattern: string, child: string)
    requires s.root != "" && IsElem(pattern) && IsElem(child)
    ensures JoinPath(DirOf(s, pattern), JoinPath(pattern, child)) == Filename(s, Join([pattern, child], "/"))
  {
    var rb := RootedOf(s.root);
    var rs := ElemsOf(s.root);
    DirOfElem(s, pattern);
    JoinElems(pattern, child);
    RenderSplit(rb, rs);
    JoinRelative(Render(rb, rs), [pattern, child]);
    BelowTwo(pattern, child);
  }

  /** Listing a one-element pattern: each record's Path is exactly where the
      child lives under the root. */
  lemma ListedPath(fs: FileSystem, s: Storage, pattern: string, i: nat)
    requires s.root != "" && IsElem(pattern)
    requires List(fs, s, pattern).Ok? && i < |List(fs, s, pattern).value|
    requires IsElem(ReadDir(fs, Filename(s, pattern)).value[i].name)
    ensures Path(List(fs, s, pattern).value[i]) ==
      Filename(s, pattern + "/" + ReadDir(fs, Filename(s, pattern)).value[i].name)
  {
    var child := ReadDir(fs, Filename(s, pattern)).value[i].name;
    JoinedUnderRoot(s, pattern, child);
    JoinCons(pattern, [child], "/");
    assert [pattern] + [child] == [pattern, child];
  }

  /** "/" names no element: splitting it gives two empty pieces. */
  lemma SlashFacts()
    ensures Below("/") == [] && ElemsOf("/") == [] && RootedOf("/")
  {
    assert "/" == [] + ['/'] + [];
    SplitAround("", "", '/');
    SplitNoSep("", '/');
    assert Split("/", '/') == ["", ""];
  }

  /** Joining a proper element onto "/" gives the rooted element. */
  lemma JoinOntoSlash(e: string)
    requires IsElem(e)
    ensures JoinPath("/", e) == "/" + e
  {
    SlashFacts();
    JoinPathResolve("/", e);
    SplitNoSep(e, '/');
    assert Resolve(true, [], [e]) == Resolve(true, [e], []);
  }

  /** Listing "/" under a one-element relative root: every record sits in the
      root's parent "." and is named as a rooted child. */
  lemma ListOfRoot(fs: FileSystem, s: Storage, i: nat)
    requires s.root != "" && !RootedOf(s.root) && |ElemsOf(s.root)| == 1
    requires List(fs, s, "/").Ok? && i < |List(fs, s, "/").value|
    requires IsElem(ReadDir(fs, Filename(s, "/")).value[i].name)
    ensures List(fs, s, "/").value[i].dir == "."
    ensures List(fs, s, "/").value[i].filename == "/" + ReadDir(fs, Filename(s, "/")).value[i].name
  {
    SlashFacts();
    assert DropLast(ElemsOf(s.root)) == [];
    JoinOntoSlash(ReadDir(fs, Filename(s, "/")).value[i].name);
  }

  /** The listing of "/" with root test_data: the records are in "." and named
      "/" + child, as "/subdir" and "/test_1.txt" are. */
  lemma ListRootExample(fs: FileSystem, s: Storage, i: nat)
    requires s.root == "test_data"
    requires List(fs, s, "/").Ok? && i < |List(fs, s, "/").value|
    requires IsElem(ReadDir(fs, Filename(s, "/")).value[i].name)
    ensures List(fs, s, "/").value[i].dir == "."
    ensures List(fs, s, "/").value[i].filename == "/" + ReadDir(fs, Filename(s, "/")).value[i].name
  {
    TestDataElems(s);
    ListOfRoot(fs, s, i);
  }

  /** Listing "/" under a one-element relative root: a record's Path is the bare
      child, relative to the working directory rather than to the root, so it is
      not the file the child names under the root. */
  lemma ListOfRootPath(fs: FileSystem, s: Storage, i: nat)
    requires s.root != "" && !RootedOf(s.root) && |ElemsOf(s.root)| == 1
    requires List(fs, s, "/").Ok? && i < |List(fs, s, "/").value|
    requires IsElem(ReadDir(fs, Filename(s, "/")).value[i].name)
    ensures var child := ReadDir(fs, Filename(s, "/")).value[i].name;
      Path(List(fs, s, "/").value[i]) == child && Path(List(fs, s, "/").value[i]) != Filename(s, "/" + child)
  {
    var child := ReadDir(fs, Filename(s, "/")).value[i].name;
    ListOfRoot(fs, s, i);
    DotElems();
    JoinRooted(".", [child]);
    assert Render(true, [child]) == "/" + child;
    assert [] + [child] == [child];
    RootedChild(child);
    JoinCons(ElemsOf(s.root)[0], [child], "/");
    assert ElemsOf(s.root) + [child] == [ElemsOf(s.root)[0]] + [child];
  }

  lemma DotElems()
    ensures ElemsOf(".") == [] && !RootedOf(".")
  {
    SplitNoSep(".", '/');
    assert Resolve(false, [], ["."]) == Resolve(false, [], []);
  }

  lemma RootedChild(e: string)
    requires IsElem(e)
    ensures Below("/" + e) == [e]
  {
    assert "/" + e == [] + ['/'] + e;
    SplitAround("", e, '/');
    SplitNoSep("", '/');
    SplitNoSep(e, '/');
    assert Split("/" + e, '/') == ["", e];
    assert Resolve(true, [], ["", e]) == Resolve(true, [], [e]) == Resolve(true, [e], []);
  }

  lemma TestDataElems(s: Storage)
    requires s.root == "test_data"
    ensures s.root != "" && !RootedOf(s.root) && |ElemsOf(s.root)| == 1
  {
    ElemsOfElem("test_data");
  }

  // ---------------------------------------------------------------------------
  // Finding: trimming the root text is wrong for the roots "." and "/"
  // ---------------------------------------------------------------------------

  lemma DotRootFacts(s: Storage)
    requires s.root == "."
    ensures s.root != "" && !RootedOf(s.root) && ElemsOf(s.root) == []
  {
    SplitNoSep(".", '/');
    assert Resolve(false, [], ["."]) == Resolve(false, [], []);
  }

  /** Under a relative root with no elements (".") a one-element name is its
      own filename. */
  lemma UnderDotRoot(s: Storage, name: string, e: string)
    requires s.root != "" && !RootedOf(s.root) && ElemsOf(s.root) == []
    requires IsElem(e) && name == e
    ensures Filename(s, name) == e
    ensures JoinPath(s.root, e) == e
  {
    BelowElem(name);
    assert [] + [e] == [e];
    JoinRelative(s.root, [e]);
  }

  /** Under the root "." (the server's default root) the as-written Stat names of
      ".hidden" and "hidden" are both "hidden": two files, one name, and the
      reported name of ".hidden" joined back onto the root is the other file. */
  lemma StatDotRootWitness(s: Storage, dotted: string, plain: string)
    requires s.root == "." && dotted == ".hidden" && plain == "hidden"
    ensures Filename(s, dotted) != Filename(s, plain)
    ensures ReportedName(s, dotted) == ReportedName(s, plain) == "hidden"
    ensures JoinPath(s.root, ReportedName(s, dotted)) != Filename(s, dotted)
  {
    DotRootFacts(s);
    UnderDotRoot(s, dotted, ".hidden");
    UnderDotRoot(s, plain, "hidden");
    assert "." <= ".hidden";
    assert !("." <= "hidden");
  }

  /** The intended Stat name: "" for the root itself, otherwise the rooted clean
      name, independent of how the root is spelled. */
  function RootRelativeName(s: Storage, name: string): (r: string)
    ensures Below(name) == [] <==> r == ""
    ensures r != "" ==> r[0] == '/'
    ensures s.root != "" ==> JoinPath(s.root, r) == Filename(s, name)
  {
    CleanRooted(name);
    var es := Below(name);
    if es == [] then
      assert s.root != "" ==> JoinPath(s.root, "") == Filename(s, name) by {
        if s.root != "" {
          JoinRelative(s.root, []);
          assert ElemsOf(s.root) + [] == ElemsOf(s.root);
        }
      }
      ""
    else
      assert JoinPath(s.root, Clean("/" + name)) == Filename(s, name) by {
        if s.root != "" {
          JoinRooted(s.root, es);
        }
      }
      Clean("/" + name)
  }

  /** For every proper root the intended name is exactly what Stat reports, so
      the correction only changes the roots "." and "/". */
  lemma RootRelativeMatchesProperRoots(s: Storage, name: string)
    requires ProperRoot(s.root)
    ensures RootRelativeName(s, name) == ReportedName(s, name)
  {
    StatNames(s, name);
  }

  /** Stat with the intended name. */
  function StatRooted(fs: FileSystem, s: Storage, name: string): (r: Result<FileInfo, StorageError>)
    ensures r.Err? <==> Stat(fs, s, name).Err?
    ensures r.Err? ==> r == Stat(fs, s, name)
    ensures r.Ok? ==> r.value == Stat(fs, s, name).value.(filename := RootRelativeName(s, name))
    ensures r.Ok? && s.root != "" ==> JoinPath(s.root, r.value.filename) == Filename(s, name)
  {
    match Stat(fs, s, name)
    case Err(e) => Err(e)
    case Ok(fi) => Ok(fi.(filename := RootRelativeName(s, name)))
  }
}
