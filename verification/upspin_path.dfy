/**
 * upspin.io/path as the server uses it: a path name is a user name, a slash and
 * the elements below that user's root. Parsing keeps the user and cleans the
 * rest as a rooted path; a name is rejected when its user part is not a valid
 * user name. upspin.io/path and upspin.io/user are not part of this model: the
 * user check beyond "exactly one @" is the parameter `validUser`.
 */
module UpspinPath {
  import opened Results
  import opened Text
  import FilePaths

  /** path.Parsed: the user and the clean elements below the user's root. */
  datatype Parsed = Parsed(user: string, elems: seq<string>)

  datatype PathError = InvalidUser(user: string)

  /** user.Parse accepts the name: exactly one '@' (the check dir/dir_test.go
      pins), and whatever else `validUser` demands. */
  predicate ValidUser(validUser: string -> bool, u: string)
  {
    Count(u, '@') == 1 && validUser(u)
  }

  /** What Parse can produce: a valid slash-free user and proper elements. */
  predicate WellFormed(validUser: string -> bool, p: Parsed)
  {
    '/' !in p.user && ValidUser(validUser, p.user) && FilePaths.AllElems(p.elems)
  }

  /** The text before the first slash (all of it when there is none). */
  function UserPart(name: string): (u: string)
    ensures '/' !in u && u <= name
  {
    var i := IndexOf(name, '/');
    if i < 0 then name else name[..i]
  }

  /** The text from the first slash on ("" when there is none). */
  function FilePart(name: string): (rest: string)
    ensures name == UserPart(name) + rest
    ensures rest == "" || rest[0] == '/'
  {
    var i := IndexOf(name, '/');
    if i < 0 then "" else name[i..]
  }

  /** The elements the rooted cleaning of the part after the user keeps. */
  function ElemsBelow(name: string): (es: seq<string>)
    ensures FilePaths.AllElems(es)
  {
    FilePaths.Resolve(true, [], Split(FilePart(name), '/'))
  }

  /** path.Parse. */
  function Parse(validUser: string -> bool, name: string): (r: Result<Parsed, PathError>)
    ensures r.Ok? <==> ValidUser(validUser, UserPart(name))
    ensures r.Ok? ==> WellFormed(validUser, r.value)
    ensures r.Ok? ==> r.value.user == UserPart(name) && r.value.elems == ElemsBelow(name)
    ensures r.Err? ==> r.error == InvalidUser(UserPart(name))
  {
    var u := UserPart(name);
    if !ValidUser(validUser, u) then Err(InvalidUser(u))
    else Ok(Parsed(u, ElemsBelow(name)))
  }

  /** path.Clean: the user part is kept and the rest is cleaned as a rooted path;
      a bare user name becomes its root "user/". */
  function Clean(name: string): string
  {
    var rest := FilePart(name);
    if rest == "" then name + "/" else UserPart(name) + FilePaths.Clean(rest)
  }

  /** Parsed.Path: "user/" followed by the elements joined with '/'. */
  function PathOf(p: Parsed): string
  {
    p.user + "/" + Join(p.elems, "/")
  }

  /** Parsed.FilePath: the elements joined with '/', without the user. */
  function FilePath(p: Parsed): string
  {
    Join(p.elems, "/")
  }

  /** Parsed.IsRoot. */
  predicate IsRoot(p: Parsed)
  {
    |p.elems| == 0
  }

  /** Parsed.Drop(1): the parent directory. */
  function DropOne(p: Parsed): (q: Parsed)
    requires !IsRoot(p)
    ensures q.user == p.user && q.elems == p.elems[..|p.elems| - 1]
  {
    Parsed(p.user, p.elems[..|p.elems| - 1])
  }

  /** The first `n` elements under the same user. */
  function Prefix(p: Parsed, n: nat): Parsed
    requires n <= |p.elems|
  {
    Parsed(p.user, p.elems[..n])
  }

  // ---------------------------------------------------------------------------
  // Printing and parsing agree
  // ---------------------------------------------------------------------------

  lemma UserPartOf(u: string, rest: string)
    requires '/' !in u
    ensures UserPart(u + "/" + rest) == u
    ensures FilePart(u + "/" + rest) == "/" + rest
  {
    IndexOfAppend(u, "/" + rest, '/');
    assert u + "/" + rest == u + ("/" + rest);
  }

  /** The pieces of "/" + Join(es) clean back to `es`. */
  lemma ResolveRootedJoin(es: seq<string>)
    requires FilePaths.AllElems(es)
    ensures FilePaths.NoSlash(Split("/" + Join(es, "/"), '/'))
    ensures FilePaths.Resolve(true, [], Split("/" + Join(es, "/"), '/')) == es
  {
    var j := Join(es, "/");
    assert "/" + j == "" + ['/'] + j;
    SplitAround("", j, '/');
    if es == [] {
      assert Split("/" + j, '/') == ["", ""];
      assert FilePaths.Resolve(true, [], ["", ""]) == FilePaths.Resolve(true, [], [""]);
      assert FilePaths.Resolve(true, [], [""]) == FilePaths.Resolve(true, [], []);
    } else {
      SplitJoin(es, '/');
      assert Split("/" + j, '/') == [""] + es;
      FilePaths.StackAppendElems(true, [], es);
      assert [] + es == es;
      FilePaths.ResolveStack(true, [], es);
    }
  }

  /** Parsing the printed form of a well-formed path gives it back. */
  lemma ParsePathOf(validUser: string -> bool, p: Parsed)
    requires WellFormed(validUser, p)
    ensures Parse(validUser, PathOf(p)) == Ok(p)
  {
    UserPartOf(p.user, Join(p.elems, "/"));
    ResolveRootedJoin(p.elems);
  }

  lemma DropOneWellFormed(validUser: string -> bool, p: Parsed)
    requires WellFormed(validUser, p) && !IsRoot(p)
    ensures WellFormed(validUser, DropOne(p))
  {
  }

  // ---------------------------------------------------------------------------
  // The Access file of a directory
  // ---------------------------------------------------------------------------

  /** The name of the Access file governing `dir`: path.Clean(dir + "/Access"). */
  function AccessPath(dir: string): string
  {
    Clean(dir + "/Access")
  }

  /** The Access file of a directory that parses is "user/" followed by the
      directory's clean elements and "Access": the raw spelling of `dir` does not
      matter. */
  lemma AccessPathOfParsed(validUser: string -> bool, dir: string)
    requires Parse(validUser, dir).Ok?
    ensures AccessPath(dir) == UserPart(dir) + "/" + Join(ElemsBelow(dir) + ["Access"], "/")
  {
    assert dir + "/Access" == dir + "/" + "Access";
    CleanChild(dir, "Access");
  }

  /** Cleaning a child name of `dir` appends the child to dir's clean elements. */
  lemma CleanChild(dir: string, f: string)
    requires FilePaths.IsElem(f)
    ensures Clean(dir + "/" + f) == UserPart(dir) + "/" + Join(ElemsBelow(dir) + [f], "/")
  {
    if FilePart(dir) == "" {
      CleanChildOfUser(dir, f);
    } else {
      CleanChildBelowUser(dir, f);
    }
  }

  lemma CleanChildOfUser(dir: string, f: string)
    requires FilePaths.IsElem(f) && FilePart(dir) == ""
    ensures Clean(dir + "/" + f) == UserPart(dir) + "/" + Join(ElemsBelow(dir) + [f], "/")
  {
    var name := dir + "/" + f;
    IndexOfAppend(dir, "/" + f, '/');
    assert name == dir + ("/" + f);
    assert IndexOf(dir, '/') < 0;
    assert UserPart(name) == dir && FilePart(name) == "/" + f;
    assert Split("", '/') == [""];
    assert FilePaths.Resolve(true, [], [""]) == FilePaths.Resolve(true, [], []);
    assert ElemsBelow(dir) == [];
    assert ElemsBelow(dir) + [f] == [f];
    ResolveRootedJoin([f]);
  }

  lemma CleanChildBelowUser(dir: string, f: string)
    requires FilePaths.IsElem(f) && FilePart(dir) != ""
    ensures Clean(dir + "/" + f) == UserPart(dir) + "/" + Join(ElemsBelow(dir) + [f], "/")
  {
    ChildParts(dir, f);
    CleanRestChild(FilePart(dir), f);
    var j := Join(ElemsBelow(dir) + [f], "/");
    assert UserPart(dir) + ("/" + j) == UserPart(dir) + "/" + j;
  }

  /** A child name of a directory with a file part splits at the directory's
      own first slash. */
  lemma ChildParts(dir: string, f: string)
    requires FilePart(dir) != ""
    ensures UserPart(dir + "/" + f) == UserPart(dir)
    ensures FilePart(dir + "/" + f) == FilePart(dir) + "/" + f
  {
    AppendedParts(dir, "/" + f);
    ConcatAssoc(dir, "/", f);
    ConcatAssoc(FilePart(dir), "/", f);
  }

  /** Text appended to a name with a file part extends the file part only. */
  lemma AppendedParts(dir: string, g: string)
    requires FilePart(dir) != ""
    ensures UserPart(dir + g) == UserPart(dir)
    ensures FilePart(dir + g) == FilePart(dir) + g
  {
    var i := IndexOf(dir, '/');
    IndexOfAppend(dir, g, '/');
    SliceAppend(dir, g, i);
  }

  /** Cleaning a rooted text with a child appended appends the child to its
      clean elements. */
  lemma CleanRestChild(rest: string, f: string)
    requires FilePaths.IsElem(f) && rest != "" && rest[0] == '/'
    ensures FilePaths.Clean(rest + "/" + f)
      == "/" + Join(FilePaths.Resolve(true, [], Split(rest, '/')) + [f], "/")
  {
    var t := rest + "/" + f;
    assert t == rest + ['/'] + f;
    assert t[0] == '/';
    SplitNoSep(f, '/');
    SplitAround(rest, f, '/');
    var parts := Split(rest, '/');
    assert Split(t, '/') == parts + [f];
    FilePaths.ResolveAppend(true, [], parts, [f]);
    var es := FilePaths.Resolve(true, [], parts);
    assert FilePaths.Resolve(true, es, [f]) == FilePaths.Resolve(true, es + [f], []);
  }

  /** For a printed path the Access file is "user/elems.../Access". */
  lemma AccessPathOfCanonical(validUser: string -> bool, p: Parsed)
    requires WellFormed(validUser, p)
    ensures AccessPath(PathOf(p)) == p.user + "/" + Join(p.elems + ["Access"], "/")
  {
    ParsePathOf(validUser, p);
    AccessPathOfParsed(validUser, PathOf(p));
  }
}
