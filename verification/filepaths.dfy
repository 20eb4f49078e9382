/**
 * Lexical path handling as Go's `path` and `path/filepath` packages do it on a
 * Unix host (separator '/', `filepath.FromSlash` is the identity): `Clean`,
 * `Join` and `Dir`. Nothing here touches a filesystem.
 *
 * A cleaned path is described by whether it is rooted and by its stack of
 * elements; `Clean` splits the text on '/', folds the pieces onto that stack
 * (`Resolve`) and renders the stack back as text (`Render`).
 */
module FilePaths {
  import opened Text

  /** A proper path element: not empty, not "." or "..", no slash. */
  predicate IsElem(e: string)
  {
    e != "" && e != "." && e != ".." && '/' !in e
  }

  predicate AllElems(es: seq<string>)
  {
    forall i :: 0 <= i < |es| ==> IsElem(es[i])
  }

  predicate NoSlash(parts: seq<string>)
  {
    forall i :: 0 <= i < |parts| ==> '/' !in parts[i]
  }

  /** The elements of a clean path: proper elements, preceded only in a relative
      path by a run of "..". */
  predicate IsStack(rooted: bool, st: seq<string>)
  {
    forall i :: 0 <= i < |st| ==>
      IsElem(st[i]) || (!rooted && st[i] == ".." && forall j :: 0 <= j < i ==> st[j] == "..")
  }

  /** Folds the pieces of a path onto a stack of elements the way path.Clean
      scans them: empty pieces and "." vanish, ".." removes the last proper
      element; with nothing left to remove it is dropped in a rooted path and
      kept in a relative one. */
  function Resolve(rooted: bool, st: seq<string>, parts: seq<string>): (r: seq<string>)
    requires IsStack(rooted, st) && NoSlash(parts)
    ensures IsStack(rooted, r)
    decreases |parts|
  {
    if |parts| == 0 then st
    else
      var e := parts[0];
      var rest := parts[1..];
      if e == "" || e == "." then Resolve(rooted, st, rest)
      else if e == ".." then
        if |st| > 0 && st[|st| - 1] != ".." then Resolve(rooted, st[..|st| - 1], rest)
        else if rooted then Resolve(rooted, st, rest)
        else
          assert IsStack(rooted, st + [".."]) by {
            if |st| > 0 {
              assert !IsElem(st[|st| - 1]);
            }
          }
          Resolve(rooted, st + [".."], rest)
      else Resolve(rooted, st + [e], rest)
  }

  /** The text of a clean path with the given stack. */
  function Render(rooted: bool, st: seq<string>): string
  {
    if rooted then "/" + Join(st, "/")
    else if |st| == 0 then "."
    else Join(st, "/")
  }

  /** path.Clean / filepath.Clean. */
  function Clean(p: string): string
  {
    if p == "" then "."
    else
      var rooted := p[0] == '/';
      Render(rooted, Resolve(rooted, [], Split(p, '/')))
  }

  /** filepath.Join(a, b) and path.Join(a, b): the non-empty arguments joined by
      '/' and cleaned; "" when both are empty. */
  function JoinPath(a: string, b: string): string
  {
    if a == "" then (if b == "" then "" else Clean(b)) else Clean(a + "/" + b)
  }

  /** filepath.Dir: the text up to and including the last slash, cleaned. */
  function Dir(p: string): string
  {
    Clean(p[..LastIndexOf(p, '/') + 1])
  }

  function DropLast(st: seq<string>): seq<string>
  {
    if |st| == 0 then [] else st[..|st| - 1]
  }

  /** Whether a path text is rooted, and the element stack its cleaned form has. */
  predicate RootedOf(p: string)
  {
    |p| > 0 && p[0] == '/'
  }

  function ElemsOf(p: string): (st: seq<string>)
    ensures IsStack(RootedOf(p), st)
  {
    Resolve(RootedOf(p), [], Split(p, '/'))
  }

  /** A single proper element is a relative path of one element. */
  lemma ElemsOfElem(e: string)
    requires IsElem(e)
    ensures ElemsOf(e) == [e]
  {
    SplitNoSep(e, '/');
    assert e[0] in e;
    assert !RootedOf(e);
    assert Resolve(false, [], [e]) == Resolve(false, [e], []);
  }

  // ---------------------------------------------------------------------------
  // Facts about Resolve
  // ---------------------------------------------------------------------------

  lemma StackAppendElems(rooted: bool, st: seq<string>, es: seq<string>)
    requires IsStack(rooted, st) && AllElems(es)
    ensures IsStack(rooted, st + es)
  {
    var s := st + es;
    forall i | 0 <= i < |s|
      ensures IsElem(s[i]) || (!rooted && s[i] == ".." && forall j :: 0 <= j < i ==> s[j] == "..")
    {
      if i >= |st| {
        assert s[i] == es[i - |st|];
      }
    }
  }

  lemma StackNoSlash(rooted: bool, st: seq<string>)
    requires IsStack(rooted, st)
    ensures NoSlash(st)
  {
  }

  lemma StackPrefix(rooted: bool, st: seq<string>, k: nat)
    requires IsStack(rooted, st) && k <= |st|
    ensures IsStack(rooted, st[..k])
  {
  }

  /** Folding a list of pieces in two parts is folding the first and then the second. */
  lemma {:induction false} ResolveAppend(rooted: bool, st: seq<string>, a: seq<string>, b: seq<string>)
    requires IsStack(rooted, st) && NoSlash(a) && NoSlash(b)
    ensures NoSlash(a + b)
    ensures Resolve(rooted, st, a + b) == Resolve(rooted, Resolve(rooted, st, a), b)
    decreases |a|
  {
    assert NoSlash(a + b) by {
      forall i | 0 <= i < |a + b| ensures '/' !in (a + b)[i] {
        if i >= |a| {
          assert (a + b)[i] == b[i - |a|];
        }
      }
    }
    if |a| > 0 {
      assert (a + b)[0] == a[0];
      assert (a + b)[1..] == a[1..] + b;
      var e := a[0];
      if e == "" || e == "." {
        ResolveAppend(rooted, st, a[1..], b);
      } else if e == ".." {
        if |st| > 0 && st[|st| - 1] != ".." {
          ResolveAppend(rooted, st[..|st| - 1], a[1..], b);
        } else if rooted {
          ResolveAppend(rooted, st, a[1..], b);
        } else {
          assert IsStack(rooted, st + [".."]) by {
            if |st| > 0 {
              assert !IsElem(st[|st| - 1]);
            }
          }
          ResolveAppend(rooted, st + [".."], a[1..], b);
        }
      } else {
        ResolveAppend(rooted, st + [e], a[1..], b);
      }
    } else {
      assert a + b == b;
    }
  }

  /** Pieces that already continue a clean stack are pushed unchanged. */
  lemma {:induction false} ResolveStack(rooted: bool, st: seq<string>, s: seq<string>)
    requires IsStack(rooted, st + s)
    ensures IsStack(rooted, st) && NoSlash(s)
    ensures Resolve(rooted, st, s) == st + s
    decreases |s|
  {
    var whole := st + s;
    assert st == whole[..|st|];
    StackPrefix(rooted, whole, |st|);
    assert NoSlash(s) by {
      forall i | 0 <= i < |s| ensures '/' !in s[i] {
        assert s[i] == whole[|st| + i];
      }
    }
    if |s| > 0 {
      var e := s[0];
      assert e == whole[|st|];
      assert st + [e] + s[1..] == whole;
      if !IsElem(e) {
        assert !rooted && e == ".." && forall j :: 0 <= j < |st| ==> st[j] == ".." by {
          forall j | 0 <= j < |st| ensures st[j] == ".." {
            assert st[j] == whole[j];
          }
        }
        if |st| > 0 {
          assert st[|st| - 1] == "..";
        }
      }
      ResolveStack(rooted, st + [e], s[1..]);
    }
  }

  /** `k` pieces "..". */
  function Dots(k: nat): (ds: seq<string>)
    ensures |ds| == k && forall i :: 0 <= i < k ==> ds[i] == ".."
  {
    seq(k, i => "..")
  }

  /** In a rooted path, at least as many ".." as there are elements climb to the
      root, and further ".." stay there. */
  lemma {:induction false} ResolveClimb(st: seq<string>, k: nat)
    requires IsStack(true, st) && k >= |st|
    ensures NoSlash(Dots(k))
    ensures Resolve(true, st, Dots(k)) == []
    decreases k
  {
    if k > 0 {
      var ds := Dots(k);
      assert ds[1..] == Dots(k - 1);
      if |st| > 0 {
        assert IsElem(st[|st| - 1]);
        StackPrefix(true, st, |st| - 1);
        ResolveClimb(st[..|st| - 1], k - 1);
      } else {
        ResolveClimb(st, k - 1);
      }
    } else {
      assert Dots(0) == [];
    }
  }

  /** Pieces without ".." never remove an element: folding them onto a stack
      extends it with the elements they contribute on their own. */
  lemma {:induction false} ResolveWithoutClimb(rooted: bool, st: seq<string>, t: seq<string>, parts: seq<string>)
    requires IsStack(rooted, st) && AllElems(t) && NoSlash(parts)
    requires forall i :: 0 <= i < |parts| ==> parts[i] != ".."
    ensures IsStack(rooted, st + t) && IsStack(true, t)
    ensures Resolve(rooted, st + t, parts) == st + Resolve(true, t, parts)
    decreases |parts|
  {
    StackAppendElems(rooted, st, t);
    StackAppendElems(true, [], t);
    assert [] + t == t;
    if |parts| > 0 {
      var e := parts[0];
      if e == "" || e == "." {
        ResolveWithoutClimb(rooted, st, t, parts[1..]);
      } else {
        assert IsElem(e);
        assert st + t + [e] == st + (t + [e]);
        ResolveWithoutClimb(rooted, st, t + [e], parts[1..]);
      }
    }
  }

  // ---------------------------------------------------------------------------
  // Rendering and re-reading a stack
  // ---------------------------------------------------------------------------

  lemma {:induction false} JoinStartsWithFirst(parts: seq<string>, sep: string)
    requires |parts| >= 1
    ensures parts[0] <= Join(parts, sep)
  {
  }

  /** A rendered stack is non-empty text, rooted exactly when the stack is, and
      splitting and folding it gives the stack back. */
  lemma RenderSplit(rooted: bool, st: seq<string>)
    requires IsStack(rooted, st)
    ensures Render(rooted, st) != ""
    ensures RootedOf(Render(rooted, st)) == rooted
    ensures NoSlash(Split(Render(rooted, st), '/'))
    ensures Resolve(rooted, [], Split(Render(rooted, st), '/')) == st
  {
    var p := Render(rooted, st);
    if rooted {
      assert p == "" + ['/'] + Join(st, "/");
      SplitAround("", Join(st, "/"), '/');
      if |st| == 0 {
        assert Split(p, '/') == ["", ""];
      } else {
        SplitJoin(st, '/');
        assert Split(p, '/') == [""] + st;
        assert ([""] + st)[1..] == st;
        ResolveStack(rooted, [], st);
      }
    } else if |st| == 0 {
      SplitNoSep(".", '/');
    } else {
      JoinStartsWithFirst(st, "/");
      assert p[0] == st[0][0];
      SplitJoin(st, '/');
      ResolveStack(rooted, [], st);
    }
  }

  /** Cleaning a rendered stack changes nothing. */
  lemma CleanRender(rooted: bool, st: seq<string>)
    requires IsStack(rooted, st)
    ensures Clean(Render(rooted, st)) == Render(rooted, st)
  {
    RenderSplit(rooted, st);
  }

  /** Clean is idempotent, and keeps a path rooted exactly when it was. */
  lemma CleanIdempotent(p: string)
    ensures Clean(Clean(p)) == Clean(p)
    ensures RootedOf(Clean(p)) == RootedOf(p)
  {
    if p == "" {
      CleanRender(false, []);
      RenderSplit(false, []);
    } else {
      var rooted := p[0] == '/';
      var st := Resolve(rooted, [], Split(p, '/'));
      CleanRender(rooted, st);
      RenderSplit(rooted, st);
    }
  }

  /** A clean path is the rendering of its own element stack. */
  lemma CleanIsRender(p: string)
    requires Clean(p) == p
    ensures p == Render(RootedOf(p), ElemsOf(p))
  {
    if p == "" {
    } else {
      assert p[0] == '/' <==> RootedOf(p);
    }
  }

  /** Rendering a longer stack extends the text of the shorter one. */
  lemma RenderAppend(rooted: bool, rs: seq<string>, es: seq<string>)
    requires |rs| >= 1 && |es| >= 1
    ensures Render(rooted, rs + es) == Render(rooted, rs) + "/" + Join(es, "/")
  {
    JoinAppend(rs, es, "/");
  }

  // ---------------------------------------------------------------------------
  // Join
  // ---------------------------------------------------------------------------

  /** Joining onto a non-empty base folds the second path's pieces onto the base's
      own clean stack. */
  lemma JoinPathResolve(base: string, x: string)
    requires base != ""
    ensures NoSlash(Split(x, '/'))
    ensures JoinPath(base, x) == Render(RootedOf(base), Resolve(RootedOf(base), ElemsOf(base), Split(x, '/')))
  {
    var q := base + "/" + x;
    assert q == base + ['/'] + x;
    assert q[0] == base[0];
    SplitAround(base, x, '/');
    ResolveAppend(RootedOf(base), [], Split(base, '/'), Split(x, '/'));
  }

  /** Joining a rooted clean path of proper elements onto a base puts those
      elements under the base's own elements. */
  lemma JoinRooted(base: string, es: seq<string>)
    requires base != "" && AllElems(es)
    ensures JoinPath(base, Render(true, es)) == Render(RootedOf(base), ElemsOf(base) + es)
  {
    var rb := RootedOf(base);
    JoinPathResolve(base, Render(true, es));
    var x := Render(true, es);
    assert x == "" + ['/'] + Join(es, "/");
    SplitAround("", Join(es, "/"), '/');
    StackAppendElems(rb, ElemsOf(base), es);
    if |es| == 0 {
      assert Split(x, '/') == ["", ""];
      assert Resolve(rb, ElemsOf(base), [""]) == ElemsOf(base);
      assert Resolve(rb, ElemsOf(base), ["", ""]) == Resolve(rb, ElemsOf(base), [""]);
      assert ElemsOf(base) + es == ElemsOf(base);
    } else {
      SplitJoin(es, '/');
      assert Split(x, '/') == [""] + es;
      assert ([""] + es)[1..] == es;
      ResolveStack(rb, ElemsOf(base), es);
    }
  }

  /** Joining a relative path of proper elements onto a base puts those elements
      under the base's own elements. */
  lemma JoinRelative(base: string, es: seq<string>)
    requires base != "" && AllElems(es)
    ensures JoinPath(base, Join(es, "/")) == Render(RootedOf(base), ElemsOf(base) + es)
  {
    var rb := RootedOf(base);
    JoinPathResolve(base, Join(es, "/"));
    StackAppendElems(rb, ElemsOf(base), es);
    if |es| == 0 {
      assert Split("", '/') == [""];
      assert Resolve(rb, ElemsOf(base), [""]) == ElemsOf(base);
      assert ElemsOf(base) + es == ElemsOf(base);
    } else {
      SplitJoin(es, '/');
      ResolveStack(rb, ElemsOf(base), es);
    }
  }

  // ---------------------------------------------------------------------------
  // Dir
  // ---------------------------------------------------------------------------

  lemma LastSlashAt(p: string, k: nat)
    requires k < |p| && p[k] == '/'
    requires forall j :: k < j < |p| ==> p[j] != '/'
    ensures LastIndexOf(p, '/') == k
  {
  }

  lemma NoLastSlash(p: string)
    requires '/' !in p
    ensures LastIndexOf(p, '/') == -1
  {
  }

  /** Cleaning a rendered non-root stack followed by one slash gives the stack back. */
  lemma CleanTrailingSlash(rooted: bool, st: seq<string>)
    requires IsStack(rooted, st)
    ensures Clean(Render(rooted, st) + "/") == Render(rooted, st)
  {
    var p := Render(rooted, st);
    RenderSplit(rooted, st);
    var q := p + "/";
    assert q == p + ['/'] + "";
    assert q[0] == p[0];
    SplitAround(p, "", '/');
    assert Split("", '/') == [""];
    ResolveAppend(rooted, [], Split(p, '/'), [""]);
  }

  /** filepath.Dir of a clean path drops its last element (the root and "." are
      their own parents). */
  lemma DirOfRender(rooted: bool, st: seq<string>)
    requires IsStack(rooted, st)
    ensures Dir(Render(rooted, st)) == Render(rooted, DropLast(st))
  {
    if |st| == 0 {
      DirOfEmpty(rooted);
    } else if |st| == 1 {
      DirOfSingle(rooted, st);
    } else {
      DirOfLonger(rooted, st);
    }
  }

  lemma DirOfEmpty(rooted: bool)
    ensures Dir(Render(rooted, [])) == Render(rooted, [])
  {
    var p := Render(rooted, []);
    if rooted {
      assert p == "/";
      LastSlashAt(p, 0);
      CleanRender(true, []);
    } else {
      assert p == ".";
      NoLastSlash(p);
    }
  }

  lemma DirOfSingle(rooted: bool, st: seq<string>)
    requires IsStack(rooted, st) && |st| == 1
    ensures Dir(Render(rooted, st)) == Render(rooted, [])
  {
    var p := Render(rooted, st);
    var last := st[0];
    assert '/' !in last;
    if rooted {
      assert p == "/" + last;
      LastSlashAt(p, 0);
      assert p[..1] == "/";
      CleanRender(true, []);
    } else {
      assert p == last;
      NoLastSlash(p);
    }
  }

  lemma DirOfLonger(rooted: bool, st: seq<string>)
    requires IsStack(rooted, st) && |st| >= 2
    ensures Dir(Render(rooted, st)) == Render(rooted, st[..|st| - 1])
  {
    var k := |st|;
    var init := st[..k - 1];
    var last := st[k - 1];
    assert st == init + [last];
    StackPrefix(rooted, st, k - 1);
    assert '/' !in last;
    JoinAppend(init, [last], "/");
    var p := Render(rooted, st);
    var pre := Render(rooted, init) + "/";
    assert p == pre + last;
    LastSlashAt(p, |pre| - 1);
    assert p[..|pre|] == pre;
    CleanTrailingSlash(rooted, init);
  }
}
