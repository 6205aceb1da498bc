/** Path resolution and the working directory of kernel/src/fs/mod.rs. */
module Path {
  type Parts = seq<string>

  // ---------- Splitting and joining ----------

  /** `s.split('/')` */
  function Split(s: string): (r: Parts)
    ensures |r| >= 1
  {
    if s == [] then [""]
    else if s[0] == '/' then [""] + Split(s[1..])
    else var r := Split(s[1..]); [[s[0]] + r[0]] + r[1..]
  }

  /** `parts.join("/")` */
  function Join(parts: Parts): string {
    if parts == [] then "" else if |parts| == 1 then parts[0] else parts[0] + "/" + Join(parts[1..])
  }

  function NonEmpty(parts: Parts): Parts {
    if parts == [] then [] else (if parts[0] == "" then [] else [parts[0]]) + NonEmpty(parts[1..])
  }

  /** `trim_start_matches('/')` */
  function TrimStart(s: string): string {
    if s != [] && s[0] == '/' then TrimStart(s[1..]) else s
  }

  predicate NoSlash(s: string) { forall i :: 0 <= i < |s| ==> s[i] != '/' }

  /** A component that names something. */
  predicate Plain(c: string) { c != "" && NoSlash(c) }

  predicate AllPlain(parts: Parts) { forall i :: 0 <= i < |parts| ==> Plain(parts[i]) }

  lemma {:induction false} SplitWord(c: string)
    requires NoSlash(c)
    ensures Split(c) == [c]
  {
    if c != [] {
      SplitWord(c[1..]);
      assert [c[0]] + c[1..] == c;
    }
  }

  /** A slash separates components wherever it stands. */
  lemma {:induction false} SplitConcat(a: string, b: string)
    ensures Split(a + "/" + b) == Split(a) + Split(b)
  {
    var s := a + "/" + b;
    if a == [] {
      assert s[1..] == b;
    } else {
      assert s[1..] == a[1..] + "/" + b;
      SplitConcat(a[1..], b);
    }
  }

  lemma {:induction false} SplitJoin(parts: Parts)
    requires AllPlain(parts) && parts != []
    ensures Split(Join(parts)) == parts
  {
    if |parts| == 1 {
      SplitWord(parts[0]);
    } else {
      SplitConcat(parts[0], Join(parts[1..]));
      SplitWord(parts[0]);
      SplitJoin(parts[1..]);
    }
  }

  lemma {:induction false} SplitNoSlash(s: string)
    ensures forall i :: 0 <= i < |Split(s)| ==> NoSlash(Split(s)[i])
  {
    if s != [] {
      SplitNoSlash(s[1..]);
    }
  }

  lemma {:induction false} NonEmptyPlain(parts: Parts)
    requires forall i :: 0 <= i < |parts| ==> NoSlash(parts[i])
    ensures AllPlain(NonEmpty(parts))
  {
    if parts != [] {
      NonEmptyPlain(parts[1..]);
    }
  }

  lemma {:induction false} NonEmptyKeeps(parts: Parts)
    requires AllPlain(parts)
    ensures NonEmpty(parts) == parts
  {
    if parts != [] {
      NonEmptyKeeps(parts[1..]);
    }
  }

  // ---------- resolve ----------

  /** One component: "." and "" stay, ".." goes up, anything else goes down. */
  function Enter(parts: Parts, c: string): Parts {
    if c == "" || c == "." then parts
    else if c == ".." then if parts == [] then [] else parts[..|parts| - 1]
    else parts + [c]
  }

  function Walk(parts: Parts, cs: Parts): Parts
    decreases |cs|
  {
    if cs == [] then parts else Enter(Walk(parts, cs[..|cs| - 1]), cs[|cs| - 1])
  }

  predicate Absolute(s: string) { s != [] && s[0] == '/' }

  /** Where the walk begins. */
  function Base(cwd: string, arg: string): Parts {
    if Absolute(arg) || cwd == "/" then [] else NonEmpty(Split(TrimStart(cwd)))
  }

  function Render(parts: Parts): (s: string)
    ensures Absolute(s)
  {
    "/" + Join(parts)
  }

  function Resolve(cwd: string, arg: string): (s: string)
    ensures Absolute(s)
  {
    Render(Walk(Base(cwd, arg), if arg == [] then [] else Split(arg)))
  }

  lemma WalkNext(parts: Parts, cs: Parts, i: nat)
    requires i < |cs|
    ensures Walk(parts, cs[..i + 1]) == Enter(Walk(parts, cs[..i]), cs[i])
  {
    assert cs[..i + 1][..i] == cs[..i];
  }

  /** The source's loop over the components. */
  method ResolvePath(cwd: string, arg: string) returns (s: string)
    ensures s == Resolve(cwd, arg)
  {
    hide Split, NonEmpty, TrimStart, Walk;
    NoSteps(Base(cwd, arg));
    var parts := if Absolute(arg) || cwd == "/" then [] else NonEmpty(Split(TrimStart(cwd)));
    if arg != [] {
      var cs := Split(arg);
      var i := 0;
      while i < |cs|
        invariant 0 <= i <= |cs| && parts == Walk(Base(cwd, arg), cs[..i])
      {
        WalkNext(Base(cwd, arg), cs, i);
        var c := cs[i];
        if c == "" || c == "." {
        } else if c == ".." {
          if parts != [] {
            parts := parts[..|parts| - 1];
          }
        } else {
          parts := parts + [c];
        }
        i := i + 1;
      }
      assert cs[..|cs|] == cs;
    }
    if parts == [] {
      s := "/";
    } else {
      s := "/" + Join(parts);
    }
  }

  // ---------- Canonical paths ----------

  /** Absolute, with no empty, "." or ".." component; the root is "/". */
  ghost predicate Canonical(p: string) {
    Absolute(p) && (p == "/" || forall i :: 0 <= i < |Split(p[1..])| ==> Proper(Split(p[1..])[i]))
  }

  predicate Proper(c: string) { c != "" && c != "." && c != ".." }

  ghost predicate AllProper(parts: Parts) { forall i :: 0 <= i < |parts| ==> Plain(parts[i]) && Proper(parts[i]) }

  /** The components of a canonical path. */
  function PartsOf(p: string): Parts
    requires Absolute(p)
  {
    if p == "/" then [] else Split(p[1..])
  }

  lemma RenderCanonical(parts: Parts)
    requires AllProper(parts)
    ensures Canonical(Render(parts)) && PartsOf(Render(parts)) == parts
  {
    if parts != [] {
      SplitJoin(parts);
      assert Render(parts)[1..] == Join(parts);
      JoinNonEmpty(parts);
    }
  }

  lemma JoinNonEmpty(parts: Parts)
    requires parts != [] && AllPlain(parts)
    ensures Join(parts) != ""
  {
  }

  lemma CanonicalParts(p: string)
    requires Canonical(p)
    ensures AllProper(PartsOf(p)) && Render(PartsOf(p)) == p
  {
    if p != "/" {
      SplitNoSlash(p[1..]);
      JoinSplit(p[1..]);
    }
  }

  lemma {:induction false} JoinSplit(s: string)
    ensures Join(Split(s)) == s
  {
    if s != [] {
      JoinSplit(s[1..]);
      var r := Split(s[1..]);
      if s[0] == '/' {
        assert Split(s)[1..] == r;
      } else {
        assert Split(s)[1..] == r[1..];
      }
    }
  }

  /** A path made of plain components, read back as a working directory. */
  lemma BaseOfRendered(parts: Parts, arg: string)
    requires AllPlain(parts) && !Absolute(arg)
    ensures Base(Render(parts), arg) == parts
  {
    var p := Render(parts);
    if parts != [] {
      JoinNonEmpty(parts);
      FirstNotSlash(parts);
      assert p[1..] == Join(parts);
      assert TrimStart(p) == TrimStart(p[1..]) == Join(parts);
      SplitJoin(parts);
      NonEmptyKeeps(parts);
    }
  }

  lemma FirstNotSlash(parts: Parts)
    requires parts != [] && AllPlain(parts)
    ensures Join(parts) != "" && Join(parts)[0] != '/'
  {
    assert Plain(parts[0]);
  }

  lemma {:induction false} WalkPlain(parts: Parts, cs: Parts)
    requires AllPlain(parts) && forall i :: 0 <= i < |cs| ==> NoSlash(cs[i])
    ensures AllPlain(Walk(parts, cs))
    decreases |cs|
  {
    if cs != [] {
      WalkPlain(parts, cs[..|cs| - 1]);
    }
  }

  lemma {:induction false} WalkProper(parts: Parts, cs: Parts)
    requires AllProper(parts) && forall i :: 0 <= i < |cs| ==> NoSlash(cs[i])
    ensures AllProper(Walk(parts, cs))
    decreases |cs|
  {
    if cs != [] {
      WalkProper(parts, cs[..|cs| - 1]);
    }
  }

  lemma {:induction false} WalkConcat(parts: Parts, a: Parts, b: Parts)
    ensures Walk(parts, a + b) == Walk(Walk(parts, a), b)
    decreases |b|
  {
    if b == [] {
      assert a + b == a;
    } else {
      var n := |b| - 1;
      assert (a + b)[..|a + b| - 1] == a + b[..n];
      WalkConcat(parts, a, b[..n]);
    }
  }

  /** Proper components only go down. */
  lemma {:induction false} WalkDown(parts: Parts, cs: Parts)
    requires AllProper(cs)
    ensures Walk(parts, cs) == parts + cs
    decreases |cs|
  {
    if cs != [] {
      var n := |cs| - 1;
      WalkDown(parts, cs[..n]);
      assert parts + cs == parts + cs[..n] + [cs[n]];
    }
  }

  lemma BasePlain(cwd: string, arg: string)
    ensures AllPlain(Base(cwd, arg))
  {
    SplitNoSlash(TrimStart(cwd));
    NonEmptyPlain(Split(TrimStart(cwd)));
  }

  // ---------- What resolve promises ----------

  /** From a canonical directory every argument leads to a canonical path. */
  lemma ResolveCanonical(cwd: string, arg: string)
    requires Canonical(cwd)
    ensures Canonical(Resolve(cwd, arg))
  {
    hide Canonical, Split, Walk;
    CanonicalParts(cwd);
    var parts := PartsOf(cwd);
    if !Absolute(arg) {
      BaseOfRendered(parts, arg);
    }
    SplitNoSlash(arg);
    WalkProper(Base(cwd, arg), if arg == [] then [] else Split(arg));
    RenderCanonical(Walk(Base(cwd, arg), if arg == [] then [] else Split(arg)));
  }

  /** A canonical path resolves to itself, from anywhere: resolving a result again changes nothing. */
  lemma ResolveFixed(cwd: string, p: string)
    requires Canonical(p)
    ensures Resolve(cwd, p) == p
  {
    hide Canonical, Split, Walk;
    CanonicalParts(p);
    if p == "/" {
      RootWalk(cwd);
    } else {
      var cs := PartsOf(p);
      assert p == "" + "/" + p[1..];
      SplitConcat("", p[1..]);
      SplitWord("");
      WalkConcat([], [""], cs);
      EnterEmpty([]);
      WalkDown([], cs);
      assert [] + cs == cs;
      assert Split(p) == [""] + cs;
    }
  }

  lemma EnterEmpty(parts: Parts)
    ensures Walk(parts, [""]) == parts
  {
  }

  lemma RootWalk(cwd: string)
    ensures Resolve(cwd, "/") == "/"
  {
    assert Split("/") == ["", ""];
    assert Walk([], [""]) == [];
    assert ["", ""][..1] == [""];
  }

  /** Going to `a` and then to a relative `b` is going to `a/b`, from any directory. */
  lemma ResolveTwice(cwd: string, a: string, b: string)
    requires a != "" && !Absolute(b)
    ensures Resolve(Resolve(cwd, a), b) == Resolve(cwd, a + "/" + b)
  {
    hide Split, Walk, Render, NonEmpty;
    var base := Base(cwd, a);
    BasePlain(cwd, a);
    SplitNoSlash(a);
    WalkPlain(base, Split(a));
    var parts := Walk(base, Split(a));
    BaseOfRendered(parts, b);
    SplitConcat(a, b);
    WalkConcat(base, Split(a), Split(b));
    var ab := a + "/" + b;
    assert ab != "" && Resolve(cwd, ab) == Render(Walk(base, Split(ab)));
    assert Resolve(cwd, a) == Render(parts);
    if b == "" {
      SplitWord("");
      EnterEmpty(parts);
      NoSteps(parts);
    }
  }

  lemma NoSteps(parts: Parts)
    ensures Walk(parts, []) == parts
  {
  }

  /** A component that is neither empty, "." nor "..", and holds no slash. */
  predicate Name(c: string) { c != "" && c != "." && c != ".." && NoSlash(c) }

  /** One step down: the name is appended, behind a slash unless the directory is the root. */
  lemma ResolveDown(cwd: string, c: string)
    requires Canonical(cwd) && Name(c)
    ensures Resolve(cwd, c) == if cwd == "/" then "/" + c else cwd + "/" + c
  {
    hide Canonical, Split, Walk;
    CanonicalParts(cwd);
    var parts := PartsOf(cwd);
    BaseOfRendered(parts, c);
    SplitWord(c);
    WalkDown(parts, [c]);
    JoinMore(parts, c);
    EmptyRoot(cwd);
  }

  lemma EmptyRoot(p: string)
    requires Absolute(p)
    ensures PartsOf(p) == [] <==> p == "/"
  {
  }

  lemma {:induction false} JoinMore(parts: Parts, c: string)
    ensures Join(parts + [c]) == if parts == [] then c else Join(parts) + "/" + c
  {
    if |parts| == 1 {
      assert (parts + [c])[1..] == [c];
    } else if parts != [] {
      assert (parts + [c])[1..] == parts[1..] + [c];
      JoinMore(parts[1..], c);
    }
  }

  /** ".." undoes a step down, and stays at the root. */
  lemma ResolveUp(cwd: string, c: string)
    requires Canonical(cwd) && Name(c)
    ensures Resolve(Resolve(cwd, c), "..") == cwd && Resolve("/", "..") == "/"
  {
    hide Canonical, Split, Walk;
    CanonicalParts(cwd);
    var parts := PartsOf(cwd);
    BaseOfRendered(parts, c);
    SplitWord(c);
    WalkDown(parts, [c]);
    WalkPlain(parts, [c]);
    BaseOfRendered(parts + [c], "..");
    SplitWord("..");
    OneStep(parts + [c], "..");
    OneStep([], "..");
    assert (parts + [c])[..|parts|] == parts;
  }

  lemma OneStep(parts: Parts, c: string)
    ensures Walk(parts, [c]) == Enter(parts, c)
  {
    assert [c][..0] == [];
  }

  /** "." and the empty argument stay. */
  lemma ResolveStay(cwd: string)
    requires Canonical(cwd)
    ensures Resolve(cwd, ".") == cwd && Resolve(cwd, "") == cwd
  {
    hide Canonical, Split, Walk;
    CanonicalParts(cwd);
    var parts := PartsOf(cwd);
    BaseOfRendered(parts, ".");
    BaseOfRendered(parts, "");
    SplitWord(".");
    OneStep(parts, ".");
    NoSteps(parts);
  }

  /** An absolute argument is read from the root: the slash in front only says so. */
  lemma ResolveAbsolute(cwd: string, rest: string)
    requires !Absolute(rest)
    ensures Resolve(cwd, "/" + rest) == Resolve("/", rest)
  {
    hide Split, Walk;
    var arg := "/" + rest;
    assert arg == "" + "/" + rest;
    SplitConcat("", rest);
    SplitWord("");
    WalkConcat([], [""], Split(rest));
    EnterEmpty([]);
    if rest == "" {
      SplitWord("");
      NoSteps([]);
    }
  }

  /** `rel`: the path the file system is asked for. */
  function Rel(abs: string): string { TrimStart(abs) }

  lemma RelMeaning(p: string)
    requires Canonical(p)
    ensures "/" + Rel(p) == p && !Absolute(Rel(p)) && (Rel(p) == "" <==> p == "/")
  {
    hide Canonical, Split;
    CanonicalParts(p);
    var parts := PartsOf(p);
    if parts == [] {
      assert TrimStart("/") == TrimStart("/"[1..]);
    } else {
      JoinNonEmpty(parts);
      FirstNotSlash(parts);
      assert p[1..] == Join(parts);
      assert TrimStart(p) == TrimStart(p[1..]) == Join(parts);
    }
  }

  // ---------- The working directory ----------

  datatype Mount = Mount(mounted: bool, opens: bool)

  class WorkingDir {
    /** The static CWD; empty until `Init`. */
    var stored: string

    ghost predicate Valid() reads this {
      stored == "" || Canonical(stored)
    }

    constructor ()
      ensures Valid() && stored == ""
    {
      stored := "";
    }

    method Init()
      modifies this
      ensures Valid() && stored == "/"
    {
      stored := "/";
    }

    /** `cwd` */
    function Cwd(): string reads this {
      if stored == "" then "/" else stored
    }

    /** `chdir`; `fs` tells whether a file system is mounted and whether it opened the directory. */
    method Chdir(path: string, fs: Mount) returns (ok: bool)
      requires Valid()
      modifies this
      ensures Valid() && ok == (fs.mounted && (Rel(Resolve(old(Cwd()), path)) == "" || fs.opens))
      ensures stored == if ok then Resolve(old(Cwd()), path) else old(stored)
    {
      hide Canonical, Split, Resolve;
      var abs := ResolvePath(Cwd(), path);
      RootCanonical();
      ResolveCanonical(Cwd(), path);
      if !fs.mounted || (Rel(abs) != "" && !fs.opens) {
        return false;
      }
      stored := abs;
      ok := true;
    }
  }

  lemma RootCanonical()
    ensures Canonical("/")
  {
  }

  /** The directory after a sequence of calls, each with its path and what the file system answered. */
  function CwdAfter(calls: seq<(string, Mount)>): string
    decreases |calls|
  {
    if calls == [] then "/" else
      var cwd, call := CwdAfter(calls[..|calls| - 1]), calls[|calls| - 1];
      if call.1.mounted && (Rel(Resolve(cwd, call.0)) == "" || call.1.opens) then Resolve(cwd, call.0) else cwd
  }

  /** In every reachable state the working directory is canonical. */
  lemma {:induction false} CwdCanonical(calls: seq<(string, Mount)>)
    ensures Canonical(CwdAfter(calls))
    decreases |calls|
  {
    hide Canonical, Resolve;
    if calls == [] {
      RootCanonical();
    } else {
      CwdCanonical(calls[..|calls| - 1]);
      ResolveCanonical(CwdAfter(calls[..|calls| - 1]), calls[|calls| - 1].0);
    }
  }
}
