/** The sandboxed file system of honeytrap: lexical paths (Go's path/filepath on Unix) under a moving working
    directory. */
module SandboxPaths {
  import opened Options

  // ---- path/filepath ---------------------------------------------------------------------

  function Split(s: string): (r: seq<string>)
    ensures r != []
  {
    if s == "" then [""] else Prepend(s[0], Split(s[1..]))
  }

  function Prepend(c: char, r: seq<string>): (r': seq<string>)
    requires r != []
    ensures r' != []
  {
    if c == '/' then [""] + r else [[c] + r[0]] + r[1..]
  }

  function JoinSlash(cs: seq<string>): string {
    if cs == [] then "" else if |cs| == 1 then cs[0] else cs[0] + "/" + JoinSlash(cs[1..])
  }

  // Components are dropped, pushed or popped; ".." at the root of a rooted path goes nowhere.
  function Resolve(stack: seq<string>, cs: seq<string>, rooted: bool): seq<string>
    decreases |cs|
  {
    if cs == [] then stack
    else if cs[0] == "" || cs[0] == "." then Resolve(stack, cs[1..], rooted)
    else if cs[0] != ".." then Resolve(stack + [cs[0]], cs[1..], rooted)
    else if stack != [] && stack[|stack| - 1] != ".." then Resolve(stack[..|stack| - 1], cs[1..], rooted)
    else Resolve(if rooted then stack else stack + [".."], cs[1..], rooted)
  }

  predicate IsAbs(path: string) { path != "" && path[0] == '/' }

  function Clean(path: string): string {
    if IsAbs(path) then "/" + JoinSlash(Resolve([], Split(path), true))
    else
      var r := JoinSlash(Resolve([], Split(path), false));
      if r == "" then "." else r
  }

  function Join(a: string, b: string): string {
    if a != "" then Clean(a + "/" + b) else if b != "" then Clean(b) else ""
  }

  function Components(path: string): seq<string> { Resolve([], Split(path), IsAbs(path)) }

  function CommonPrefix(a: seq<string>, b: seq<string>): (n: nat)
    ensures n <= |a| && n <= |b|
  {
    if a == [] || b == [] || a[0] != b[0] then 0 else 1 + CommonPrefix(a[1..], b[1..])
  }

  function Ups(n: nat): seq<string> { seq(n, _ => "..") }

  function Rel(base: string, target: string): Option<string> {
    var (b, t) := (Clean(base), Clean(target));
    if b == t then Some(".")
    else if IsAbs(b) != IsAbs(t) then None
    else
      var (bs, ts) := (Components(b), Components(t));
      var n := CommonPrefix(bs, ts);
      if n < |bs| && bs[n] == ".." then None
      else Some(JoinSlash(Ups(|bs| - n) + ts[n..]))
  }

  // ---- Htfs ------------------------------------------------------------------------------

  datatype Stat = Missing | Directory | Other

  datatype Fs = Fs(root: string, cwd: string)

  function RealPath(f: Fs, path: string): string {
    Join(f.root, if IsAbs(path) then Clean(path) else Join(f.cwd, path))
  }

  // `lstat` is the host's answer for the real path; None is the error return.
  function ChangeDir(f: Fs, path: string, lstat: Stat): Option<Fs> {
    var rpath := RealPath(f, path);
    if lstat != Directory then None
    else match Rel(f.root, rpath)
      case None => None
      case Some(rel) => Some(f.(cwd := Join("/", rel)))
  }

  // A client's session: failed changes leave the directory as it is.
  function Session(f: Fs, steps: seq<(string, Stat)>): Fs {
    if steps == [] then f
    else
      var g := Session(f, steps[..|steps| - 1]);
      match ChangeDir(g, steps[|steps| - 1].0, steps[|steps| - 1].1) case Some(h) => h case None => g
  }

  // ---- Clean rooted paths ----------------------------------------------------------------

  predicate ProperName(c: string) { c != "" && c != "." && c != ".." && '/' !in c }

  ghost predicate Proper(cs: seq<string>) { forall i :: 0 <= i < |cs| ==> ProperName(cs[i]) }

  function Render(cs: seq<string>): string { "/" + JoinSlash(cs) }

  lemma PrependAppend(c: char, r: seq<string>, s: seq<string>)
    requires r != []
    ensures Prepend(c, r + s) == Prepend(c, r) + s
  {
  }

  lemma {:induction false} SplitAtSlash(a: string, b: string)
    ensures Split(a + "/" + b) == Split(a) + Split(b)
  {
    var t := a + "/" + b;
    if a == "" {
      assert t[1..] == b;
    } else {
      SplitAtSlash(a[1..], b);
      assert t[0] == a[0] && t[1..] == a[1..] + "/" + b;
      PrependAppend(a[0], Split(a[1..]), Split(b));
    }
  }

  lemma {:induction false} SplitPlain(s: string)
    requires '/' !in s
    ensures Split(s) == [s]
  {
    if s != "" {
      SplitPlain(s[1..]);
      assert [s[0]] + s[1..] == s;
    }
  }

  lemma {:induction false} SplitJoined(cs: seq<string>)
    requires Proper(cs) && cs != []
    ensures Split(JoinSlash(cs)) == cs
  {
    assert ProperName(cs[0]);
    SplitPlain(cs[0]);
    if |cs| > 1 {
      SplitJoined(cs[1..]);
      SplitAtSlash(cs[0], JoinSlash(cs[1..]));
    }
  }

  lemma {:induction false} ResolveAppend(stack: seq<string>, cs: seq<string>, ds: seq<string>, rooted: bool)
    ensures Resolve(stack, cs + ds, rooted) == Resolve(Resolve(stack, cs, rooted), ds, rooted)
    decreases |cs|
  {
    if cs == [] {
      assert cs + ds == ds;
    } else {
      assert (cs + ds)[1..] == cs[1..] + ds;
      if cs[0] == "" || cs[0] == "." { ResolveAppend(stack, cs[1..], ds, rooted); }
      else if cs[0] != ".." { ResolveAppend(stack + [cs[0]], cs[1..], ds, rooted); }
      else if stack != [] && stack[|stack| - 1] != ".." { ResolveAppend(stack[..|stack| - 1], cs[1..], ds, rooted); }
      else { ResolveAppend(if rooted then stack else stack + [".."], cs[1..], ds, rooted); }
    }
  }

  lemma {:induction false} ResolveProper(stack: seq<string>, cs: seq<string>)
    requires Proper(cs)
    ensures Resolve(stack, cs, true) == stack + cs
    decreases |cs|
  {
    if cs != [] {
      assert ProperName(cs[0]);
      ResolveProper(stack + [cs[0]], cs[1..]);
      assert stack + [cs[0]] + cs[1..] == stack + cs;
    } else {
      assert stack + [] == stack;
    }
  }

  // What a rooted resolution leaves is proper, whatever the components.
  lemma {:induction false} ResolveStaysProper(stack: seq<string>, cs: seq<string>)
    requires Proper(stack) && forall i :: 0 <= i < |cs| ==> '/' !in cs[i]
    ensures Proper(Resolve(stack, cs, true))
    decreases |cs|
  {
    if cs != [] {
      if cs[0] == "" || cs[0] == "." { ResolveStaysProper(stack, cs[1..]); }
      else if cs[0] != ".." { ResolveStaysProper(stack + [cs[0]], cs[1..]); }
      else if stack != [] && stack[|stack| - 1] != ".." { ResolveStaysProper(stack[..|stack| - 1], cs[1..]); }
      else { ResolveStaysProper(stack, cs[1..]); }
    }
  }

  lemma {:induction false} SplitHasNoSlash(s: string)
    ensures forall i :: 0 <= i < |Split(s)| ==> '/' !in Split(s)[i]
  {
    if s != "" { SplitHasNoSlash(s[1..]); }
  }

  // A rendered path splits into an empty component and the names it was rendered from.
  lemma ResolveRendered(stack: seq<string>, cs: seq<string>)
    requires Proper(cs)
    ensures Resolve(stack, Split(Render(cs)), true) == stack + cs
  {
    SplitAtSlash("", JoinSlash(cs));
    assert "" + "/" + JoinSlash(cs) == Render(cs);
    if cs == [] {
      assert Split(Render(cs)) == ["", ""];
      assert ["", ""][1..] == [""] && [""][1..] == [] && stack + [] == stack;
    } else {
      SplitJoined(cs);
      assert ([""] + cs)[1..] == cs;
      ResolveProper(stack, cs);
    }
  }

  /** Cleaning is the identity on clean rooted paths ... */
  lemma CleanRendered(cs: seq<string>)
    requires Proper(cs)
    ensures Clean(Render(cs)) == Render(cs) && Components(Render(cs)) == cs
  {
    ResolveRendered([], cs);
    assert [] + cs == cs;
  }

  /** ... and turns every absolute path into one. */
  lemma CleanAbsolute(path: string)
    requires IsAbs(path)
    ensures Proper(Components(path)) && Clean(path) == Render(Components(path))
  {
    SplitHasNoSlash(path);
    ResolveStaysProper([], Split(path));
  }

  // Joining anything to a clean rooted path resolves it from there.
  lemma JoinRendered(cs: seq<string>, path: string)
    requires Proper(cs)
    ensures var ds := Resolve(cs, Split(path), true); Proper(ds) && Join(Render(cs), path) == Render(ds)
  {
    SplitAtSlash(Render(cs), path);
    ResolveAppend([], Split(Render(cs)), Split(path), true);
    ResolveRendered([], cs);
    assert [] + cs == cs;
    SplitHasNoSlash(path);
    ResolveStaysProper(cs, Split(path));
  }

  // ---- The sandbox -----------------------------------------------------------------------

  // Root and working directory are clean and rooted.
  ghost predicate Sound(f: Fs, rs: seq<string>, cs: seq<string>) {
    Proper(rs) && Proper(cs) && f.root == Render(rs) && f.cwd == Render(cs)
  }

  // The names below the root a path leads to.
  function Inside(cs: seq<string>, path: string): seq<string> {
    if IsAbs(path) then Components(path) else Resolve(cs, Split(path), true)
  }

  lemma RealPathMeaning(f: Fs, rs: seq<string>, cs: seq<string>, path: string)
    requires Sound(f, rs, cs)
    ensures Proper(Inside(cs, path)) && RealPath(f, path) == Render(rs + Inside(cs, path))
  {
    var inner := Inside(cs, path);
    if IsAbs(path) { CleanAbsolute(path); } else { JoinRendered(cs, path); }
    JoinRendered(rs, Render(inner));
    ResolveRendered(rs, inner);
  }

  predicate AtOrBelow(path: string, root: string) {
    path == root || (root == "/" && IsAbs(path)) || (|root| < |path| && path[..|root|] == root && path[|root|] == '/')
  }

  lemma {:induction false} JoinSlashAppend(a: seq<string>, b: seq<string>)
    requires a != [] && b != []
    ensures JoinSlash(a + b) == JoinSlash(a) + "/" + JoinSlash(b)
  {
    if |a| == 1 {
      assert (a + b)[1..] == b;
    } else {
      JoinSlashAppend(a[1..], b);
      assert (a + b)[1..] == a[1..] + b;
    }
  }

  lemma RenderBelow(rs: seq<string>, cs: seq<string>)
    requires Proper(rs) && Proper(cs)
    ensures AtOrBelow(Render(rs + cs), Render(rs))
  {
    if rs == [] {
      assert rs + cs == cs;
    } else if cs == [] {
      assert rs + cs == rs;
    } else {
      JoinSlashAppend(rs, cs);
      var (a, b) := (JoinSlash(rs), JoinSlash(cs));
      assert "/" + (a + "/" + b) == ("/" + a) + "/" + b;
    }
  }

  /** For every path, absolute or not and with any number of dots, the real path is the root or below it. */
  lemma RealPathStaysInside(f: Fs, rs: seq<string>, cs: seq<string>, path: string)
    requires Sound(f, rs, cs)
    ensures AtOrBelow(RealPath(f, path), f.root)
  {
    RealPathMeaning(f, rs, cs, path);
    RenderBelow(rs, Inside(cs, path));
  }

  lemma {:induction false} PrefixIsCommon(a: seq<string>, b: seq<string>)
    ensures CommonPrefix(a, a + b) == |a|
  {
    if a != [] {
      PrefixIsCommon(a[1..], b);
      assert (a + b)[1..] == a[1..] + b;
    }
  }

  lemma {:induction false} RenderInjective(a: seq<string>, b: seq<string>)
    requires Proper(a) && Proper(b) && Render(a) == Render(b)
    ensures a == b
  {
    CleanRendered(a);
    CleanRendered(b);
  }

  lemma RelBelow(rs: seq<string>, cs: seq<string>)
    requires Proper(rs) && Proper(cs)
    ensures Rel(Render(rs), Render(rs + cs)) == Some(if cs == [] then "." else JoinSlash(cs))
  {
    CleanRendered(rs);
    CleanRendered(rs + cs);
    if cs == [] {
      assert rs + cs == rs;
    } else {
      if Render(rs) == Render(rs + cs) { RenderInjective(rs, rs + cs); }
      PrefixIsCommon(rs, cs);
      assert Ups(0) + (rs + cs)[|rs|..] == cs;
    }
  }

  lemma JoinBelowRoot(cs: seq<string>)
    requires Proper(cs)
    ensures Join("/", if cs == [] then "." else JoinSlash(cs)) == Render(cs)
  {
    var rel := if cs == [] then "." else JoinSlash(cs);
    assert Render([]) == "/";
    JoinRendered([], rel);
    if cs == [] {
      SplitPlain(".");
      assert ["."][1..] == [];
    } else {
      SplitJoined(cs);
      ResolveProper([], cs);
      assert [] + cs == cs;
    }
  }

  /** A change of directory succeeds exactly when the host has a directory there; the new working directory is
      clean and rooted, and "." then leads where the path led before. */
  lemma ChangeDirMeaning(f: Fs, rs: seq<string>, cs: seq<string>, path: string, lstat: Stat)
    requires Sound(f, rs, cs)
    ensures ChangeDir(f, path, lstat).Some? <==> lstat == Directory
    ensures lstat == Directory ==> var g := ChangeDir(f, path, lstat).value;
      Sound(g, rs, Inside(cs, path)) && RealPath(g, ".") == RealPath(f, path)
  {
    var inner := Inside(cs, path);
    RealPathMeaning(f, rs, cs, path);
    RelBelow(rs, inner);
    JoinBelowRoot(inner);
    if lstat == Directory {
      var g := ChangeDir(f, path, lstat).value;
      RealPathMeaning(g, rs, inner, ".");
      SplitPlain(".");
      assert ["."][1..] == [] && Resolve(inner, ["."], true) == inner;
    }
  }

  /** After any sequence of changes the working directory is clean and rooted, and no path leads outside. */
  lemma {:induction false} SessionStaysInside(f: Fs, rs: seq<string>, steps: seq<(string, Stat)>)
    returns (cs: seq<string>)
    requires Proper(rs) && f == Fs(Render(rs), "/")
    ensures Sound(Session(f, steps), rs, cs)
    ensures forall path :: AtOrBelow(RealPath(Session(f, steps), path), f.root)
  {
    if steps == [] {
      cs := [];
      assert Render([]) == "/";
    } else {
      var most, last := steps[..|steps| - 1], steps[|steps| - 1];
      var before := SessionStaysInside(f, rs, most);
      ChangeDirMeaning(Session(f, most), rs, before, last.0, last.1);
      cs := if last.1 == Directory then Inside(before, last.0) else before;
    }
    forall path ensures AtOrBelow(RealPath(Session(f, steps), path), f.root) {
      RealPathStaysInside(Session(f, steps), rs, cs, path);
    }
  }

  // ---- What a component does -------------------------------------------------------------

  // One step below the root: an empty component and "." stay, ".." goes up unless at the root, a name goes down.
  function Walk(names: seq<string>, c: string): seq<string> {
    if c == "" || c == "." then names
    else if c == ".." then (if names == [] then [] else names[..|names| - 1])
    else names + [c]
  }

  lemma ResolveOne(names: seq<string>, c: string)
    requires Proper(names)
    ensures Resolve(names, [c], true) == Walk(names, c)
  {
    assert [c][1..] == [];
    if names != [] { assert ProperName(names[|names| - 1]); }
  }

  lemma InsideOneMore(cs: seq<string>, path: string, c: string)
    requires Proper(cs) && Proper(Inside(cs, path)) && path != "" && '/' !in c
    ensures Inside(cs, path + "/" + c) == Walk(Inside(cs, path), c)
  {
    SplitAtSlash(path, c);
    SplitPlain(c);
    assert (path + "/" + c)[0] == path[0];
    ResolveAppend(if IsAbs(path) then [] else cs, Split(path), [c], true);
    ResolveOne(Inside(cs, path), c);
  }

  /** Every path, component by component: from the place a path leads to, one more component leads to that place,
      to the directory it is in (the root is in itself), or to the name inside it. */
  lemma RealPathWalks(f: Fs, rs: seq<string>, cs: seq<string>, path: string, c: string) returns (names: seq<string>)
    requires Sound(f, rs, cs) && path != "" && '/' !in c
    ensures RealPath(f, path) == Render(rs + names) && RealPath(f, path + "/" + c) == Render(rs + Walk(names, c))
  {
    names := Inside(cs, path);
    RealPathMeaning(f, rs, cs, path);
    RealPathMeaning(f, rs, cs, path + "/" + c);
    InsideOneMore(cs, path, c);
  }

  /** Where walking starts: the working directory for a relative path, the root for an absolute one. */
  lemma RealPathStarts(f: Fs, rs: seq<string>, cs: seq<string>, c: string)
    requires Sound(f, rs, cs) && '/' !in c
    ensures RealPath(f, c) == Render(rs + Walk(cs, c)) && RealPath(f, "/" + c) == Render(rs + Walk([], c))
  {
    RealPathMeaning(f, rs, cs, c);
    RealPathMeaning(f, rs, cs, "/" + c);
    SplitPlain(c);
    ResolveOne(cs, c);
    var p := "/" + c;
    assert p[1..] == c && Split(p) == [""] + [c];
    assert ([""] + [c])[1..] == [c];
    ResolveOne([], c);
  }

  /** From the working directory, ".." leads to the directory it is in, and to the root from the root; a name leads
      into it; and a name followed by ".." leads back to where the path before them led. */
  lemma UpAndDown(f: Fs, rs: seq<string>, cs: seq<string>, path: string, n: string)
    requires Sound(f, rs, cs) && path != "" && ProperName(n)
    ensures RealPath(f, "..") == Render(rs + if cs == [] then [] else cs[..|cs| - 1])
    ensures RealPath(f, n) == Render(rs + cs + [n])
    ensures RealPath(f, path + "/" + n + "/..") == RealPath(f, path)
  {
    RealPathStarts(f, rs, cs, "..");
    RealPathStarts(f, rs, cs, n);
    assert rs + (cs + [n]) == rs + cs + [n];
    DownAndBack(f, rs, cs, path, n, path + "/" + n);
  }

  lemma DownAndBack(f: Fs, rs: seq<string>, cs: seq<string>, path: string, n: string, down: string)
    requires Sound(f, rs, cs) && path != "" && ProperName(n) && down == path + "/" + n
    ensures RealPath(f, down + "/..") == RealPath(f, path)
  {
    var names := Inside(cs, path);
    RealPathMeaning(f, rs, cs, path);
    RealPathMeaning(f, rs, cs, down);
    InsideOneMore(cs, path, n);
    InsideOneMore(cs, down, "..");
    BackAgain(names, n);
    assert down + "/" + ".." == down + "/..";
    RealPathMeaning(f, rs, cs, down + "/..");
  }

  lemma BackAgain(names: seq<string>, n: string)
    requires ProperName(n)
    ensures Walk(Walk(names, n), "..") == names
  {
    assert (names + [n])[..|names|] == names;
  }

  /** A change of directory walks the same way, and the working directory is where it arrives. */
  lemma ChangeDirWalks(f: Fs, rs: seq<string>, cs: seq<string>, c: string)
    requires Sound(f, rs, cs) && '/' !in c
    ensures ChangeDir(f, c, Directory) == Some(Fs(f.root, Render(Walk(cs, c))))
    ensures ChangeDir(f, "/" + c, Directory) == Some(Fs(f.root, Render(Walk([], c))))
  {
    ChangeDirMeaning(f, rs, cs, c, Directory);
    ChangeDirMeaning(f, rs, cs, "/" + c, Directory);
    SplitPlain(c);
    ResolveOne(cs, c);
    var p := "/" + c;
    assert p[1..] == c && Split(p) == [""] + [c];
    assert ([""] + [c])[1..] == [c];
    ResolveOne([], c);
  }

  // ---- The object ------------------------------------------------------------------------

  class Htfs {
    const root: string
    var cwd: string

    ghost function View(): Fs
      reads this
    {
      Fs(root, cwd)
    }

    constructor (root: string)
      ensures View() == Fs(root, "/")
    {
      this.root, cwd := root, "/";
    }

    method ChangeDirectory(path: string, lstat: Stat) returns (ok: bool)
      modifies this
      ensures ok == ChangeDir(old(View()), path, lstat).Some?
      ensures View() == if ok then ChangeDir(old(View()), path, lstat).value else old(View())
    {
      var rpath := RealPath(Fs(root, cwd), path);
      if lstat != Directory { return false; }
      var rel := Rel(root, rpath);
      if rel.None? { return false; }
      cwd := Join("/", rel.value);
      return true;
    }
  }
}
