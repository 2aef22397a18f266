/** Conpot's file system: a cache of metadata kept beside a backing tree of paths. */
module CachedFs {
  import opened Options
  import opened Words

  datatype Node = Dir | File(content: seq<byte>)

  datatype Access = Access(perms: int, uid: int, gid: int)

  datatype Info = Info(isDir: bool, access: Access)

  datatype Error =
    | BadPath | ResourceNotFound | DirectoryExpected | DirectoryNotEmpty | FileExpected | RemoveRoot
    | FilesystemError | KeyError

  datatype Outcome = Ok | Raised(error: Error)

  // `native` is what the backing file system reports for a file it made itself.
  datatype Fs = Fs(tree: map<string, Node>, cache: map<string, Info>, users: set<int>, groups: set<int>,
                   defaults: Access, native: Access)

  // The path library's validatepath: an absolute normalised path, or a failure.
  type Validator = string -> Option<string>

  function NormPath(v: Validator, path: string): Option<string> {
    var p := if path == "." then "/" else path;
    if '/' in p then v(p) else v("/" + p)
  }

  predicate Under(path: string, dir: string) { |dir| + 1 < |path| && path[..|dir|] == dir && path[|dir|] == '/' }

  // Python's `needle in text`.
  predicate Contains(text: string, needle: string) { exists i :: 0 <= i <= |text| && OccursAt(text, needle, i) }

  predicate OccursAt(text: string, needle: string, i: nat) { i + |needle| <= |text| && text[i..i + |needle|] == needle }

  // The directory a normalised path is in.
  function Parent(path: string): string {
    if path == "" then "/"
    else if path[|path| - 1] == '/' then (if |path| == 1 then "/" else path[..|path| - 1])
    else Parent(path[..|path| - 1])
  }

  predicate IsDir(fs: Fs, p: string) { p in fs.tree && fs.tree[p].Dir? }
  predicate IsFile(fs: Fs, p: string) { p in fs.tree && fs.tree[p].File? }

  // ---- setinfo ---------------------------------------------------------------------------

  // The entry is made from the backing tree when it is missing; a path without a node raises.
  function SetInfo(fs: Fs, p: string, change: Access -> Access): (Fs, Outcome) {
    if p !in fs.tree then (fs, Raised(ResourceNotFound))
    else
      var info := if p in fs.cache then fs.cache[p] else Info(fs.tree[p].Dir?, fs.native);
      (fs.(cache := fs.cache[p := info.(access := change(info.access))]), Ok)
  }

  function Keep(): Access -> Access { a => a }
  function Owner(uid: int, gid: int): Access -> Access { (a: Access) => a.(uid := uid, gid := gid) }
  function Mode(perms: int): Access -> Access { (a: Access) => a.(perms := perms) }
  function All(access: Access): Access -> Access { _ => access }

  // ---- Directories and removal -----------------------------------------------------------

  // A recreating mkdir accepts an existing directory, and then opens it.
  function MakeNode(fs: Fs, p: string): (Fs, Outcome) {
    if p in fs.tree then (fs, if fs.tree[p].Dir? then Ok else Raised(DirectoryExpected))
    else if IsDir(fs, Parent(p)) then (fs.(tree := fs.tree[p := Dir]), Ok)
    else (fs, Raised(ResourceNotFound))
  }

  function MakeDir(v: Validator, fs: Fs, path: string, perms: Option<int>): (Fs, Outcome) {
    match NormPath(v, path)
    case None => (fs, Raised(BadPath))
    case Some(p) =>
      var (made, out) := MakeNode(fs, p);
      if out != Ok then (made, out)
      else
        var chosen := if perms.Some? && perms.value != 0 then perms.value else made.defaults.perms;
        SetInfo(made, p, All(made.defaults.(perms := chosen)))
  }

  predicate Empty(fs: Fs, p: string) { forall q :: q in fs.tree ==> !Under(q, p) }

  function Pop(fs: Fs, p: string): (Fs, Outcome) {
    if p in fs.cache then (fs.(cache := fs.cache - {p}), Ok) else (fs, Raised(KeyError))
  }

  // Everything below the directory goes, and every cache key with the path anywhere in it.
  function RemoveTree(fs: Fs, p: string): Fs {
    fs.(tree := map q | q in fs.tree && q != p && !Under(q, p) :: fs.tree[q],
        cache := map q | q in fs.cache && !Contains(q, p) :: fs.cache[q])
  }

  function RemoveDir(v: Validator, fs: Fs, path: string, force: bool): (Fs, Outcome) {
    match NormPath(v, path)
    case None => (fs, Raised(BadPath))
    case Some(p) =>
      if p == "/" then (fs, Raised(RemoveRoot))
      else if p !in fs.tree then (fs, Raised(ResourceNotFound))
      else if fs.tree[p].File? then (fs, Raised(DirectoryExpected))
      else if Empty(fs, p) then Pop(fs.(tree := fs.tree - {p}), p)
      else if force then (RemoveTree(fs, p), Ok)
      else (fs, Raised(DirectoryNotEmpty))
  }

  function Remove(v: Validator, fs: Fs, path: string): (Fs, Outcome) {
    match NormPath(v, path)
    case None => (fs, Raised(BadPath))
    case Some(p) =>
      if p !in fs.tree then (fs, Raised(ResourceNotFound))
      else if fs.tree[p].Dir? then (fs, Raised(FileExpected))
      else Pop(fs.(tree := fs.tree - {p}), p)
  }

  // ---- Files -----------------------------------------------------------------------------

  // Opening for writing creates or truncates.
  function OpenForWriting(fs: Fs, p: string): (Fs, Outcome) {
    if IsDir(fs, p) then (fs, Raised(FileExpected))
    else if p in fs.tree || IsDir(fs, Parent(p)) then (fs.(tree := fs.tree[p := File([])]), Ok)
    else (fs, Raised(ResourceNotFound))
  }

  // Closing a written file: fresh metadata, then the default owner and mode.
  function CloseWritten(fs: Fs, p: string, data: seq<byte>): Fs {
    fs.(tree := fs.tree[p := File(data)], cache := fs.cache[p := Info(false, fs.defaults)])
  }

  function WriteFile(v: Validator, fs: Fs, path: string, data: seq<byte>): (Fs, Outcome) {
    match NormPath(v, path)
    case None => (fs, Raised(BadPath))
    case Some(p) =>
      var (grown, out) := OpenForWriting(fs, p);
      if out != Ok then (grown, out) else (CloseWritten(grown, p, data), Ok)
  }

  // getinfo reads the cache, without normalising.
  function CachedInfo(fs: Fs, path: string): Option<Info> {
    var key := if path == "" || path[0] != '/' then "/" + path else path;
    if key in fs.cache then Some(fs.cache[key]) else None
  }

  // The source is read only after the destination was opened, hence truncated.
  function CopyData(fs: Fs, src: string, dst: string): (Fs, Outcome) {
    if src !in fs.tree then (fs, Raised(ResourceNotFound))
    else if fs.tree[src].Dir? then (fs, Raised(FileExpected))
    else
      var (grown, out) := OpenForWriting(fs, dst);
      if out != Ok then (SetInfo(grown, src, Keep()).0, out)
      else
        var written := CloseWritten(grown, dst, grown.tree[src].content);
        var (touched, _) := SetInfo(written, src, Keep());
        SetInfo(touched, dst, Keep())
  }

  function Copy(v: Validator, fs: Fs, src: string, dst: string): (Fs, Outcome) {
    match CachedInfo(fs, src)
    case None => (fs, Raised(FilesystemError))
    case Some(info) =>
      if info.isDir then (fs, Raised(FileExpected))
      else if NormPath(v, src).None? || NormPath(v, dst).None? then (fs, Raised(BadPath))
      else CopyData(fs, NormPath(v, src).value, NormPath(v, dst).value)
  }

  function Move(v: Validator, fs: Fs, src: string, dst: string): (Fs, Outcome) {
    var (copied, out) := Copy(v, fs, src, dst);
    if out != Ok then (copied, out) else Remove(v, copied, src)
  }

  // ---- Ownership and modes ---------------------------------------------------------------

  // `walk` is the order in which the walker yields what is below the directory. With `strict` a path that
  // is missing from the cache stops it.
  function SetEach(fs: Fs, walk: seq<string>, change: Access -> Access, strict: bool): (Fs, Outcome)
    decreases |walk|
  {
    if walk == [] then (fs, Ok)
    else if strict && walk[0] !in fs.cache then (fs, Raised(KeyError))
    else
      var (next, out) := SetInfo(fs, walk[0], change);
      if out != Ok then (next, out) else SetEach(next, walk[1..], change, strict)
  }

  function SetBelow(fs: Fs, p: string, walk: seq<string>, change: Access -> Access, strict: bool): (Fs, Outcome) {
    var (next, out) := if p == "/" then (fs, Ok) else SetInfo(fs, p, change);
    if out != Ok then (next, out) else SetEach(next, walk, change, strict)
  }

  function Chown(v: Validator, fs: Fs, path: string, uid: int, gid: int, recursive: bool, walk: seq<string>)
    : (Fs, Outcome)
  {
    match NormPath(v, path)
    case None => (fs, Raised(BadPath))
    case Some(p) =>
      if p !in fs.tree then (fs, Raised(FilesystemError))
      else if uid !in fs.users || gid !in fs.groups then (fs, Raised(KeyError))
      else if IsDir(fs, p) && recursive then SetBelow(fs, p, walk, Owner(uid, gid), true)
      else SetInfo(fs, p, Owner(uid, gid))
  }

  function Chmod(v: Validator, fs: Fs, path: string, perms: int, recursive: bool, walk: seq<string>): (Fs, Outcome) {
    match NormPath(v, path)
    case None => (fs, Raised(BadPath))
    case Some(p) =>
      if IsDir(fs, p) && recursive then SetBelow(fs, p, walk, Mode(perms), false)
      else SetInfo(fs, p, Mode(perms))
  }

  // ---- Runs ------------------------------------------------------------------------------

  datatype Op =
    | OpMakeDir(path: string, perms: Option<int>)
    | OpRemoveDir(path: string, force: bool)
    | OpRemove(path: string)
    | OpWrite(path: string, data: seq<byte>)
    | OpCopy(src: string, dst: string)
    | OpMove(src: string, dst: string)
    | OpChown(path: string, uid: int, gid: int, recursive: bool, walk: seq<string>)
    | OpChmod(path: string, mode: int, recursive: bool, walk: seq<string>)

  function Apply(v: Validator, fs: Fs, op: Op): (Fs, Outcome) {
    match op
    case OpMakeDir(p, perms) => MakeDir(v, fs, p, perms)
    case OpRemoveDir(p, force) => RemoveDir(v, fs, p, force)
    case OpRemove(p) => Remove(v, fs, p)
    case OpWrite(p, data) => WriteFile(v, fs, p, data)
    case OpCopy(src, dst) => Copy(v, fs, src, dst)
    case OpMove(src, dst) => Move(v, fs, src, dst)
    case OpChown(p, uid, gid, rec, walk) => Chown(v, fs, p, uid, gid, rec, walk)
    case OpChmod(p, perms, rec, walk) => Chmod(v, fs, p, perms, rec, walk)
  }

  function Run(v: Validator, fs: Fs, ops: seq<Op>): Fs {
    if ops == [] then fs else Apply(v, Run(v, fs, ops[..|ops| - 1]), ops[|ops| - 1]).0
  }

  // ---- No stale entries ------------------------------------------------------------------

  /** Every cached path exists in the tree, and is cached as the kind of node it is. */
  ghost predicate NoStale(fs: Fs) {
    forall p :: p in fs.cache ==> p in fs.tree && fs.cache[p].isDir == fs.tree[p].Dir?
  }

  lemma SetInfoKeeps(fs: Fs, p: string, change: Access -> Access)
    requires NoStale(fs)
    ensures var (t, _) := SetInfo(fs, p, change); NoStale(t) && t.tree == fs.tree && fs.cache.Keys <= t.cache.Keys
    ensures p in fs.tree ==> SetInfo(fs, p, change).0.cache.Keys == fs.cache.Keys + {p}
  {
  }

  lemma {:induction false} SetEachKeeps(fs: Fs, walk: seq<string>, change: Access -> Access, strict: bool)
    requires NoStale(fs)
    ensures var (t, _) := SetEach(fs, walk, change, strict);
      NoStale(t) && t.tree == fs.tree && fs.cache.Keys <= t.cache.Keys
    decreases |walk|
  {
    if walk != [] && !(strict && walk[0] !in fs.cache) {
      SetInfoKeeps(fs, walk[0], change);
      SetEachKeeps(SetInfo(fs, walk[0], change).0, walk[1..], change, strict);
    }
  }

  lemma SetBelowKeeps(fs: Fs, p: string, walk: seq<string>, change: Access -> Access, strict: bool)
    requires NoStale(fs)
    ensures var (t, _) := SetBelow(fs, p, walk, change, strict);
      NoStale(t) && t.tree == fs.tree && fs.cache.Keys <= t.cache.Keys
  {
    SetInfoKeeps(fs, p, change);
    SetEachKeeps(if p == "/" then fs else SetInfo(fs, p, change).0, walk, change, strict);
  }

  lemma UnderContains(q: string, p: string)
    requires Under(q, p) || q == p
    ensures Contains(q, p)
  {
    assert OccursAt(q, p, 0);
  }

  lemma RemoveTreeKeeps(fs: Fs, p: string)
    requires NoStale(fs)
    ensures NoStale(RemoveTree(fs, p))
  {
    forall q | q in RemoveTree(fs, p).cache ensures q != p && !Under(q, p) {
      if q == p || Under(q, p) { UnderContains(q, p); }
    }
  }

  lemma CopyDataKeeps(fs: Fs, src: string, dst: string)
    requires NoStale(fs)
    ensures NoStale(CopyData(fs, src, dst).0)
  {
    if IsFile(fs, src) {
      var (grown, out) := OpenForWriting(fs, dst);
      if out == Ok {
        assert NoStale(grown);
        var written := CloseWritten(grown, dst, grown.tree[src].content);
        SetInfoKeeps(written, src, Keep());
        SetInfoKeeps(SetInfo(written, src, Keep()).0, dst, Keep());
      } else {
        SetInfoKeeps(grown, src, Keep());
      }
    }
  }

  lemma RemoveKeeps(v: Validator, fs: Fs, path: string)
    requires NoStale(fs)
    ensures NoStale(Remove(v, fs, path).0)
  {
  }

  lemma RemoveDirKeeps(v: Validator, fs: Fs, path: string, force: bool)
    requires NoStale(fs)
    ensures NoStale(RemoveDir(v, fs, path, force).0)
  {
    if NormPath(v, path).Some? { RemoveTreeKeeps(fs, NormPath(v, path).value); }
  }

  lemma MakeDirKeeps(v: Validator, fs: Fs, path: string, perms: Option<int>)
    requires NoStale(fs)
    ensures NoStale(MakeDir(v, fs, path, perms).0)
  {
    if NormPath(v, path).Some? { assert NoStale(MakeNode(fs, NormPath(v, path).value).0); }
  }

  lemma CopyKeeps(v: Validator, fs: Fs, src: string, dst: string)
    requires NoStale(fs)
    ensures NoStale(Copy(v, fs, src, dst).0)
  {
    if NormPath(v, src).Some? && NormPath(v, dst).Some? {
      CopyDataKeeps(fs, NormPath(v, src).value, NormPath(v, dst).value);
    }
  }

  lemma ModesKeep(v: Validator, fs: Fs, op: Op)
    requires NoStale(fs) && (op.OpChown? || op.OpChmod?)
    ensures NoStale(Apply(v, fs, op).0)
  {
    if NormPath(v, op.path).Some? {
      var p := NormPath(v, op.path).value;
      var change := if op.OpChown? then Owner(op.uid, op.gid) else Mode(op.mode);
      SetBelowKeeps(fs, p, op.walk, change, op.OpChown?);
      SetInfoKeeps(fs, p, change);
    }
  }

  lemma ApplyKeeps(v: Validator, fs: Fs, op: Op)
    requires NoStale(fs)
    ensures NoStale(Apply(v, fs, op).0)
  {
    match op
    case OpMakeDir(p, perms) => MakeDirKeeps(v, fs, p, perms);
    case OpRemoveDir(p, force) => RemoveDirKeeps(v, fs, p, force);
    case OpRemove(p) => RemoveKeeps(v, fs, p);
    case OpWrite(p, data) =>
    case OpCopy(src, dst) => CopyKeeps(v, fs, src, dst);
    case OpMove(src, dst) => CopyKeeps(v, fs, src, dst); RemoveKeeps(v, Copy(v, fs, src, dst).0, src);
    case OpChown(_, _, _, _, _) => ModesKeep(v, fs, op);
    case OpChmod(_, _, _, _) => ModesKeep(v, fs, op);
  }

  /** Across every sequence of operations, failing ones included, no cache entry outlives its node. */
  lemma {:induction false} NoStaleEver(v: Validator, fs: Fs, ops: seq<Op>)
    requires NoStale(fs)
    ensures NoStale(Run(v, fs, ops))
  {
    if ops != [] {
      NoStaleEver(v, fs, ops[..|ops| - 1]);
      ApplyKeeps(v, Run(v, fs, ops[..|ops| - 1]), ops[|ops| - 1]);
    }
  }

  // ---- No missing entries ----------------------------------------------------------------

  /** Every path in the tree has its entry, so that ownership and mode are never lost. */
  ghost predicate Complete(fs: Fs) { forall p :: p in fs.tree ==> p in fs.cache }

  // A forced removal finds a path elsewhere whose text contains the directory's path.
  predicate HitsBystander(v: Validator, fs: Fs, op: Op) {
    op.OpRemoveDir? && op.force && NormPath(v, op.path).Some? &&
    var p := NormPath(v, op.path).value;
    p != "/" && IsDir(fs, p) && !Empty(fs, p) && exists q :: q in fs.tree && q != p && !Under(q, p) && Contains(q, p)
  }

  lemma RemoveTreeCompleteExactly(fs: Fs, p: string)
    requires Complete(fs)
    ensures Complete(RemoveTree(fs, p)) <==> forall q :: q in fs.tree && q != p && !Under(q, p) ==> !Contains(q, p)
  {
    var t := RemoveTree(fs, p);
    assert forall q :: q in t.tree <==> q in fs.tree && q != p && !Under(q, p);
  }

  lemma CopyDataComplete(fs: Fs, src: string, dst: string)
    requires Complete(fs)
    ensures Complete(CopyData(fs, src, dst).0)
  {
    if IsFile(fs, src) {
      var (grown, out) := OpenForWriting(fs, dst);
      if out == Ok {
        var written := CloseWritten(grown, dst, grown.tree[src].content);
        assert Complete(written);
        assert Complete(SetInfo(written, src, Keep()).0);
      }
    }
  }

  lemma MakeDirComplete(v: Validator, fs: Fs, path: string, perms: Option<int>)
    requires Complete(fs)
    ensures Complete(MakeDir(v, fs, path, perms).0)
  {
  }

  lemma CopyComplete(v: Validator, fs: Fs, src: string, dst: string)
    requires Complete(fs)
    ensures Complete(Copy(v, fs, src, dst).0)
  {
    if NormPath(v, src).Some? && NormPath(v, dst).Some? {
      CopyDataComplete(fs, NormPath(v, src).value, NormPath(v, dst).value);
    }
  }

  lemma ModesComplete(v: Validator, fs: Fs, op: Op)
    requires NoStale(fs) && Complete(fs) && (op.OpChown? || op.OpChmod?)
    ensures Complete(Apply(v, fs, op).0)
  {
    if NormPath(v, op.path).Some? {
      var p := NormPath(v, op.path).value;
      var change := if op.OpChown? then Owner(op.uid, op.gid) else Mode(op.mode);
      SetBelowKeeps(fs, p, op.walk, change, op.OpChown?);
      SetInfoKeeps(fs, p, change);
    }
  }

  lemma RemovalsComplete(v: Validator, fs: Fs, op: Op)
    requires NoStale(fs) && Complete(fs) && (op.OpRemove? || op.OpRemoveDir?)
    ensures Complete(Apply(v, fs, op).0) <==> !HitsBystander(v, fs, op)
    ensures Apply(v, fs, op).1 != Raised(KeyError)
  {
    if op.OpRemoveDir? && NormPath(v, op.path).Some? {
      RemoveTreeCompleteExactly(fs, NormPath(v, op.path).value);
    }
  }

  /** An operation on a complete cache leaves it complete, except exactly one: a forced removal of a non-empty
      directory drops the entries of all paths that contain the directory's path anywhere in their text. */
  lemma CompleteExactly(v: Validator, fs: Fs, op: Op)
    requires NoStale(fs) && Complete(fs)
    ensures Complete(Apply(v, fs, op).0) <==> !HitsBystander(v, fs, op)
  {
    match op
    case OpMakeDir(p, perms) => MakeDirComplete(v, fs, p, perms);
    case OpRemoveDir(_, _) => RemovalsComplete(v, fs, op);
    case OpRemove(_) => RemovalsComplete(v, fs, op);
    case OpWrite(_, _) =>
    case OpCopy(src, dst) => CopyComplete(v, fs, src, dst);
    case OpMove(src, dst) =>
      CopyComplete(v, fs, src, dst);
      CopyKeeps(v, fs, src, dst);
      RemovalsComplete(v, Copy(v, fs, src, dst).0, OpRemove(src));
    case OpChown(_, _, _, _, _) => ModesComplete(v, fs, op);
    case OpChmod(_, _, _, _) => ModesComplete(v, fs, op);
  }

  ghost predicate NoBystanders(v: Validator, fs: Fs, ops: seq<Op>) {
    ops == [] ||
    (NoBystanders(v, fs, ops[..|ops| - 1]) && !HitsBystander(v, Run(v, fs, ops[..|ops| - 1]), ops[|ops| - 1]))
  }

  /** Without such a removal, tree and cache name the same paths after every sequence of operations. */
  lemma {:induction false} CacheMirrorsTree(v: Validator, fs: Fs, ops: seq<Op>)
    requires NoStale(fs) && Complete(fs) && NoBystanders(v, fs, ops)
    ensures NoStale(Run(v, fs, ops)) && Run(v, fs, ops).cache.Keys == Run(v, fs, ops).tree.Keys
  {
    if ops != [] {
      CacheMirrorsTree(v, fs, ops[..|ops| - 1]);
      var t := Run(v, fs, ops[..|ops| - 1]);
      ApplyKeeps(v, t, ops[|ops| - 1]);
      CompleteExactly(v, t, ops[|ops| - 1]);
    }
  }

  /** What the lost entry leads to: removing "/a" makes a later removal of the file "/ab" raise a KeyError,
      after the file itself is gone. */
  lemma BystanderFailsLater(fs: Fs)
    requires fs.tree == map["/" := Dir, "/a" := Dir, "/a/x" := File([]), "/ab" := File([])]
    requires fs.cache.Keys == fs.tree.Keys
    ensures var v := (p: string) => Some(p);
      var (s, out1) := RemoveDir(v, fs, "/a", true); var (t, out2) := Remove(v, s, "/ab");
      out1 == Ok && out2 == Raised(KeyError) && "/ab" in s.tree && "/ab" !in t.tree
  {
    assert Under("/a/x", "/a");
    assert OccursAt("/ab", "/a", 0);
    assert !Under("/ab", "/a") && "/ab" != "/a";
  }

  // ---- Contents --------------------------------------------------------------------------

  /** A successful copy leaves the source's contents at the destination exactly when the two paths differ or the
      file was empty: opening the destination truncates it before the source is read. */
  lemma CopyCarriesExactly(v: Validator, fs: Fs, src: string, dst: string)
    requires Copy(v, fs, src, dst).1 == Ok
    ensures NormPath(v, src).Some? && NormPath(v, dst).Some?
    ensures var (s, d) := (NormPath(v, src).value, NormPath(v, dst).value); var t := Copy(v, fs, src, dst).0;
      && IsFile(fs, s) && d in t.tree
      && (t.tree[d] == fs.tree[s] <==> s != d || fs.tree[s] == File([]))
  {
  }

  /** A successful move carries the contents over exactly when the two paths differ; moving a file onto itself
      empties it and then removes it. */
  lemma MoveCarriesExactly(v: Validator, fs: Fs, src: string, dst: string)
    requires Move(v, fs, src, dst).1 == Ok
    ensures NormPath(v, src).Some? && NormPath(v, dst).Some?
    ensures var (s, d) := (NormPath(v, src).value, NormPath(v, dst).value); var t := Move(v, fs, src, dst).0;
      && IsFile(fs, s) && s !in t.tree
      && ((d in t.tree && t.tree[d] == fs.tree[s]) <==> s != d)
  {
  }

  // copy_files: chunk by chunk until a read returns nothing.
  method CopyFiles(source: seq<byte>, bufferSize: nat) returns (dest: seq<byte>)
    requires bufferSize > 0
    ensures dest == source
  {
    dest := [];
    var at := 0;
    while true
      invariant at <= |source| && dest == source[..at]
      decreases |source| - at
    {
      var chunk := if at + bufferSize <= |source| then source[at..at + bufferSize] else source[at..];
      if chunk == [] { break; }
      dest := dest + chunk;
      at := at + |chunk|;
    }
  }
}
