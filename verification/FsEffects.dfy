/** What the successful operations of Conpot's file system leave behind, in the tree and in the cache. */
module FsEffects {
  import opened Options
  import opened Words
  import opened CachedFs

  // What the cache says of a path, or would on first contact.
  function Known(fs: Fs, q: string): Info
    requires q in fs.tree || q in fs.cache
  {
    if q in fs.cache then fs.cache[q] else Info(fs.tree[q].Dir?, fs.native)
  }

  // The paths got their entries changed, and no others.
  ghost predicate OnlyChanged(fs: Fs, t: Fs, paths: set<string>, change: Access -> Access) {
    && t.(cache := fs.cache) == fs && t.cache.Keys == fs.cache.Keys + paths && paths <= fs.tree.Keys
    && (forall q :: q in paths ==> t.cache[q] == Known(fs, q).(access := change(Known(fs, q).access)))
    && (forall q :: q in fs.cache && q !in paths ==> t.cache[q] == fs.cache[q])
  }

  ghost predicate Idempotent(change: Access -> Access) { forall a :: change(change(a)) == change(a) }

  lemma ChangedTwice(fs: Fs, mid: Fs, t: Fs, a: set<string>, b: set<string>, change: Access -> Access)
    requires Idempotent(change) && OnlyChanged(fs, mid, a, change) && OnlyChanged(mid, t, b, change)
    ensures OnlyChanged(fs, t, a + b, change)
  {
  }

  lemma SetInfoMeaning(fs: Fs, p: string, change: Access -> Access)
    requires SetInfo(fs, p, change).1 == Ok
    ensures OnlyChanged(fs, SetInfo(fs, p, change).0, {p}, change)
  {
  }

  function Paths(walk: seq<string>): set<string> { set q | q in walk }

  lemma {:induction false} SetEachMeaning(fs: Fs, walk: seq<string>, change: Access -> Access, strict: bool)
    requires Idempotent(change) && SetEach(fs, walk, change, strict).1 == Ok
    ensures OnlyChanged(fs, SetEach(fs, walk, change, strict).0, Paths(walk), change)
    decreases |walk|
  {
    if walk != [] {
      var next := SetInfo(fs, walk[0], change).0;
      SetInfoMeaning(fs, walk[0], change);
      SetEachMeaning(next, walk[1..], change, strict);
      ChangedTwice(fs, next, SetEach(next, walk[1..], change, strict).0, {walk[0]}, Paths(walk[1..]), change);
      assert walk == [walk[0]] + walk[1..];
      assert Paths(walk) == {walk[0]} + Paths(walk[1..]);
    }
  }

  // What a change of owner or mode is about: the path, or with `recursive` a directory and all the walk yields; the
  // root itself is left out then.
  function Targets(fs: Fs, p: string, recursive: bool, walk: seq<string>): set<string> {
    if IsDir(fs, p) && recursive then (if p == "/" then {} else {p}) + Paths(walk) else {p}
  }

  lemma ModesMeaning(fs: Fs, p: string, recursive: bool, walk: seq<string>, change: Access -> Access, strict: bool,
                     r: (Fs, Outcome))
    requires Idempotent(change) && r.1 == Ok
    requires r == if IsDir(fs, p) && recursive then SetBelow(fs, p, walk, change, strict) else SetInfo(fs, p, change)
    ensures OnlyChanged(fs, r.0, Targets(fs, p, recursive, walk), change)
  {
    if IsDir(fs, p) && recursive {
      var next := if p == "/" then fs else SetInfo(fs, p, change).0;
      if p != "/" { SetInfoMeaning(fs, p, change); }
      SetEachMeaning(next, walk, change, strict);
      ChangedTwice(fs, next, r.0, if p == "/" then {} else {p}, Paths(walk), change);
    } else {
      SetInfoMeaning(fs, p, change);
    }
  }

  // The entries of the paths, with some access each, and everything else as before.
  ghost predicate Entries(fs: Fs, t: Fs, paths: set<string>) {
    && t.(cache := fs.cache) == fs && t.cache.Keys == fs.cache.Keys + paths && paths <= fs.tree.Keys
    && (forall q :: q in paths ==> t.cache[q].isDir == Known(fs, q).isDir)
    && (forall q :: q in fs.cache && q !in paths ==> t.cache[q] == fs.cache[q])
  }

  /** A successful chown gives the paths it is about the user and the group, for registered ones, and leaves their
      modes, all other entries and the tree alone. */
  lemma ChownMeaning(v: Validator, fs: Fs, path: string, uid: int, gid: int, recursive: bool, walk: seq<string>)
    requires Chown(v, fs, path, uid, gid, recursive, walk).1 == Ok
    ensures NormPath(v, path).Some? && uid in fs.users && gid in fs.groups
    ensures var t, paths := Chown(v, fs, path, uid, gid, recursive, walk).0,
                            Targets(fs, NormPath(v, path).value, recursive, walk);
      && Entries(fs, t, paths)
      && forall q :: q in paths ==> t.cache[q].access == Access(Known(fs, q).access.perms, uid, gid)
  {
    var r := Chown(v, fs, path, uid, gid, recursive, walk);
    ModesMeaning(fs, NormPath(v, path).value, recursive, walk, Owner(uid, gid), true, r);
  }

  /** A successful chmod gives the paths it is about the mode, and leaves their owners, all other entries and the
      tree alone. */
  lemma ChmodMeaning(v: Validator, fs: Fs, path: string, perms: int, recursive: bool, walk: seq<string>)
    requires Chmod(v, fs, path, perms, recursive, walk).1 == Ok
    ensures NormPath(v, path).Some?
    ensures var t, paths := Chmod(v, fs, path, perms, recursive, walk).0,
                            Targets(fs, NormPath(v, path).value, recursive, walk);
      && Entries(fs, t, paths)
      && forall q :: q in paths ==>
           t.cache[q].access == Access(perms, Known(fs, q).access.uid, Known(fs, q).access.gid)
  {
    var r := Chmod(v, fs, path, perms, recursive, walk);
    ModesMeaning(fs, NormPath(v, path).value, recursive, walk, Mode(perms), false, r);
  }

  /** makedir succeeds exactly on an existing directory or inside one; it leaves a directory there, with the default
      owner and the given mode (the default one for none or zero), and nothing else changed. */
  lemma MakeDirMeaning(v: Validator, fs: Fs, path: string, perms: Option<int>)
    requires NoStale(fs) && NormPath(v, path).Some?
    ensures var (t, out) := MakeDir(v, fs, path, perms); var p := NormPath(v, path).value;
      && (out == Ok <==> IsDir(fs, p) || (p !in fs.tree && IsDir(fs, Parent(p))))
      && (out == Ok ==>
            var mode := if perms == None || perms == Some(0) then fs.defaults.perms else perms.value;
            && t.tree == fs.tree[p := Dir]
            && t.cache == fs.cache[p := Info(true, Access(mode, fs.defaults.uid, fs.defaults.gid))])
      && (out != Ok ==> t == fs)
  {
    var p := NormPath(v, path).value;
    if IsDir(fs, p) { assert fs.tree[p := Dir] == fs.tree; }
  }

  /** A successful remove takes away one file and its entry. */
  lemma RemoveMeaning(v: Validator, fs: Fs, path: string)
    requires Remove(v, fs, path).1 == Ok
    ensures NormPath(v, path).Some?
    ensures var p, t := NormPath(v, path).value, Remove(v, fs, path).0;
      IsFile(fs, p) && t == fs.(tree := fs.tree - {p}, cache := fs.cache - {p})
  {
  }

  /** A successful removedir takes away a directory other than the root and all that is below it; unless it was
      empty this takes force, and then the cache loses every key that has the path in it. */
  lemma RemoveDirMeaning(v: Validator, fs: Fs, path: string, force: bool)
    requires RemoveDir(v, fs, path, force).1 == Ok
    ensures NormPath(v, path).Some?
    ensures var p, t := NormPath(v, path).value, RemoveDir(v, fs, path, force).0;
      && p != "/" && IsDir(fs, p)
      && t.tree.Keys == (set q | q in fs.tree && q != p && !Under(q, p))
      && (forall q :: q in t.tree ==> t.tree[q] == fs.tree[q])
      && (forall q :: q in t.cache ==> q in fs.cache && t.cache[q] == fs.cache[q])
      && ((exists q :: q in fs.tree && Under(q, p)) ==>
            force && forall q :: q in t.cache <==> q in fs.cache && !Contains(q, p))
      && ((forall q :: q in fs.tree ==> !Under(q, p)) ==> t.cache.Keys == fs.cache.Keys - {p})
  {
  }

  /** A successful write leaves a file with the data and the default owner and mode. */
  lemma WriteMeaning(v: Validator, fs: Fs, path: string, data: seq<byte>)
    requires WriteFile(v, fs, path, data).1 == Ok
    ensures NormPath(v, path).Some?
    ensures var p, t := NormPath(v, path).value, WriteFile(v, fs, path, data).0;
      && !IsDir(fs, p) && (p in fs.tree || IsDir(fs, Parent(p)))
      && t == fs.(tree := fs.tree[p := File(data)], cache := fs.cache[p := Info(false, fs.defaults)])
  {
    var p := NormPath(v, path).value;
    assert fs.tree[p := File([])][p := File(data)] == fs.tree[p := File(data)];
  }

  /** A successful copy between different paths changes the destination alone, and a move takes the source away. */
  lemma CopyMeaning(v: Validator, fs: Fs, src: string, dst: string)
    requires NoStale(fs) && Copy(v, fs, src, dst).1 == Ok
    ensures NormPath(v, src).Some? && NormPath(v, dst).Some?
    ensures var s, d, t := NormPath(v, src).value, NormPath(v, dst).value, Copy(v, fs, src, dst).0;
      s != d ==>
        && IsFile(fs, s) && t.tree == fs.tree[d := fs.tree[s]]
        && t.cache == fs.cache[s := Known(fs, s)][d := Info(false, fs.defaults)]
        && (Move(v, fs, src, dst).1 == Ok ==> Move(v, fs, src, dst).0.tree == fs.tree[d := fs.tree[s]] - {s})
  {
    var s, d := NormPath(v, src).value, NormPath(v, dst).value;
    if s != d {
      assert fs.tree[d := File([])][s] == fs.tree[s];
      assert fs.tree[d := File([])][d := fs.tree[s]] == fs.tree[d := fs.tree[s]];
    }
  }

  /** The directory of a path is the path without its last name. */
  lemma {:induction false} ParentMeaning(dir: string, name: string)
    requires '/' !in name
    ensures Parent(dir + "/" + name) == if dir == "" then "/" else dir
    decreases |name|
  {
    var path := dir + "/" + name;
    if name == "" {
      assert path[..|path| - 1] == dir;
    } else {
      assert path[..|path| - 1] == dir + "/" + name[..|name| - 1];
      assert path[|path| - 1] == name[|name| - 1];
      ParentMeaning(dir, name[..|name| - 1]);
    }
  }
}
