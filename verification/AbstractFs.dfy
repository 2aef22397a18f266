/** The file system object, updating its cache and the backing tree in place, proved against CachedFs. */
module AbstractFs {
  import opened Options
  import opened Words
  import opened CachedFs

  class AbstractFs {
    const validate: Validator
    const defaults: Access
    const native: Access
    var tree: map<string, Node>
    var cache: map<string, Info>
    var users: set<int>
    var groups: set<int>

    ghost function View(): Fs
      reads this
    {
      Fs(tree, cache, users, groups, defaults, native)
    }

    // The file system after _initialize_fs: every node of the source mirrored and cached with the defaults.
    constructor (validate: Validator, source: map<string, Node>, defaults: Access, native: Access)
      ensures NoStale(View()) && Complete(View()) && tree == source && this.validate == validate
    {
      this.validate, this.defaults, this.native, tree := validate, defaults, native, source;
      cache := map p | p in source :: Info(source[p].Dir?, defaults);
      users, groups := {0}, {0};
    }

    method SetInfo(p: string, change: Access -> Access) returns (out: Outcome)
      modifies `cache
      ensures (View(), out) == CachedFs.SetInfo(old(View()), p, change)
    {
      if p !in tree { return Raised(ResourceNotFound); }
      if p !in cache { cache := cache[p := Info(tree[p].Dir?, native)]; }
      cache := cache[p := cache[p].(access := change(cache[p].access))];
      assert cache == old(cache)[p := cache[p]];
      return Ok;
    }

    method MakeDir(path: string, perms: Option<int>) returns (out: Outcome)
      modifies this
      ensures (View(), out) == CachedFs.MakeDir(validate, old(View()), path, perms)
    {
      var norm := NormPath(validate, path);
      if norm.None? { return Raised(BadPath); }
      var p := norm.value;
      if p !in tree {
        if !(Parent(p) in tree && tree[Parent(p)].Dir?) { return Raised(ResourceNotFound); }
        tree := tree[p := Dir];
      }
      if tree[p].File? { return Raised(DirectoryExpected); }
      var chosen := if perms.Some? && perms.value != 0 then perms.value else defaults.perms;
      out := SetInfo(p, All(defaults.(perms := chosen)));
    }

    method Pop(p: string) returns (out: Outcome)
      modifies `cache
      ensures (View(), out) == CachedFs.Pop(old(View()), p)
    {
      if p !in cache { return Raised(KeyError); }
      cache := cache - {p};
      return Ok;
    }

    // Pops the keys that contain the path, one by one.
    method PopContaining(p: string)
      modifies `cache
      ensures cache == map q | q in old(cache) && !Contains(q, p) :: old(cache)[q]
    {
      var files := set q | q in cache.Keys && Contains(q, p);
      ghost var all := files;
      while files != {}
        invariant files <= all && cache.Keys == old(cache).Keys - (all - files)
        invariant forall q :: q in cache ==> q in old(cache) && cache[q] == old(cache)[q]
        decreases |files|
      {
        var f :| f in files;
        files := files - {f};
        var out := Pop(f);
      }
      assert forall q :: q in cache <==> q in old(cache) && !Contains(q, p);
    }

    method RemoveDir(path: string, force: bool) returns (out: Outcome)
      modifies this
      ensures (View(), out) == CachedFs.RemoveDir(validate, old(View()), path, force)
    {
      var norm := NormPath(validate, path);
      if norm.None? { return Raised(BadPath); }
      var p := norm.value;
      if p == "/" { return Raised(RemoveRoot); }
      if p !in tree { return Raised(ResourceNotFound); }
      if tree[p].File? { return Raised(DirectoryExpected); }
      if forall q :: q in tree.Keys ==> !Under(q, p) {
        tree := tree - {p};
        out := Pop(p);
      } else if force {
        tree := map q | q in tree && q != p && !Under(q, p) :: tree[q];
        PopContaining(p);
        out := Ok;
      } else {
        out := Raised(DirectoryNotEmpty);
      }
    }

    method Remove(path: string) returns (out: Outcome)
      modifies this
      ensures (View(), out) == CachedFs.Remove(validate, old(View()), path)
    {
      var norm := NormPath(validate, path);
      if norm.None? { return Raised(BadPath); }
      var p := norm.value;
      if p !in tree { return Raised(ResourceNotFound); }
      if tree[p].Dir? { return Raised(FileExpected); }
      tree := tree - {p};
      out := Pop(p);
    }

    method OpenForWriting(p: string) returns (out: Outcome)
      modifies `tree
      ensures (View(), out) == CachedFs.OpenForWriting(old(View()), p)
    {
      if p in tree && tree[p].Dir? { return Raised(FileExpected); }
      if !(p in tree || (Parent(p) in tree && tree[Parent(p)].Dir?)) { return Raised(ResourceNotFound); }
      tree := tree[p := File([])];
      return Ok;
    }

    method CloseWritten(p: string, data: seq<byte>)
      modifies this
      ensures View() == CachedFs.CloseWritten(old(View()), p, data)
    {
      tree := tree[p := File(data)];
      cache := cache[p := Info(false, native)];
      cache := cache[p := Info(false, defaults)];
    }

    method WriteFile(path: string, data: seq<byte>) returns (out: Outcome)
      modifies this
      ensures (View(), out) == CachedFs.WriteFile(validate, old(View()), path, data)
    {
      var norm := NormPath(validate, path);
      if norm.None? { return Raised(BadPath); }
      out := OpenForWriting(norm.value);
      if out == Ok { CloseWritten(norm.value, data); }
    }

    method CopyData(src: string, dst: string) returns (out: Outcome)
      modifies this
      ensures (View(), out) == CachedFs.CopyData(old(View()), src, dst)
    {
      if src !in tree { return Raised(ResourceNotFound); }
      if tree[src].Dir? { return Raised(FileExpected); }
      out := OpenForWriting(dst);
      if out != Ok {
        var ignored := SetInfo(src, Keep());
        return;
      }
      var data := CopyFiles(tree[src].content, 1024 * 1024);
      CloseWritten(dst, data);
      var ignored := SetInfo(src, Keep());
      out := SetInfo(dst, Keep());
    }

    method Copy(src: string, dst: string) returns (out: Outcome)
      modifies this
      ensures (View(), out) == CachedFs.Copy(validate, old(View()), src, dst)
    {
      var info := CachedInfo(Fs(tree, cache, users, groups, defaults, native), src);
      if info.None? { return Raised(FilesystemError); }
      if info.value.isDir { return Raised(FileExpected); }
      var s, d := NormPath(validate, src), NormPath(validate, dst);
      if s.None? || d.None? { return Raised(BadPath); }
      out := CopyData(s.value, d.value);
    }

    method Move(src: string, dst: string) returns (out: Outcome)
      modifies this
      ensures (View(), out) == CachedFs.Move(validate, old(View()), src, dst)
    {
      out := Copy(src, dst);
      if out == Ok { out := Remove(src); }
    }

    method SetEach(walk: seq<string>, change: Access -> Access, strict: bool) returns (out: Outcome)
      modifies `cache
      ensures (View(), out) == CachedFs.SetEach(old(View()), walk, change, strict)
    {
      var i := 0;
      out := Ok;
      while i < |walk|
        invariant i <= |walk| && out == Ok
        invariant CachedFs.SetEach(old(View()), walk, change, strict)
            == CachedFs.SetEach(View(), walk[i..], change, strict)
      {
        if strict && walk[i] !in cache { return Raised(KeyError); }
        assert walk[i..][1..] == walk[i + 1..];
        out := SetInfo(walk[i], change);
        if out != Ok { return; }
        i := i + 1;
      }
    }

    method SetBelow(p: string, walk: seq<string>, change: Access -> Access, strict: bool) returns (out: Outcome)
      modifies `cache
      ensures (View(), out) == CachedFs.SetBelow(old(View()), p, walk, change, strict)
    {
      out := Ok;
      if p != "/" { out := SetInfo(p, change); }
      if out == Ok { out := SetEach(walk, change, strict); }
    }

    method Chown(path: string, uid: int, gid: int, recursive: bool, walk: seq<string>) returns (out: Outcome)
      modifies `cache
      ensures (View(), out) == CachedFs.Chown(validate, old(View()), path, uid, gid, recursive, walk)
    {
      var norm := NormPath(validate, path);
      if norm.None? { return Raised(BadPath); }
      var p := norm.value;
      if p !in tree { return Raised(FilesystemError); }
      if uid !in users || gid !in groups { return Raised(KeyError); }
      if tree[p].Dir? && recursive {
        out := SetBelow(p, walk, Owner(uid, gid), true);
      } else {
        out := SetInfo(p, Owner(uid, gid));
      }
    }

    method Chmod(path: string, mode: int, recursive: bool, walk: seq<string>) returns (out: Outcome)
      modifies `cache
      ensures (View(), out) == CachedFs.Chmod(validate, old(View()), path, mode, recursive, walk)
    {
      var norm := NormPath(validate, path);
      if norm.None? { return Raised(BadPath); }
      var p := norm.value;
      if p in tree && tree[p].Dir? && recursive {
        out := SetBelow(p, walk, Mode(mode), false);
      } else {
        out := SetInfo(p, Mode(mode));
      }
    }
  }
}
