/*
 * The FUSE operations of vramfs over the metadata index: getattr, readdir,
 * open and read. Each one resolves its path with `IndexFind` and decides what
 * to report from the result; a negative result is returned to FUSE unchanged.
 */
module Dispatcher {
  import opened PathIndex

  // Linux <sys/stat.h> and <fcntl.h> values.
  const S_IFDIR: bv32 := 0x4000
  const S_IFREG: bv32 := 0x8000
  const O_ACCMODE: bv32 := 3
  const O_RDONLY: bv32 := 0

  /** `S_IFDIR | 0755` */
  const DirMode: bv32 := S_IFDIR | 0x1ED
  /** `S_IFREG | 0444` */
  const FileMode: bv32 := S_IFREG | 0x124

  /** The fields of `struct stat` that getattr sets; every other field stays
      at the zero the buffer is cleared to. */
  datatype Stat = Stat(mode: bv32, nlink: int, uid: int, gid: int,
                       size: int, atime: int, mtime: int, ctime: int)

  const ZeroStat: Stat := Stat(0, 0, 0, 0, 0, 0, 0, 0)

  /** `vram_getattr`: `uid` and `gid` are the effective user and group of the
      process. On a positive entry the buffer is cleared and filled from the
      entry's row; otherwise the buffer is left as it was and the lookup
      result is returned. */
  method GetAttr(t: Index, queryReady: bool, path: string, uid: int, gid: int, stbuf: Stat)
    returns (code: int, st: Stat)
    ensures var e := Found(t, queryReady, path, All);
      if e > 0 then
        && code == 0
        && RowById(t, e).Some?
        && var row := RowById(t, e).value;
        && (if row.dir then st.mode == DirMode && st.nlink == 2
            else st.mode == FileMode && st.nlink == 1)
        && st.uid == uid && st.gid == gid
        && st.size == row.size && st.atime == row.atime
        && st.mtime == row.mtime && st.ctime == row.ctime
      else
        code == e && st == stbuf
    ensures queryReady && UniqueIds(t) && code == 0 && Resolve(t, path, All) > 0 ==>
      (st.mode == DirMode <==> Resolve(t, path, Directory) > 0)
  {
    var entry := IndexFind(t, queryReady, path, All);
    if entry > 0 {
      ResolvedIsRow(t, path);
      var row := RowById(t, entry).value;
      st := ZeroStat;
      if row.dir {
        st := st.(mode := DirMode, nlink := 2);
      } else {
        st := st.(mode := FileMode, nlink := 1);
      }
      st := st.(uid := uid, gid := gid, size := row.size,
                atime := row.atime, mtime := row.mtime, ctime := row.ctime);
      code := 0;
      if UniqueIds(t) {
        FilterByRow(t, path, Directory);
      }
    } else {
      code, st := entry, stbuf;
    }
  }

  /** Some row of `t` under `parent` is called `name`. */
  ghost predicate Listed(t: Index, parent: int, name: string) {
    exists row :: row in t && row.parent == parent && row.name == name
  }

  /** `SELECT name FROM entries WHERE parent = ?`: the names of the rows
      under `parent`, in scan order. */
  function Children(t: Index, parent: int): (names: seq<string>)
    ensures |names| <= |t|
    ensures forall i :: 0 <= i < |names| ==> Listed(t, parent, names[i])
  {
    if t == [] then []
    else
      var init, last := t[..|t| - 1], t[|t| - 1];
      var earlier := Children(init, parent);
      assert t == init + [last];
      ExtendListed(init, last, parent, earlier);
      earlier + (if last.parent == parent then [last.name] else [])
  }

  /** Appending a row keeps every listed name backed by a row under `parent`. */
  lemma ExtendListed(init: Index, last: Entry, parent: int, earlier: seq<string>)
    requires forall i :: 0 <= i < |earlier| ==> Listed(init, parent, earlier[i])
    ensures var names := earlier + (if last.parent == parent then [last.name] else []);
      forall i :: 0 <= i < |names| ==> Listed(init + [last], parent, names[i])
  {
    var names := earlier + (if last.parent == parent then [last.name] else []);
    forall i | 0 <= i < |names|
      ensures Listed(init + [last], parent, names[i])
    {
      if i < |earlier| {
        assert Listed(init, parent, earlier[i]);
        var row :| row in init && row.parent == parent && row.name == earlier[i];
        assert row in init + [last] && names[i] == earlier[i];
      } else {
        assert last in init + [last] && last.parent == parent && names[i] == last.name;
      }
    }
  }

  /** The listing holds exactly the names of the rows under `parent`. */
  lemma {:induction false} ChildrenMembers(t: Index, parent: int, name: string)
    ensures name in Children(t, parent) <==>
            exists row :: row in t && row.parent == parent && row.name == name
  {
    if t != [] {
      var init, last := t[..|t| - 1], t[|t| - 1];
      assert t == init + [last];
      ChildrenMembers(init, parent, name);
      if name in Children(init, parent) {
        var row :| row in init && row.parent == parent && row.name == name;
        assert row in t;
      }
    }
  }

  /** `vram_readdir`: on a directory, "." and ".." and then one name per row
      under it; otherwise nothing is listed and the lookup result is returned. */
  method Readdir(t: Index, queryReady: bool, path: string) returns (code: int, listing: seq<string>)
    ensures var e := Found(t, queryReady, path, Directory);
      if e > 0 then code == 0 && listing == [".", ".."] + Children(t, e)
      else code == e && listing == []
  {
    var entry := IndexFind(t, queryReady, path, Directory);
    if entry > 0 {
      listing := [".", ".."];
      var i := 0;
      while i < |t|
        invariant 0 <= i <= |t|
        invariant listing == [".", ".."] + Children(t[..i], entry)
      {
        assert t[..i + 1][..i] == t[..i];
        if t[i].parent == entry {
          listing := listing + [t[i].name];
        }
        i := i + 1;
      }
      assert t[..|t|] == t;
      code := 0;
    } else {
      code, listing := entry, [];
    }
  }

  /** On a fresh mount "/" is a directory with nothing under it, so its
      listing is "." and ".." alone. */
  lemma FreshRootListing(now: int)
    ensures Resolve(InitialIndex(now), "/", Directory) == RootEntry
    ensures Children(InitialIndex(now), RootEntry) == []
  {
    SeededRoot(now);
    var t := InitialIndex(now);
    assert t[..0] == [];
  }

  /** `vram_open`: a file may be opened for reading only; lookup errors are
      returned unchanged. */
  method Open(t: Index, queryReady: bool, path: string, flags: bv32) returns (code: int)
    ensures var e := Found(t, queryReady, path, File);
      && (e <= 0 ==> code == e)
      && (e > 0 ==> (code == 0 <==> flags & O_ACCMODE == O_RDONLY))
      && (e > 0 && code != 0 ==> code == -EACCES)
    ensures queryReady && UniqueIds(t) && Resolve(t, path, All) > 0 ==>
      && RowById(t, Resolve(t, path, All)).Some?
      && var row := RowById(t, Resolve(t, path, All)).value;
      && (code == 0 <==> !row.dir && flags & O_ACCMODE == O_RDONLY)
      && (row.dir ==> code == -EISDIR)
  {
    var entry := IndexFind(t, queryReady, path, File);
    if queryReady && UniqueIds(t) {
      FilterByRow(t, path, File);
    }
    if entry > 0 {
      if flags & O_ACCMODE == O_RDONLY {
        code := 0;
      } else {
        code := -EACCES;
      }
    } else {
      code := entry;
    }
  }

  /** The empty path is not refused: it resolves to the root's parent, 0,
      which is neither an entry nor an error, so getattr, readdir and open
      all return 0 for it without filling or listing anything. */
  lemma EmptyPathIsNotAnError(t: Index, filter: EntryFilter)
    ensures Found(t, true, "", filter) == 0
  {
  }

  /** `vram_read`: files have no content yet, so no byte is ever read. */
  function Read(path: string, size: nat, offset: int): (n: int)
    ensures n == 0
  {
    0
  }
}
