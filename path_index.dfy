/*
 * The metadata index of vramfs and its path resolver.
 *
 * The index is the `entries` table of an in-memory SQLite database; here it is
 * a sequence of rows in rowid order. A path is split the way
 * `std::getline(stream, part, '/')` splits it and resolved one component at a
 * time, starting from the sentinel parent of the root entry.
 */
module PathIndex {

  datatype Option<T> = None | Some(value: T)

  // Linux errno values; the dispatcher returns them negated.
  const ENOENT: int := 2
  const EAGAIN: int := 11
  const EACCES: int := 13
  const ENOTDIR: int := 20
  const EISDIR: int := 21

  /** Parent id of the root entry; no entry has this id. */
  const RootParent: int := 0
  /** Id of the root directory. */
  const RootEntry: int := 1
  /** Column default of `size`. */
  const DefaultSize: int := 4096

  /** One row of the `entries` table. */
  datatype Entry = Entry(id: int, parent: int, name: string, dir: bool,
                         size: int, atime: int, mtime: int, ctime: int)

  /** The `entries` table, in the order a scan of it meets the rows. */
  type Index = seq<Entry>

  datatype EntryFilter = All | Directory | File

  /** `id` is the primary key: no two rows share an id. */
  ghost predicate UniqueIds(t: Index) {
    forall i, j :: 0 <= i < j < |t| ==> t[i].id != t[j].id
  }

  /** Unique ids, and no two siblings share a name (which the schema itself
      does not enforce). */
  ghost predicate WellFormed(t: Index) {
    && UniqueIds(t)
    && (forall i, j :: 0 <= i < j < |t| ==> t[i].parent != t[j].parent || t[i].name != t[j].name)
  }

  /** The index right after `vram_init`: the table holds only the root row,
      whose parent and size are the column defaults and whose times are the
      clock reading `now`. */
  function InitialIndex(now: int): (t: Index)
    ensures WellFormed(t)
    ensures |t| == 1 && t[0].id == RootEntry && t[0].parent == RootParent
    ensures t[0].name == "" && t[0].dir
  {
    [Entry(RootEntry, RootParent, "", true, DefaultSize, now, now, now)]
  }

  /*
   * Path splitting
   */

  /** One call of `getline(stream, part, '/')` on the unread rest `s` of the
      stream: None when nothing is left (the call fails), otherwise the part
      before the first '/' (or before the end) and what remains after that '/'. */
  function GetLine(s: string): (r: Option<(string, string)>)
    ensures r.None? <==> s == []
    ensures r.Some? ==> '/' !in r.value.0
    ensures r.Some? ==> s == r.value.0 + "/" + r.value.1 || (s == r.value.0 && r.value.1 == [])
  {
    if s == [] then None
    else if s[0] == '/' then Some(([], s[1..]))
    else
      match GetLine(s[1..])
      case None => Some((s, []))
      case Some((part, rest)) => Some(([s[0]] + part, rest))
  }

  /** The parts that successive `getline` calls deliver for `path`. */
  function Components(path: string): (parts: seq<string>)
    ensures forall i :: 0 <= i < |parts| ==> '/' !in parts[i]
    ensures parts == [] <==> path == []
    decreases |path|
  {
    match GetLine(path)
    case None => []
    case Some((part, rest)) => [part] + Components(rest)
  }

  /** The parts joined back with '/' between them. */
  function Join(parts: seq<string>): string
    requires parts != []
  {
    if |parts| == 1 then parts[0] else parts[0] + "/" + Join(parts[1..])
  }

  /** `getline` stops at the first '/'. */
  lemma {:induction false} GetLineAt(part: string, rest: string)
    requires '/' !in part
    ensures GetLine(part + "/" + rest) == Some((part, rest))
  {
    var s := part + "/" + rest;
    if part == [] {
      assert s[1..] == rest;
    } else {
      assert s[1..] == part[1..] + "/" + rest;
      GetLineAt(part[1..], rest);
      assert [part[0]] + part[1..] == part;
    }
  }

  /** A text without '/' is read in a single part. */
  lemma {:induction false} GetLineWhole(part: string)
    requires part != [] && '/' !in part
    ensures GetLine(part) == Some((part, []))
  {
  }

  /** Splitting loses nothing but one trailing '/'. */
  lemma {:induction false} JoinComponents(path: string)
    requires path != []
    ensures path == Join(Components(path)) + (if path[|path| - 1] == '/' then "/" else "")
    decreases |path|
  {
    var (part, rest) := GetLine(path).value;
    if path == part + "/" + rest {
      if rest == [] {
        assert Components(path) == [part];
      } else {
        JoinComponents(rest);
        assert Components(path) == [part] + Components(rest);
        assert path[|path| - 1] == rest[|rest| - 1];
      }
    } else {
      assert Components(path) == [part];
    }
  }

  /** Joining parts and ending the text with '/' splits back into the parts,
      whatever they are (empty ones included). */
  lemma {:induction false} ComponentsJoin(parts: seq<string>)
    requires parts != []
    requires forall i :: 0 <= i < |parts| ==> '/' !in parts[i]
    ensures Components(Join(parts) + "/") == parts
  {
    if |parts| == 1 {
      GetLineAt(parts[0], []);
      assert parts[0] + "/" + [] == Join(parts) + "/";
    } else {
      ComponentsJoin(parts[1..]);
      var rest := Join(parts[1..]) + "/";
      assert Join(parts) + "/" == parts[0] + "/" + rest;
      GetLineAt(parts[0], rest);
    }
  }

  /** A trailing '/' adds no part unless the path already ends with '/'. */
  lemma {:induction false} TrailingSlashIgnored(path: string)
    requires path != [] && path[|path| - 1] != '/'
    ensures Components(path + "/") == Components(path)
    decreases |path|
  {
    var (part, rest) := GetLine(path).value;
    if path == part + "/" + rest {
      assert rest != [];
      assert path + "/" == part + "/" + (rest + "/");
      GetLineAt(part, rest + "/");
      TrailingSlashIgnored(rest);
    } else {
      assert path + "/" == part + "/" + [];
      GetLineAt(part, []);
    }
  }

  /** After a path that ends with '/', a non-empty name is one more part. */
  lemma {:induction false} AppendName(path: string, name: string)
    requires path != [] && path[|path| - 1] == '/'
    requires name != [] && '/' !in name
    ensures Components(path + name) == Components(path) + [name]
    decreases |path|
  {
    var (part, rest) := GetLine(path).value;
    assert path == part + "/" + rest;
    assert path + name == part + "/" + (rest + name);
    GetLineAt(part, rest + name);
    assert Components(path + name) == [part] + Components(rest + name);
    assert Components(path) == [part] + Components(rest);
    if rest == [] {
      assert rest + name == name;
      GetLineWhole(name);
      assert Components(name) == [name];
    } else {
      AppendName(rest, name);
    }
  }

  /** The path of a child entry: the parent's path, a '/' unless it already
      ends with one, and the child's name. */
  function ChildPath(path: string, name: string): string
    requires path != []
  {
    if path[|path| - 1] == '/' then path + name else path + "/" + name
  }

  lemma ChildPathComponents(path: string, name: string)
    requires path != []
    requires name != [] && '/' !in name
    ensures Components(ChildPath(path, name)) == Components(path) + [name]
  {
    if path[|path| - 1] == '/' {
      AppendName(path, name);
    } else {
      TrailingSlashIgnored(path);
      AppendName(path + "/", name);
    }
  }

  /** How `getline` treats the paths with a special shape. */
  lemma SplitCases()
    ensures Components("") == []
    ensures Components("/") == [""]
    ensures Components("/a/") == ["", "a"]
    ensures Components("a//b") == ["a", "", "b"]
  {
    assert "/" == [] + "/" + [];
    GetLineAt([], []);
    assert "/a/" == [] + "/" + "a/";
    GetLineAt([], "a/");
    assert "a/" == "a" + "/" + [];
    GetLineAt("a", []);
    assert "a//b" == "a" + "/" + "/b";
    GetLineAt("a", "/b");
    assert "/b" == [] + "/" + "b";
    GetLineAt([], "b");
    GetLineWhole("b");
  }

  /*
   * Queries against the table
   */

  /** `SELECT id, dir FROM entries WHERE parent = ? AND name = ? LIMIT 1`:
      the first row in scan order with that parent and name. */
  function Lookup(t: Index, parent: int, name: string): (r: Option<Entry>)
    ensures r.Some? ==> r.value in t && r.value.parent == parent && r.value.name == name
    ensures r.None? <==> forall row :: row in t ==> row.parent != parent || row.name != name
  {
    if t == [] then None
    else if t[0].parent == parent && t[0].name == name then Some(t[0])
    else Lookup(t[1..], parent, name)
  }

  /** In a well-formed table the row a lookup finds is the only one. */
  lemma LookupUnique(t: Index, row: Entry)
    requires WellFormed(t) && row in t
    ensures Lookup(t, row.parent, row.name) == Some(row)
  {
  }

  /** `SELECT ... FROM entries WHERE id = ?`, stepped once: the first row
      with that id. */
  function RowById(t: Index, id: int): (r: Option<Entry>)
    ensures r.Some? ==> r.value in t && r.value.id == id
    ensures r.None? <==> forall row :: row in t ==> row.id != id
  {
    if t == [] then None
    else if t[0].id == id then Some(t[0])
    else RowById(t[1..], id)
  }

  /** In a well-formed table the row with a given id is the only one. */
  lemma RowByIdUnique(t: Index, row: Entry)
    requires UniqueIds(t) && row in t
    ensures RowById(t, row.id) == Some(row)
  {
  }

  /*
   * Resolution
   */

  /** Where the traversal stands: at an entry (with its directory flag), or
      stopped with a negative errno. */
  datatype Cursor = At(entry: int, dir: bool) | Failed(err: int)

  /** The traversal starts at the root's parent, which counts as a directory. */
  const Start: Cursor := At(RootParent, true)

  /** The traversal over the parts, as a reference definition. */
  function Walk(t: Index, parts: seq<string>, c: Cursor): (r: Cursor)
    ensures parts == [] ==> r == c
    ensures c.Failed? ==> r == c
    ensures c.At? && r.Failed? ==> r.err == -ENOTDIR || r.err == -ENOENT
    ensures c.At? && !c.dir && parts != [] ==> r == Failed(-ENOTDIR)
    decreases |parts|
  {
    if parts == [] then c
    else
      match c
      case Failed(_) => c
      case At(entry, dir) =>
        if !dir then Failed(-ENOTDIR)
        else
          match Lookup(t, entry, parts[0])
          case None => Failed(-ENOENT)
          case Some(row) => Walk(t, parts[1..], At(row.id, row.dir))
  }

  /** The type filter applies only to a positive entry id. */
  function Filtered(c: Cursor, filter: EntryFilter): (r: int)
    ensures c.Failed? ==> r == c.err
    ensures c.At? && c.entry <= 0 ==> r == c.entry
    ensures c.At? && c.entry > 0 ==>
      (r == c.entry <==> filter.All? || filter.Directory? == c.dir)
    ensures c.At? && c.entry > 0 && r != c.entry ==> r == if c.dir then -EISDIR else -ENOTDIR
  {
    match c
    case Failed(err) => err
    case At(entry, dir) =>
      if entry > 0 then
        if filter == Directory && !dir then -ENOTDIR
        else if filter == File && dir then -EISDIR
        else entry
      else entry
  }

  /** What `index_find` returns once its lookup statement is prepared. */
  function Resolve(t: Index, path: string, filter: EntryFilter): int {
    Filtered(Walk(t, Components(path), Start), filter)
  }

  /** What `index_find` returns: -EAGAIN when its lookup statement cannot be
      prepared, the resolution otherwise. */
  function Found(t: Index, queryReady: bool, path: string, filter: EntryFilter): int {
    if queryReady then Resolve(t, path, filter) else -EAGAIN
  }

  /** `index_find`: walk the path part by part with one reused lookup
      statement. `queryReady` is whether the statement could be prepared. */
  method IndexFind(t: Index, queryReady: bool, path: string, filter: EntryFilter) returns (r: int)
    ensures r == Found(t, queryReady, path, filter)
  {
    if !queryReady {
      return -EAGAIN;
    }
    var entry := RootParent;
    var dir := true;
    var stream := path;
    ghost var stopped := false;
    while stream != []
      invariant Walk(t, Components(path), Start) == Walk(t, Components(stream), At(entry, dir))
      decreases |stream|
    {
      var line := GetLine(stream).value;
      var part, rest := line.0, line.1;
      assert Components(stream) == [part] + Components(rest);
      if !dir {
        entry := -ENOTDIR;
        stopped := true;
        break;
      }
      var found := Lookup(t, entry, part);
      if found.None? {
        entry := -ENOENT;
        stopped := true;
        break;
      }
      entry, dir := found.value.id, found.value.dir;
      stream := rest;
    }
    assert Walk(t, Components(path), Start) == if stopped then Failed(entry) else At(entry, dir);
    if entry > 0 {
      if filter == Directory && !dir {
        entry := -ENOTDIR;
      } else if filter == File && dir {
        entry := -EISDIR;
      }
    }
    r := entry;
  }

  /*
   * Properties of the resolution
   */

  /** Walking a concatenation walks the first list, then the second. */
  lemma {:induction false} WalkAppend(t: Index, p: seq<string>, q: seq<string>, c: Cursor)
    ensures Walk(t, p + q, c) == Walk(t, q, Walk(t, p, c))
    decreases |p|
  {
    if p == [] {
      assert p + q == q;
    } else if c.Failed? {
      if q != [] {
        assert Walk(t, q, c) == c;
      }
    } else if c.dir {
      assert (p + q)[0] == p[0] && (p + q)[1..] == p[1..] + q;
      match Lookup(t, c.entry, p[0])
      case None =>
      case Some(row) => WalkAppend(t, p[1..], q, At(row.id, row.dir));
    } else {
      if q != [] {
        assert Walk(t, q, Failed(-ENOTDIR)) == Failed(-ENOTDIR);
      }
    }
  }

  /** A part met while the current entry is a file stops the resolution with
      ENOTDIR, whatever the later parts are and whatever the filter. */
  lemma ThroughFileIsNotDir(t: Index, path: string, k: nat, filter: EntryFilter)
    requires k < |Components(path)|
    requires Walk(t, Components(path)[..k], Start).At?
    requires !Walk(t, Components(path)[..k], Start).dir
    ensures Resolve(t, path, filter) == -ENOTDIR
  {
    var parts := Components(path);
    assert parts == parts[..k] + parts[k..];
    WalkAppend(t, parts[..k], parts[k..], Start);
  }

  /** A part with no row under the current directory stops the resolution
      with ENOENT, whatever the later parts are and whatever the filter. */
  lemma MissingIsNotFound(t: Index, path: string, k: nat, filter: EntryFilter)
    requires k < |Components(path)|
    requires Walk(t, Components(path)[..k], Start).At?
    requires Walk(t, Components(path)[..k], Start).dir
    requires forall row :: row in t ==>
               row.parent != Walk(t, Components(path)[..k], Start).entry || row.name != Components(path)[k]
    ensures Resolve(t, path, filter) == -ENOENT
  {
    var parts := Components(path);
    assert parts == parts[..k] + parts[k..];
    WalkAppend(t, parts[..k], parts[k..], Start);
    var c := Walk(t, parts[..k], Start);
    assert Lookup(t, c.entry, parts[k]).None?;
    assert parts[k..][0] == parts[k];
  }

  /** Below a directory reached by `path`, the path of a child names that child. */
  lemma ChildResolves(t: Index, path: string, child: Entry)
    requires WellFormed(t) && child in t
    requires path != [] && child.name != [] && '/' !in child.name
    requires Walk(t, Components(path), Start) == At(child.parent, true)
    ensures Walk(t, Components(ChildPath(path, child.name)), Start) == At(child.id, child.dir)
  {
    ChildPathComponents(path, child.name);
    WalkAppend(t, Components(path), [child.name], Start);
    LookupUnique(t, child);
  }

  /** Below a directory reached by `path`, a name no row carries is not found. */
  lemma AbsentChildNotFound(t: Index, path: string, parent: int, name: string, filter: EntryFilter)
    requires path != [] && name != [] && '/' !in name
    requires Walk(t, Components(path), Start) == At(parent, true)
    requires forall row :: row in t ==> row.parent != parent || row.name != name
    ensures Resolve(t, ChildPath(path, name), filter) == -ENOENT
  {
    ChildPathComponents(path, name);
    WalkAppend(t, Components(path), [name], Start);
  }

  /** A traversal from an entry ends where it started (no parts), stopped
      with ENOTDIR or ENOENT, or at a row of the table with that row's flag. */
  lemma {:induction false} WalkOutcome(t: Index, parts: seq<string>, c: Cursor)
    requires c.At?
    ensures var r := Walk(t, parts, c);
      || (parts == [] && r == c)
      || r == Failed(-ENOTDIR) || r == Failed(-ENOENT)
      || (r.At? && exists row :: row in t && row.id == r.entry && row.dir == r.dir)
    decreases |parts|
  {
    if parts != [] && c.dir {
      match Lookup(t, c.entry, parts[0])
      case None =>
      case Some(row) => WalkOutcome(t, parts[1..], At(row.id, row.dir));
    }
  }

  /** A positive result of an unfiltered resolution is the id of a row. */
  lemma ResolvedIsRow(t: Index, path: string)
    requires Resolve(t, path, All) > 0
    ensures RowById(t, Resolve(t, path, All)).Some?
  {
    WalkOutcome(t, Components(path), Start);
  }

  /** The filters against the table: with no filter nothing changes; for a
      positive id, `Directory` refuses a file row with ENOTDIR and `File`
      refuses a directory row with EISDIR; errors and 0 pass every filter. */
  lemma FilterByRow(t: Index, path: string, filter: EntryFilter)
    requires UniqueIds(t)
    ensures Resolve(t, path, All) <= 0 ==> Resolve(t, path, filter) == Resolve(t, path, All)
    ensures Resolve(t, path, All) > 0 ==> RowById(t, Resolve(t, path, All)).Some?
    ensures Resolve(t, path, All) > 0 ==>
      var row := RowById(t, Resolve(t, path, All)).value;
      && Resolve(t, path, Directory) == (if row.dir then row.id else -ENOTDIR)
      && Resolve(t, path, File) == (if row.dir then -EISDIR else row.id)
  {
    var c := Walk(t, Components(path), Start);
    if Resolve(t, path, All) > 0 {
      WalkOutcome(t, Components(path), Start);
      var row :| row in t && row.id == c.entry && row.dir == c.dir;
      RowByIdUnique(t, row);
    }
  }

  /** On the seeded index "/" is the root entry, its only part being the empty
      name of the root row, and the empty path resolves to the root's parent, 0. */
  lemma SeededRoot(now: int)
    ensures Resolve(InitialIndex(now), "/", All) == RootEntry
    ensures Resolve(InitialIndex(now), "/", Directory) == RootEntry
    ensures Resolve(InitialIndex(now), "/", File) == -EISDIR
    ensures forall filter :: Resolve(InitialIndex(now), "", filter) == RootParent
  {
    SplitCases();
    var t := InitialIndex(now);
    assert Lookup(t, RootParent, "") == Some(t[0]);
    assert Walk(t, [""], Start) == At(RootEntry, true);
    assert Walk(t, Components(""), Start) == Start;
  }
}
