# vramfs core in Dafny

vramfs is a FUSE filesystem whose file contents are meant to live in GPU
memory (OpenCL buffers), with the directory tree kept in an in-memory SQLite
table. This project models its two sequential cores and proves their
behaviour.

- `path_index.dfy` (module `PathIndex`): the `entries` table with its seed
  root row, the way `std::getline(stream, part, '/')` splits a path, and
  `index_find`, which walks the path one part at a time and returns an entry
  id or a negative errno (`-ENOENT`, `-ENOTDIR`, `-EISDIR`, `-EAGAIN`).
  `IndexFind` is the loop of the source, proved equal to the reference
  definition `Resolve` (`Walk` over `Components`, then `Filtered`); the
  lemmas state the error precedence, the filter rules and the seeded root.
- `dispatcher.dfy` (module `Dispatcher`): `vram_getattr`, `vram_readdir`,
  `vram_open` and `vram_read` as methods over the result of `IndexFind`.
- `memory.dfy` (module `Memory`): the globals of `vram::memory` as a `Memory`
  object (the `ready` latch, the free list `pool`, the counter
  `total_blocks`), `increase_pool`, `allocate`, and a `Block` class with its
  constructor, release (the destructor), `read` and `write`. A device buffer
  is an `array<bv8>` of `BlockSize` bytes. The abstract view
  `Block.Content()` is what reads return; `Write` is proved to act on it
  exactly as a plain overwrite of a zero-initialised block would, whatever
  the dirty flag was.

Modelling choices:

- The table is a sequence of rows in scan order. A query with `LIMIT 1`
  returns the first matching row, and `getattr`'s query by id returns the
  first row with that id. `UniqueIds` (the primary key) is assumed only by
  the lemmas and clauses that speak of "the" row of an id; `WellFormed`
  (unique ids and unique names among siblings) only by those that speak of
  "the" row of a name.
- Linux constants: `ENOENT` 2, `EAGAIN` 11, `EACCES` 13, `ENOTDIR` 20,
  `EISDIR` 21, `S_IFDIR` 0x4000, `S_IFREG` 0x8000, `O_ACCMODE` 3,
  `O_RDONLY` 0. Open flags are a `bv32`, so `flags & 3` is exact.
- Parameters stand for what the program cannot see: `queryReady` (the lookup
  statement could be prepared, which also fails when the connection could
  not be opened), `uid`/`gid` (the effective user and group), `now` (the clock
  of the timestamp defaults), `probeOk` (the OpenCL probe succeeded),
  `allocOk(i)`/`clearOk(i)` (the device accepted the i-th buffer allocation
  and its clear).
- `block::size` is declared in memory.hpp, which is not part of this model.
  `BlockSize` is 131072 (128 KiB) here. The proofs use only that it is positive.
- "/" is not a special case in the code. It splits into one empty part, and
  the root is found as the row named "" under parent 0: see
  `PathIndex.SplitCases` and `PathIndex.SeededRoot`.
- The schema has no uniqueness constraint on (parent, name). The model keeps
  duplicate siblings possible and adds uniqueness as a hypothesis
  (`WellFormed`) only where a lemma needs it.

## Model

| member | source | states |
|---|---|---|
| PathIndex.InitialIndex | vramfs.cpp:32-36 | the seeded table holds only the root row: id 1, parent 0, empty name, a directory, and it is well formed |
| PathIndex.GetLine | vramfs.cpp:80-83 | one `getline` call fails exactly on an empty stream; otherwise the part has no '/' and the stream is the part, then '/', then the rest, or the part alone |
| PathIndex.Components | vramfs.cpp:80-83 | the parts the loop sees: none contains '/', and there are none exactly for the empty path |
| PathIndex.JoinComponents | vramfs.cpp:83 | splitting loses nothing but one trailing '/': the path is its parts joined with '/', plus '/' when it ended with one |
| PathIndex.ComponentsJoin | vramfs.cpp:83 | parts without '/' (empty ones included), joined and ended with '/', split back into the same parts |
| PathIndex.TrailingSlashIgnored | vramfs.cpp:83 | a trailing '/' adds no part to a path that does not already end with '/' |
| PathIndex.ChildPathComponents | vramfs.cpp:83 | the parent's path plus '/' and a non-empty name splits into the parent's parts followed by that name |
| PathIndex.SplitCases | vramfs.cpp:83 | "" gives no part, "/" gives one empty part, "/a/" gives "" and "a", "a//b" gives an empty middle part |
| PathIndex.Walk | vramfs.cpp:83-106 | the traversal: no parts leave the cursor where it is, a stop is never left, a walk from an entry stops only with -ENOTDIR or -ENOENT, and a part met at a file stops it with -ENOTDIR |
| PathIndex.Filtered | vramfs.cpp:108-115 | errors and non-positive ids pass unchanged; a positive id is kept exactly under no filter or a filter that matches its directory flag, and otherwise becomes -EISDIR for a directory or -ENOTDIR for a file |
| PathIndex.Lookup | vramfs.cpp:90-99 | the lookup finds a row with that parent and name, and finds none exactly when no row has both |
| PathIndex.LookupUnique | vramfs.cpp:73 | in a well-formed table the lookup of a row's parent and name finds that row |
| PathIndex.RowById | vramfs.cpp:153-155 | the query by id finds a row with that id, and finds none exactly when no row has it |
| PathIndex.RowByIdUnique | vramfs.cpp:21 | with unique ids (the primary key) the query by a row's id finds that row |
| PathIndex.IndexFind | vramfs.cpp:71-119 | the loop returns -EAGAIN when the statement cannot be prepared, and otherwise the resolution `Resolve` of the path under the filter |
| PathIndex.WalkAppend | vramfs.cpp:83-106 | walking a concatenation of parts walks the first list, then the second from where it stopped |
| PathIndex.ThroughFileIsNotDir | vramfs.cpp:84-88 | a part met while the current entry is a file gives -ENOTDIR, whatever the later parts and the filter |
| PathIndex.MissingIsNotFound | vramfs.cpp:95-99 | a part with no row under the current directory gives -ENOENT, whatever the later parts and the filter |
| PathIndex.ChildResolves | vramfs.cpp:90-106 | below a directory reached by a path, the child's path reaches the child row with its directory flag |
| PathIndex.AbsentChildNotFound | vramfs.cpp:95-99 | below a directory reached by a path, a name that no row under it carries gives -ENOENT |
| PathIndex.WalkOutcome | vramfs.cpp:83-106 | a walk from an entry ends where it started (no parts), with -ENOTDIR or -ENOENT, or at a row of the table with that row's directory flag |
| PathIndex.ResolvedIsRow | vramfs.cpp:101-103 | a positive unfiltered result is the id of a row of the table |
| PathIndex.FilterByRow | vramfs.cpp:108-115 | a result of 0 or an error passes every filter unchanged; for a positive id the directory filter gives -ENOTDIR on a file row and the file filter gives -EISDIR on a directory row, and otherwise the id |
| PathIndex.SeededRoot | vramfs.cpp:77-83 | on the seeded table "/" resolves to 1 (and to -EISDIR under the file filter), and "" resolves to 0 under every filter |
| Dispatcher.GetAttr | vramfs.cpp:145-179 | on a positive entry returns 0 with mode S_IFDIR with permissions 0755 and 2 links for a directory row, S_IFREG with permissions 0444 and 1 link for a file row, the given uid/gid and the row's size and times; with unique ids, a directory mode exactly when the directory filter accepts the path; otherwise the lookup result and the buffer untouched |
| Dispatcher.Children | vramfs.cpp:193-203 | the listing query yields at most one name per row, and every name it yields belongs to a row under that parent |
| Dispatcher.ChildrenMembers | vramfs.cpp:193-203 | a name is listed under a parent exactly when some row with that parent carries it |
| Dispatcher.Readdir | vramfs.cpp:185-210 | on a directory returns 0 and lists ".", ".." and then the names of the rows under it, in scan order; otherwise the lookup result and an empty listing |
| Dispatcher.FreshRootListing | vramfs.cpp:189-203 | on a fresh mount "/" passes the directory filter and has no rows under it, so its listing is "." and ".." alone |
| Dispatcher.Open | vramfs.cpp:216-233 | on a positive entry returns 0 exactly when the access mode is read-only and -EACCES otherwise; lookup errors pass through; in a table with unique ids 0 exactly for a read-only open of a file row, and -EISDIR for a directory |
| Dispatcher.EmptyPathIsNotAnError | vramfs.cpp:77-78 | the empty path resolves to 0 under every filter, which the operations return as success |
| Dispatcher.Read | vramfs.cpp:239-242 | a read transfers no bytes |
| Memory.Overwrite | src/memory.cpp:140 | a write leaves the written range holding the data and every other byte as it was |
| Memory.ClearBuffer | src/memory.cpp:18-25 | the buffer becomes all zeros exactly when the device accepts the fill, and the status says so |
| Memory.BlockCount | src/memory.cpp:82 | `1 + (size - 1) / block::size` is at least 1 and is the ceiling of size over the block size: enough blocks, and one fewer would not be |
| Memory.BlockCountOfBlocks | src/memory.cpp:82 | k whole blocks need k blocks; k blocks plus a non-zero remainder need k + 1 |
| Memory.Completed | src/memory.cpp:85-93 | the number of successful attempts is the index of the first failed allocation or clear, or the block count when none fails |
| Memory.Memory.constructor | src/memory.cpp:6-15 | at start the latch is unset, the free list is empty and no block was ever allocated |
| Memory.Memory.InitOpenCL | src/memory.cpp:28-62 | true without probing when already set up, otherwise the probe's outcome |
| Memory.Memory.IsAvailable | src/memory.cpp:69-71 | the result is the new latch; a set latch stays set, an unset one takes the probe's outcome, so a failure is retried on the next call |
| Memory.Memory.PoolSize | src/memory.cpp:73-75 | the count of every buffer ever added, free or held by a block |
| Memory.Memory.PoolAvailable | src/memory.cpp:77-79 | the count of free buffers, never above the pool size |
| Memory.Memory.IncreasePool | src/memory.cpp:81-97 | with k the completed attempts: returns k block sizes, appends k fresh zeroed buffers to the free list, adds k to the counter, tries no allocation after the first failure, and leaves the held buffers and the latch alone |
| Memory.Memory.Allocate | src/memory.cpp:99-105 | on an empty free list returns null and changes nothing; otherwise a fresh dirty block holding the last free buffer, which leaves the free list; the counter never changes |
| Memory.Block.constructor | src/memory.cpp:107-110 | the block takes the last free buffer, starts dirty and reads as zeros |
| Memory.Block.Release | src/memory.cpp:112-114 | the buffer goes back to the end of the free list; the counter does not change |
| Memory.Block.Content | src/memory.cpp:116-124 | what reads of a block return: one block of bytes, all zero while the block is dirty, the buffer's bytes once it is clean |
| Memory.Block.Read | src/memory.cpp:116-124 | returns the block's content in the range: zeros for a dirty block, the buffer's bytes otherwise |
| Memory.Block.Write | src/memory.cpp:126-148 | the block is clean afterwards and its content is the old content with the data written over the range; a dirty block written partly is zero outside the range |

## Left out

- FUSE plumbing: `main`, the operations table, `fatal_error`'s `fuse_exit` and the error log. These are I/O.
- The SQLite engine: opening connections, preparing statements, creating the schema, `vram_destroy`. The table is a value. A failure to prepare the lookup statement is the parameter `queryReady`.
- `vram_init`'s failure paths are fatal I/O. Its success is the seeded table `InitialIndex`.
- PathIndex.IndexFind: an error from `sqlite3_step` other than "no row" also yields -ENOENT in the source. The model's lookup always answers.
- PathIndex.Lookup: SQLite's `LIMIT 1` returns whichever matching row its scan meets first. The model takes the first in table order.
- Dispatcher.GetAttr: the fields of `struct stat` that the source leaves at zero after its memset are not modelled. The source does not check the second query; in the model that query always finds its row.
- Dispatcher.Readdir: `filler`'s return value (buffer full) is ignored by the source. The listing is an unbounded sequence.
- OpenCL itself: platform and device enumeration, context and queue, the fill-buffer version test and the zero buffer. Only "the probe succeeds or fails" (`probeOk`) and "a clear zeroes the buffer" are modelled.
- Completion of asynchronous writes (`cl::Event`, the callback that frees the private copy, `block::sync`, `last_write`) is device timing. Because the queue is in order, both write modes leave the same bytes for every later read.
- Memory.Block.Write: the status of the clear before a partial first write is ignored by the source. The model takes that clear as done.
- Memory.Block.Read: the source writes into the caller's buffer. The model returns the bytes.
- Memory.Block.Read: the source ignores the status of `enqueueReadBuffer`, so a failed read leaves the caller's buffer unfilled. The model takes the read as done.
- Memory.Block.Write: the source ignores the status of `enqueueWriteBuffer` and clears the dirty flag anyway, so after a failed first full-block write later reads would return the previous holder's bytes. The model takes the write as done.
- Dispatcher.Readdir: the source does not check the listing statement; if it fails, the first step is not a row and the source returns 0 with only "." and "..". The model takes the query as answered and lists every child.
- Memory.Memory.IncreasePool: `increase_pool(0)` makes `size - 1` wrap around. The model requires a positive size. The narrowing of the block count to `int`, and overflow of `total_blocks`, are not modelled.
- Memory.Block.Read and Memory.Block.Write require `offset + size <= block::size`. The source does not check this; the device would reject such a call.
- The free list, the counter and the `ready` latch are shared by FUSE threads without locking. That is concurrency, not sequential behaviour.
