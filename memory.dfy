/*
 * The GPU block pool of vramfs (namespace vram::memory).
 *
 * The namespace's globals (the `ready` latch, the free list `pool` and the
 * counter `total_blocks`) are the fields of one `Memory` object. A device
 * buffer is an array of `BlockSize` bytes. Whether the device accepts a
 * command is not visible to the program text, so the outcome of each device
 * call that the source checks is a parameter.
 */
module Memory {

  /** `block::size` is declared in memory.hpp, which is not part of this
      model; 128 KiB is a chosen value, and the proofs use only that it is
      positive. */
  const BlockSize: nat := 131072

  type Buffer = array<bv8>

  function Zeros(n: nat): (z: seq<bv8>)
    ensures |z| == n && forall i :: 0 <= i < n ==> z[i] == 0
  {
    seq(n, _ => 0)
  }

  /** The bytes `s` with `data` written over them from `offset` on. */
  function Overwrite(s: seq<bv8>, offset: nat, data: seq<bv8>): (r: seq<bv8>)
    requires offset + |data| <= |s|
    ensures |r| == |s|
    ensures r[offset..offset + |data|] == data
    ensures forall i :: 0 <= i < |s| && !(offset <= i < offset + |data|) ==> r[i] == s[i]
  {
    s[..offset] + data + s[offset + |data|..]
  }

  /** `clear_buffer`: enqueue a fill of the whole buffer with zeros (or a copy
      from the zero buffer on older platforms). `accepted` is whether the
      device takes the command; the buffer is zeroed exactly when it does. */
  method ClearBuffer(buf: Buffer, accepted: bool) returns (ok: bool)
    modifies buf
    ensures ok == accepted
    ensures buf[..] == if accepted then Zeros(buf.Length) else old(buf[..])
  {
    if accepted {
      forall i | 0 <= i < buf.Length {
        buf[i] := 0;
      }
      assert buf[..] == Zeros(buf.Length);
    }
    ok := accepted;
  }

  /** `1 + (size - 1) / block::size`: the number of blocks `size` bytes
      need, which is the ceiling of `size / block::size` — enough blocks, and
      one fewer would not be. */
  function BlockCount(size: nat): (n: nat)
    requires size > 0
    ensures n >= 1
    ensures (n - 1) * BlockSize < size <= n * BlockSize
  {
    1 + (size - 1) / BlockSize
  }

  /** Whole blocks ask for exactly their number of blocks; any remainder
      costs one more block. */
  lemma BlockCountOfBlocks(k: nat, extra: nat)
    requires k > 0 || extra > 0
    requires extra < BlockSize
    ensures BlockCount(k * BlockSize + extra) == if extra == 0 then k else k + 1
  {
  }

  /** The number of attempts from `from` on, out of `count`, that succeed
      before the first one whose allocation or clear fails. */
  function Completed(from: nat, count: nat, allocOk: nat -> bool, clearOk: nat -> bool): (k: nat)
    requires from <= count
    ensures from <= k <= count
    ensures forall i :: from <= i < k ==> allocOk(i) && clearOk(i)
    ensures k < count ==> !(allocOk(k) && clearOk(k))
    decreases count - from
  {
    if from == count then count
    else if !(allocOk(from) && clearOk(from)) then from
    else Completed(from + 1, count, allocOk, clearOk)
  }

  /** The number of completed attempts is the index of the first failure. */
  lemma CompletedIsFirstFailure(count: nat, allocOk: nat -> bool, clearOk: nat -> bool, k: nat)
    requires k <= count
    requires forall i :: 0 <= i < k ==> allocOk(i) && clearOk(i)
    requires k < count ==> !(allocOk(k) && clearOk(k))
    ensures Completed(0, count, allocOk, clearOk) == k
  {
  }

  /** The process-wide state of the memory module. */
  class Memory {
    /** Whether OpenCL was set up successfully. */
    var ready: bool
    /** The free list: buffers that no block holds. */
    var pool: seq<Buffer>
    /** How many buffers were ever added to the pool. */
    var totalBlocks: int
    /** The buffers held by blocks. */
    ghost var checkedOut: set<Buffer>

    /** Every buffer is one block long and is either free (once) or held:
        `total_blocks` counts both. */
    ghost predicate Valid()
      reads this
    {
      && (forall i :: 0 <= i < |pool| ==> pool[i].Length == BlockSize)
      && (forall i, j :: 0 <= i < j < |pool| ==> pool[i] != pool[j])
      && (forall i :: 0 <= i < |pool| ==> pool[i] !in checkedOut)
      && (forall b :: b in checkedOut ==> b.Length == BlockSize)
      && totalBlocks == |pool| + |checkedOut|
    }

    /** The state at program start. */
    constructor ()
      ensures Valid() && !ready && pool == [] && totalBlocks == 0 && checkedOut == {}
    {
      ready := false;
      pool := [];
      totalBlocks := 0;
      checkedOut := {};
    }

    /** `init_opencl`: true at once when already set up; otherwise the
        outcome of a fresh probe, `probeOk` (a platform with a GPU device was
        found and, where needed, the zero buffer was allocated). */
    method InitOpenCL(probeOk: bool) returns (ok: bool)
      ensures ok == (ready || probeOk)
    {
      if ready {
        return true;
      }
      ok := probeOk;
    }

    /** `is_available`: `ready = init_opencl()`. Once set, `ready` stays set
        and no probe is made; a failed probe leaves it unset, so the next
        call probes again. */
    method IsAvailable(probeOk: bool) returns (ok: bool)
      modifies this`ready
      ensures ok == ready
      ensures old(ready) ==> ready
      ensures !old(ready) ==> ready == probeOk
    {
      ready := InitOpenCL(probeOk);
      ok := ready;
    }

    /** `pool_size`: every buffer ever added, free or held. */
    function PoolSize(): (n: int)
      requires Valid()
      reads this
      ensures n == |pool| + |checkedOut|
    {
      totalBlocks
    }

    /** `pool_available`: the free buffers, never more than the pool size. */
    function PoolAvailable(): (n: int)
      requires Valid()
      reads this
      ensures n == |pool| && n <= PoolSize()
    {
      |pool|
    }

    /** `increase_pool`: add `BlockCount(size)` zeroed buffers, stopping at the
        first attempt whose allocation (`allocOk`) or clear (`clearOk`)
        fails; returns the bytes actually added. `attempts` counts the buffer
        allocations tried: none after the first failure. */
    method IncreasePool(size: nat, allocOk: nat -> bool, clearOk: nat -> bool)
      returns (added: nat, ghost attempts: nat)
      requires Valid() && size > 0
      modifies this
      ensures Valid()
      ensures var k := Completed(0, BlockCount(size), allocOk, clearOk);
        && added == k * BlockSize
        && |pool| == old(|pool|) + k
        && totalBlocks == old(totalBlocks) + k
        && attempts == (if k < BlockCount(size) then k + 1 else k)
      ensures pool[..old(|pool|)] == old(pool)
      ensures forall i :: old(|pool|) <= i < |pool| ==> fresh(pool[i]) && pool[i][..] == Zeros(BlockSize)
      ensures checkedOut == old(checkedOut) && ready == old(ready)
    {
      var blockCount := 1 + (size - 1) / BlockSize;
      var i := 0;
      attempts := 0;
      while i < blockCount
        invariant 0 <= i <= blockCount && attempts == i
        invariant forall j :: 0 <= j < i ==> allocOk(j) && clearOk(j)
        invariant Valid()
        invariant |pool| == old(|pool|) + i && totalBlocks == old(totalBlocks) + i
        invariant pool[..old(|pool|)] == old(pool)
        invariant forall j :: old(|pool|) <= j < |pool| ==> fresh(pool[j]) && pool[j][..] == Zeros(BlockSize)
        invariant checkedOut == old(checkedOut) && ready == old(ready)
      {
        var buf := new bv8[BlockSize];
        attempts := attempts + 1;
        var ok := allocOk(i);
        if ok {
          ok := ClearBuffer(buf, clearOk(i));
        }
        if ok {
          pool := pool + [buf];
          totalBlocks := totalBlocks + 1;
        } else {
          CompletedIsFirstFailure(blockCount, allocOk, clearOk, i);
          return i * BlockSize, attempts;
        }
        i := i + 1;
      }
      CompletedIsFirstFailure(blockCount, allocOk, clearOk, blockCount);
      return blockCount * BlockSize, attempts;
    }

    /** `allocate`: no block when the free list is empty; otherwise a new,
        dirty block holding the last free buffer. */
    method Allocate() returns (b: Block?)
      requires Valid()
      modifies this
      ensures Valid()
      ensures old(|pool|) == 0 ==> b == null && pool == old(pool) && checkedOut == old(checkedOut)
      ensures old(|pool|) > 0 ==>
        && b != null && fresh(b) && b.Valid() && b.dirty
        && b.buffer == old(pool[|pool| - 1])
        && pool == old(pool[..|pool| - 1])
        && checkedOut == old(checkedOut) + {b.buffer}
      ensures totalBlocks == old(totalBlocks) && ready == old(ready)
    {
      if |pool| != 0 {
        b := new Block(this);
      } else {
        b := null;
      }
    }
  }

  /** A buffer taken from the pool. A block is dirty until its first write:
      nothing written since the buffer last left the pool, so it reads as
      zeros whatever the buffer holds. */
  class Block {
    var buffer: Buffer
    var dirty: bool

    ghost predicate Valid()
      reads this
    {
      buffer.Length == BlockSize
    }

    /** What reads of the block return. */
    ghost function Content(): (s: seq<bv8>)
      requires Valid()
      reads this, buffer
      ensures |s| == BlockSize
      ensures dirty ==> forall i :: 0 <= i < BlockSize ==> s[i] == 0
      ensures !dirty ==> s == buffer[..]
    {
      if dirty then Zeros(BlockSize) else buffer[..]
    }

    /** `block::block`: pop the last free buffer. */
    constructor (m: Memory)
      requires m.Valid() && |m.pool| > 0
      modifies m
      ensures Valid() && dirty && Content() == Zeros(BlockSize)
      ensures m.Valid()
      ensures buffer == old(m.pool[|m.pool| - 1])
      ensures m.pool == old(m.pool[..|m.pool| - 1])
      ensures m.checkedOut == old(m.checkedOut) + {buffer}
      ensures m.totalBlocks == old(m.totalBlocks) && m.ready == old(m.ready)
    {
      buffer := m.pool[|m.pool| - 1];
      dirty := true;
      new;
      m.pool := m.pool[..|m.pool| - 1];
      m.checkedOut := m.checkedOut + {buffer};
    }

    /** `block::~block`: push the buffer back onto the free list. */
    method Release(m: Memory)
      requires m.Valid() && buffer in m.checkedOut
      modifies m
      ensures m.Valid()
      ensures m.pool == old(m.pool) + [buffer]
      ensures m.checkedOut == old(m.checkedOut) - {buffer}
      ensures m.totalBlocks == old(m.totalBlocks) && m.ready == old(m.ready)
    {
      m.pool := m.pool + [buffer];
      m.checkedOut := m.checkedOut - {buffer};
    }

    /** `block::read`: zeros for a dirty block, without touching the device;
        otherwise a blocking read of the buffer. */
    method Read(offset: nat, size: nat) returns (data: seq<bv8>)
      requires Valid() && offset + size <= BlockSize
      ensures data == Content()[offset..offset + size]
      ensures dirty ==> data == Zeros(size)
      ensures !dirty ==> data == buffer[offset..offset + size]
    {
      if dirty {
        data := Zeros(size);
      } else {
        data := buffer[offset..offset + size];
      }
    }

    /** `block::write`: a dirty block that is not overwritten whole is zeroed
        first; then `data` is written at `offset`. Blocking and asynchronous
        writes go to the same in-order queue, so they leave the same bytes
        for every later command. */
    method Write(offset: nat, data: seq<bv8>, asynchronous: bool)
      requires Valid() && offset + |data| <= BlockSize
      modifies this, buffer
      ensures Valid() && buffer == old(buffer) && !dirty
      ensures buffer[..] == Overwrite(if old(dirty) && |data| != BlockSize then Zeros(BlockSize)
                                      else old(buffer[..]), offset, data)
      ensures Content() == Overwrite(old(Content()), offset, data)
    {
      if dirty && |data| != BlockSize {
        var _ := ClearBuffer(buffer, true);
      }
      ghost var before := buffer[..];
      forall i | 0 <= i < |data| {
        buffer[offset + i] := data[i];
      }
      assert buffer[..] == Overwrite(before, offset, data);
      dirty := false;
    }
  }

  /** Three free buffers handed out and one given back. */
  method PoolScenario(m: Memory)
    requires m.Valid() && |m.pool| == 3 && m.checkedOut == {}
    modifies m
  {
    var a := m.Allocate();
    var b := m.Allocate();
    var c := m.Allocate();
    assert a != null && b != null && c != null;
    assert a.buffer != b.buffer && b.buffer != c.buffer && a.buffer != c.buffer;
    assert m.PoolAvailable() == 0 && m.PoolSize() == 3;
    a.Release(m);
    assert m.PoolAvailable() == 1 && m.PoolSize() == 3;
    var d := m.Allocate();
    assert d != null && d.buffer == a.buffer && d.dirty;
  }

  /** A fresh block reads as zeros; a written range reads back; a disjoint
      range still reads as zeros. */
  method BlockScenario(m: Memory, x: bv8, y: bv8)
    requires m.Valid() && |m.pool| > 0
    modifies m, m.pool
  {
    var b := m.Allocate();
    var before := b.Read(10, 4);
    assert before == Zeros(4);
    b.Write(100, [x, y], false);
    var back := b.Read(100, 2);
    assert back == [x, y];
    var other := b.Read(10, 4);
    assert other == Zeros(4);
  }
}
