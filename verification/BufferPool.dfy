/** The buffer pool: a bounded set of in-memory frames over a file of blocks.

    Clients hold handles (pins), write through them and mark blocks dirty; unpinned frames
    queue for eviction, least recently used at the back.  `contents` is the specification:
    the last bytes written to each block.  Every method keeps it, whatever is evicted,
    reloaded or flushed underneath. */
module BufferPool {

  type Byte = b: int | 0 <= b < 256

  type Block = seq<Byte>

  datatype Result<T> = Ok(value: T) | Err

  datatype Frame = Frame(data: Block, pins: nat, dirty: bool, inLru: bool)

  function Zeros(n: nat): (b: Block)
    ensures |b| == n && forall i :: 0 <= i < n ==> b[i] == 0
  {
    seq(n, _ => 0)
  }

  function Without(s: seq<nat>, id: nat): (r: seq<nat>)
    ensures NoDup(s) ==> NoDup(r) && forall x :: x in r <==> x in s && x != id
    ensures id !in s ==> r == s
  {
    if s == [] then []
    else if s[0] == id then s[1..]
    else
      assert NoDup(s) ==> NoDup(s[1..]) && s[0] !in s[1..];
      [s[0]] + Without(s[1..], id)
  }

  /** Bytes taken by n blocks. */
  function Bytes(blockSize: nat, n: nat): nat {
    if n == 0 then 0 else Bytes(blockSize, n - 1) + blockSize
  }

  lemma {:induction false} BytesMono(blockSize: nat, m: nat, n: nat)
    requires m <= n
    ensures Bytes(blockSize, m) <= Bytes(blockSize, n)
  {
    if m < n { BytesMono(blockSize, m, n - 1); }
  }

  lemma {:induction false} BytesIsProduct(blockSize: nat, n: nat)
    ensures Bytes(blockSize, n) == blockSize * n
  {
    if n > 0 { BytesIsProduct(blockSize, n - 1); }
  }

  predicate NoDup(s: seq<nat>) { forall i, j :: 0 <= i < j < |s| ==> s[i] != s[j] }

  function PinnedIds(pool: map<nat, Frame>): set<nat> { set id | id in pool && pool[id].pins > 0 }

  /** How many handles each pinned block has. */
  function PinCounts(pool: map<nat, Frame>): map<nat, nat> { map id | id in pool && pool[id].pins > 0 :: pool[id].pins }

  lemma CountsSet(pool: map<nat, Frame>, id: nat, f: Frame)
    ensures PinCounts(pool[id := f]) == if f.pins > 0 then PinCounts(pool)[id := f.pins] else PinCounts(pool) - {id}
  {
  }

  lemma CountsSame(pool: map<nat, Frame>, pool': map<nat, Frame>)
    requires PinnedIds(pool') == PinnedIds(pool) && forall id :: id in pool' ==> id in pool && pool'[id] == pool[id]
    ensures PinCounts(pool') == PinCounts(pool)
  {
    forall x | x in PinCounts(pool) ensures x in PinCounts(pool') { assert x in PinnedIds(pool); }
  }

  function Elems(s: seq<nat>): set<nat> { set x | x in s }

  lemma {:induction false} NoDupSize(s: seq<nat>)
    requires NoDup(s)
    ensures |Elems(s)| == |s|
  {
    if s != [] {
      var n := |s| - 1;
      NoDupSize(s[..n]);
      assert Elems(s) == Elems(s[..n]) + {s[n]};
      assert s[n] !in Elems(s[..n]);
    }
  }

  // ----- The state as a value, and its invariant -----

  /** `contents` and `unmarked` belong to the specification: the last bytes written to each
      block, and the blocks written through a handle that were not yet marked dirty. */
  datatype Store = Store(
    poolBytes: nat, blockSize: nat, used: nat, pool: map<nat, Frame>, lru: seq<nat>, nextId: nat,
    file: seq<Block>, contents: seq<Block>, unmarked: set<nat>)

  ghost predicate FrameOk(st: Store, id: nat)
    requires id in st.pool && id < |st.file|
  {
    var f := st.pool[id];
    && |f.data| == st.blockSize && (f.inLru <==> f.pins == 0)
    && (!f.dirty && id !in st.unmarked ==> f.data == st.file[id])
  }

  ghost predicate BlockOk(st: Store, id: nat)
    requires id < |st.file| && id < |st.contents|
  {
    && |st.file[id]| == st.blockSize
    && st.contents[id] == if id in st.pool then st.pool[id].data else st.file[id]
  }

  predicate Queued(st: Store, id: nat) { id in st.pool && st.pool[id].pins == 0 }

  ghost predicate Inv(st: Store) {
    && st.used == Bytes(st.blockSize, |st.pool|) && st.used <= st.poolBytes
    && |st.file| == st.nextId && |st.contents| == st.nextId
    && (forall id: nat :: id in st.pool ==> id < st.nextId && FrameOk(st, id))
    && (forall id: nat :: id in st.unmarked ==> id in st.pool && st.pool[id].pins > 0)
    && NoDup(st.lru) && (forall id: nat :: id in st.lru <==> Queued(st, id))
    && (forall id: nat :: id < st.nextId ==> BlockOk(st, id))
  }

  /** The frames are the queued ones and the pinned ones. */
  lemma PoolSize(st: Store)
    requires Inv(st)
    ensures |st.pool| == |st.lru| + |PinnedIds(st.pool)|
  {
    NoDupSize(st.lru);
    var queued := Elems(st.lru);
    forall id ensures id in st.pool.Keys <==> id in queued + PinnedIds(st.pool) {
      assert id in st.lru <==> Queued(st, id);
    }
    assert st.pool.Keys == queued + PinnedIds(st.pool);
    assert queued !! PinnedIds(st.pool);
    assert |queued + PinnedIds(st.pool)| == |queued| + |PinnedIds(st.pool)|;
    assert |st.pool| == |st.pool.Keys|;
  }

  /** Changing one resident frame, with the eviction queue adjusted to match. */
  function SetFrame(st: Store, id: nat, f: Frame, lru: seq<nat>): Store {
    st.(pool := st.pool[id := f], lru := lru)
  }

  lemma SetFrameInv(st: Store, id: nat, f: Frame, lru: seq<nat>)
    requires Inv(st) && id in st.pool && f.data == st.pool[id].data
    requires (f.inLru <==> f.pins == 0) && (id in st.unmarked ==> f.pins > 0)
    requires f.dirty == st.pool[id].dirty
    requires NoDup(lru) && forall x: nat :: x in lru <==> if x == id then f.pins == 0 else x in st.lru
    ensures Inv(SetFrame(st, id, f, lru))
  {
    var st' := SetFrame(st, id, f, lru);
    assert st'.pool.Keys == st.pool.Keys;
    assert |st'.pool| == |st'.pool.Keys| == |st.pool|;
    assert FrameOk(st, id);
    forall x: nat | x in st'.pool ensures FrameOk(st', x) { assert FrameOk(st, x); }
    forall x: nat ensures x in st'.lru <==> Queued(st', x) { assert x in st.lru <==> Queued(st, x); }
    forall x: nat | x < st'.nextId ensures BlockOk(st', x) { assert BlockOk(st, x); }
  }

  /** The back of the queue names a resident, unpinned frame. */
  predicate Evictable(st: Store) {
    && st.lru != [] && st.used >= st.blockSize
    && var victim := st.lru[|st.lru| - 1];
       victim in st.pool && st.pool[victim].pins == 0 && victim < |st.file|
  }

  /** After a victim left the queue and was written back if dirty. */
  function Evicted(st: Store): Store
    requires Evictable(st)
  {
    var n := |st.lru| - 1;
    var victim := st.lru[n];
    st.(pool := st.pool - {victim}, lru := st.lru[..n], used := st.used - st.blockSize,
        file := if st.pool[victim].dirty then st.file[victim := st.pool[victim].data] else st.file)
  }

  lemma EvictedInv(st: Store)
    requires Inv(st) && st.lru != []
    ensures Evictable(st) && Inv(Evicted(st)) && PinnedIds(Evicted(st).pool) == PinnedIds(st.pool)
  {
    var n := |st.lru| - 1;
    var victim := st.lru[n];
    assert victim in st.lru;
    assert Queued(st, victim);
    assert |st.pool| >= 1 by { assert victim in st.pool.Keys; assert st.pool != map[]; }
    var st' := Evicted(st);
    assert st'.pool.Keys == st.pool.Keys - {victim};
    assert |st'.pool| == |st'.pool.Keys| == |st.pool| - 1;
    assert st.lru == st'.lru + [victim];
    assert FrameOk(st, victim);
    forall x: nat | x in st'.pool ensures FrameOk(st', x) { assert FrameOk(st, x); }
    forall x: nat ensures x in st'.lru <==> Queued(st', x) { assert x in st.lru <==> Queued(st, x); }
    forall x: nat | x < st'.nextId ensures BlockOk(st', x) { assert BlockOk(st, x); }
  }

  /** After a frame that was not resident was added, pinned once. */
  function Loaded(st: Store, id: nat, f: Frame): Store {
    st.(pool := st.pool[id := f], used := st.used + st.blockSize)
  }

  lemma LoadedInv(st: Store, id: nat, f: Frame)
    requires Inv(st) && id !in st.pool && id < st.nextId && st.used + st.blockSize <= st.poolBytes
    requires f.data == st.file[id] && f.pins == 1 && !f.inLru
    ensures Inv(Loaded(st, id, f))
  {
    var st' := Loaded(st, id, f);
    assert st'.pool.Keys == st.pool.Keys + {id};
    assert |st'.pool| == |st'.pool.Keys| == |st.pool| + 1;
    assert BlockOk(st, id);
    forall x: nat | x in st'.pool ensures FrameOk(st', x) { if x != id { assert FrameOk(st, x); } }
    forall x: nat ensures x in st'.lru <==> Queued(st', x) { assert x in st.lru <==> Queued(st, x); }
    forall x: nat | x < st'.nextId ensures BlockOk(st', x) { assert BlockOk(st, x); }
  }

  function Grown(st: Store): Store {
    var zeros := Zeros(st.blockSize);
    st.(nextId := st.nextId + 1, file := st.file + [zeros], contents := st.contents + [zeros])
  }

  lemma GrownInv(st: Store)
    requires Inv(st)
    ensures Inv(Grown(st)) && st.nextId !in st.pool
  {
    var st' := Grown(st);
    forall x: nat | x in st'.pool ensures x < st'.nextId && FrameOk(st', x) { assert FrameOk(st, x); }
    forall x: nat ensures x in st'.lru <==> Queued(st', x) { assert x in st.lru <==> Queued(st, x); }
    forall x: nat | x < st'.nextId ensures BlockOk(st', x) { if x < st.nextId { assert BlockOk(st, x); } }
  }

  function Stored(st: Store, id: nat, data: Block): Store
    requires id in st.pool && id < |st.contents|
  {
    st.(pool := st.pool[id := st.pool[id].(data := data)], contents := st.contents[id := data],
        unmarked := st.unmarked + {id})
  }

  lemma StoredInv(st: Store, id: nat, data: Block)
    requires Inv(st) && id in st.pool && st.pool[id].pins > 0 && |data| == st.blockSize
    ensures id < |st.contents| && Inv(Stored(st, id, data))
  {
    assert FrameOk(st, id);
    var st' := Stored(st, id, data);
    assert st'.pool.Keys == st.pool.Keys;
    assert |st'.pool| == |st'.pool.Keys| == |st.pool|;
    forall x: nat | x in st'.pool ensures FrameOk(st', x) { assert FrameOk(st, x); }
    forall x: nat ensures x in st'.lru <==> Queued(st', x) { assert x in st.lru <==> Queued(st, x); }
    forall x: nat | x < st'.nextId ensures BlockOk(st', x) { assert BlockOk(st, x); }
  }

  /** Dirty flag of one frame set, and what that settles for the specification. */
  function Marked(st: Store, id: nat): Store {
    var u := st.unmarked - {id};
    if id in st.pool then st.(pool := st.pool[id := st.pool[id].(dirty := true)], unmarked := u) else st.(unmarked := u)
  }

  lemma MarkedInv(st: Store, id: nat)
    requires Inv(st)
    ensures Inv(Marked(st, id))
  {
    var st' := Marked(st, id);
    assert st'.pool.Keys == st.pool.Keys;
    assert |st'.pool| == |st'.pool.Keys| == |st.pool|;
    forall x: nat | x in st'.pool ensures FrameOk(st', x) { assert FrameOk(st, x); }
    forall x: nat ensures x in st'.lru <==> Queued(st', x) { assert x in st.lru <==> Queued(st, x); }
    forall x: nat | x < st'.nextId ensures BlockOk(st', x) { assert BlockOk(st, x); }
  }

  /** One frame written back and clean. */
  function Cleaned(st: Store, id: nat): Store
    requires id in st.pool && id < |st.file|
  {
    st.(pool := st.pool[id := st.pool[id].(dirty := false)], file := st.file[id := st.pool[id].data])
  }

  lemma CleanedInv(st: Store, id: nat)
    requires Inv(st) && id in st.pool
    ensures id < |st.file| && Inv(Cleaned(st, id))
  {
    assert FrameOk(st, id);
    var st' := Cleaned(st, id);
    assert st'.pool.Keys == st.pool.Keys;
    assert |st'.pool| == |st'.pool.Keys| == |st.pool|;
    forall x: nat | x in st'.pool ensures FrameOk(st', x) { assert FrameOk(st, x); }
    forall x: nat ensures x in st'.lru <==> Queued(st', x) { assert x in st.lru <==> Queued(st, x); }
    forall x: nat | x < st'.nextId ensures BlockOk(st', x) { assert BlockOk(st, x); }
  }

  // ----- The mutable pool -----

  class BufferManager {
    const poolBytes: nat
    const blockSize: nat
    var used: nat
    var pool: map<nat, Frame>
    var lru: seq<nat>             // front: most recently unpinned; back: next victim
    var nextId: nat
    var file: seq<Block>
    ghost var contents: seq<Block>
    ghost var unmarked: set<nat>

    ghost function Abs(): Store
      reads this
    {
      Store(poolBytes, blockSize, used, pool, lru, nextId, file, contents, unmarked)
    }

    ghost predicate Valid()
      reads this
    {
      Inv(Abs())
    }

    /** A pool over a new, empty file. */
    constructor (poolBytes: nat, blockSize: nat)
      ensures Valid() && this.poolBytes == poolBytes && this.blockSize == blockSize
      ensures contents == [] && unmarked == {} && pool == map[] && nextId == 0
    {
      this.poolBytes, this.blockSize := poolBytes, blockSize;
      used, pool, lru, nextId, file := 0, map[], [], 0, [];
      contents, unmarked := [], {};
    }

    /** Give up one handle; the last one queues the frame as most recently used. */
    method Unpin(id: nat)
      requires Valid() && id in pool && pool[id].pins > 0
      requires pool[id].pins == 1 ==> id !in unmarked
      modifies this
      ensures Valid() && contents == old(contents) && unmarked == old(unmarked) && nextId == old(nextId)
      ensures
        var f := old(pool)[id];
        Abs() == SetFrame(old(Abs()), id, f.(pins := f.pins - 1, inLru := f.pins == 1),
                          if f.pins == 1 then [id] + old(lru) else old(lru))
    {
      ghost var st := Abs();
      assert FrameOk(st, id);
      assert id !in lru by { assert id in st.lru <==> Queued(st, id); }
      var frame := pool[id];
      frame := frame.(pins := frame.pins - 1);
      if frame.pins == 0 {
        lru := [id] + lru;
        frame := frame.(inLru := true);
      }
      SetFrameInv(st, id, frame, lru);
      pool := pool[id := frame];
    }

    method EvictBack()
      requires Valid() && lru != []
      modifies this
      ensures Evictable(old(Abs())) && Abs() == Evicted(old(Abs()))
      ensures Valid() && PinnedIds(pool) == PinnedIds(old(pool))
    {
      ghost var before := Abs();
      EvictedInv(before);
      pool, lru, file, used := PopVictim(pool, lru, file, used, blockSize);
      assert pool == Evicted(before).pool && lru == Evicted(before).lru && file == Evicted(before).file;
      assert Abs() == Evicted(before);
    }

    /** Evict the least recently used unpinned frame, writing it back first if it is dirty.
        Fails, changing nothing, when every frame is pinned. */
    method EvictOne() returns (ok: bool)
      requires Valid()
      modifies this
      ensures Valid() && contents == old(contents) && unmarked == old(unmarked) && nextId == old(nextId)
      ensures ok <==> old(lru) != []
      ensures ok ==> Evictable(old(Abs())) && Abs() == Evicted(old(Abs()))
      ensures !ok ==> Abs() == old(Abs())
      ensures PinnedIds(pool) == PinnedIds(old(pool))
    {
      if lru == [] { return false; }
      EvictBack();
      return true;
    }

    /** Evict, back of the queue first, until one more block fits.  That works exactly when
        the pinned frames leave room for one. */
    method EnsureSpace() returns (ok: bool)
      requires Valid()
      modifies this
      ensures Valid() && contents == old(contents) && unmarked == old(unmarked) && nextId == old(nextId)
      ensures ok ==> used + blockSize <= poolBytes
      ensures ok <==> Bytes(blockSize, |PinnedIds(old(pool))| + 1) <= poolBytes
      ensures lru <= old(lru) && PinnedIds(pool) == PinnedIds(old(pool)) && PinCounts(pool) == PinCounts(old(pool))
      ensures forall id :: id in pool ==> id in old(pool) && pool[id] == old(pool)[id]
    {
      while used + blockSize > poolBytes
        invariant Valid() && contents == old(contents) && unmarked == old(unmarked) && nextId == old(nextId)
        invariant lru <= old(lru) && PinnedIds(pool) == PinnedIds(old(pool))
        invariant forall id :: id in pool ==> id in old(pool) && pool[id] == old(pool)[id]
        decreases |lru|
      {
        ghost var before := lru;
        var evicted := EvictOne();
        if !evicted {
          PoolSize(Abs());
          CountsSame(old(pool), pool);
          return false;
        }
        assert lru <= before;
      }
      PoolSize(Abs());
      CountsSame(old(pool), pool);
      BytesMono(blockSize, |PinnedIds(pool)| + 1, |pool| + 1);
      return true;
    }

    /** A block can be pinned when it is resident, or when it exists and the pinned frames
        leave room to load it; the handle then shows the last bytes written to it. */
    method Pin(id: nat) returns (r: Result<Block>)
      requires Valid()
      modifies this
      ensures Valid() && contents == old(contents) && unmarked == old(unmarked) && nextId == old(nextId)
      ensures r.Ok? <==>
        id in old(pool) || (id < nextId && Bytes(blockSize, |PinnedIds(old(pool))| + 1) <= poolBytes)
      ensures r.Ok? ==> id < nextId && r.value == contents[id] && id in pool
      ensures r.Ok? ==> pool[id].pins == (if id in old(pool) then old(pool)[id].pins else 0) + 1
      ensures PinCounts(pool) == if r.Ok? then PinCounts(old(pool))[id := pool[id].pins] else PinCounts(old(pool))
      ensures forall x :: x in pool && x != id ==> x in old(pool) && pool[x] == old(pool)[x]
    {
      if id in pool {
        PinResident(id);
        return Ok(pool[id].data);
      }
      var ok := EnsureSpace();
      if !ok { return Err; }
      if id >= |file| { return Err; }
      CountsSet(pool, id, Frame(file[id], 1, false, false));
      Load(id, Frame(file[id], 1, false, false));
      return Ok(pool[id].data);
    }

    /** One more pin on a resident frame; the first one takes it off the queue. */
    method PinResident(id: nat)
      requires Valid() && id in pool
      modifies this`lru, this`pool
      ensures Valid() && id < nextId && pool.Keys == old(pool).Keys && pool[id].data == contents[id]
      ensures pool[id].pins == old(pool)[id].pins + 1 && forall x :: x in pool && x != id ==> pool[x] == old(pool)[x]
      ensures PinCounts(pool) == PinCounts(old(pool))[id := pool[id].pins]
    {
      ghost var st := Abs();
      assert FrameOk(st, id) && BlockOk(st, id);
      assert id in lru <==> Queued(st, id);
      var frame := pool[id];
      if frame.pins == 0 && frame.inLru {
        lru := Without(lru, id);
        frame := frame.(inLru := false);
      }
      frame := frame.(pins := frame.pins + 1);
      SetFrameInv(st, id, frame, lru);
      CountsSet(pool, id, frame);
      pool := pool[id := frame];
      assert Abs() == SetFrame(st, id, frame, lru);
    }

    /** Put a block that is not resident into a new frame. */
    method Load(id: nat, frame: Frame)
      requires Valid() && id !in pool && id < nextId && used + blockSize <= poolBytes
      requires frame.data == file[id] && frame.pins == 1 && !frame.inLru
      modifies this`pool, this`used
      ensures Valid() && pool == old(pool)[id := frame] && frame.data == contents[id]
    {
      ghost var st := Abs();
      LoadedInv(st, id, frame);
      assert BlockOk(st, id);
      pool := pool[id := frame];
      used := used + blockSize;
      assert Abs() == Loaded(st, id, frame);
    }

    method MarkDirty(id: nat)
      requires Valid()
      modifies this
      ensures Valid() && Abs() == Marked(old(Abs()), id)
    {
      MarkedInv(Abs(), id);
      if id in pool {
        pool := pool[id := pool[id].(dirty := true)];
      }
      unmarked := unmarked - {id};
    }

    /** A client's store through the pointer of a pinned handle. */
    method Write(id: nat, data: Block)
      requires Valid() && id in pool && pool[id].pins > 0 && |data| == blockSize
      modifies this
      ensures Valid() && id < nextId == old(nextId) && contents == old(contents)[id := data]
      ensures unmarked == old(unmarked) + {id} && lru == old(lru)
      ensures pool == old(pool)[id := old(pool)[id].(data := data)]
    {
      StoredInv(Abs(), id, data);
      pool := pool[id := pool[id].(data := data)];
      contents := contents[id := data];
      unmarked := unmarked + {id};
    }

    /** The next block number, with a zero block for it at the end of the file. */
    method Grow() returns (id: nat)
      requires Valid()
      modifies this`nextId, this`file, this`contents
      ensures Valid() && id == old(nextId) && nextId == id + 1 && id !in pool
      ensures contents == old(contents) + [Zeros(blockSize)]
    {
      GrownInv(Abs());
      id := nextId;
      nextId := nextId + 1;
      file := file + [Zeros(blockSize)];
      contents := contents + [Zeros(blockSize)];
    }

    /** A new zero block, pinned.  The block number is taken and the file grows even when
        no frame is free for it. */
    method AllocateBlock() returns (r: Result<nat>)
      requires Valid()
      modifies this
      ensures Valid() && nextId == old(nextId) + 1 && unmarked == old(unmarked)
      ensures contents == old(contents) + [Zeros(blockSize)]
      ensures r.Ok? <==> Bytes(blockSize, |PinnedIds(old(pool))| + 1) <= poolBytes
      ensures r.Ok? ==> r.value == old(nextId) && r.value in pool && pool[r.value].pins == 1
      ensures PinCounts(pool) == if r.Ok? then PinCounts(old(pool))[old(nextId) := 1] else PinCounts(old(pool))
      ensures forall x :: x in pool && x != old(nextId) ==> x in old(pool) && pool[x] == old(pool)[x]
    {
      var id := Grow();
      var ok := EnsureSpace();
      if !ok { return Err; }
      assert BlockOk(Abs(), id);
      CountsSet(pool, id, Frame(Zeros(blockSize), 1, true, false));
      Load(id, Frame(Zeros(blockSize), 1, true, false));
      return Ok(id);
    }

    /** Write every dirty frame back.  Afterwards the file holds the last written contents
        of every block whose writes were all marked. */
    method Flush()
      requires Valid()
      modifies this
      ensures Valid() && contents == old(contents) && unmarked == old(unmarked) && nextId == old(nextId)
      ensures lru == old(lru) && pool.Keys == old(pool).Keys
      ensures forall id :: id in pool ==> pool[id] == old(pool)[id].(dirty := false)
      ensures forall id :: 0 <= id < nextId && id !in unmarked ==> file[id] == contents[id]
    {
      ghost var before := Abs();
      pool, file := CleanFrames(before, pool, file);
      assert Abs() == before.(pool := pool, file := file);
      forall id: nat | id < nextId && id !in unmarked ensures file[id] == contents[id] { CleanBlock(Abs(), id); }
    }
  }

  /** Take the victim off the queue and out of the pool, written back if dirty. */
  method PopVictim(pool: map<nat, Frame>, lru: seq<nat>, file: seq<Block>, used: nat, blockSize: nat)
    returns (pool': map<nat, Frame>, lru': seq<nat>, file': seq<Block>, used': nat)
    requires lru != [] && lru[|lru| - 1] in pool && lru[|lru| - 1] < |file| && blockSize <= used
    ensures lru' == lru[..|lru| - 1] && pool' == pool - {lru[|lru| - 1]} && used' == used - blockSize
    ensures
      var victim := lru[|lru| - 1];
      file' == if pool[victim].dirty then file[victim := pool[victim].data] else file
  {
    var victim := lru[|lru| - 1];
    lru' := lru[..|lru| - 1];
    file' := file;
    if pool[victim].dirty {
      file' := file[victim := pool[victim].data];
    }
    pool', used' := pool - {victim}, used - blockSize;
  }

  predicate CleanCopy(pool: map<nat, Frame>, pool': map<nat, Frame>, todo: set<nat>) {
    pool'.Keys == pool.Keys &&
    forall id: nat :: id in pool ==> pool'[id] == if id in todo then pool[id] else pool[id].(dirty := false)
  }

  method CleanFrame(ghost st: Store, id: nat, pool: map<nat, Frame>, file: seq<Block>)
      returns (pool': map<nat, Frame>, file': seq<Block>)
    requires Inv(st) && id in pool && st.pool == pool && st.file == file
    ensures Inv(st.(pool := pool', file := file')) && pool' == pool[id := pool[id].(dirty := false)]
  {
    CleanedInv(st, id);
    file' := file[id := pool[id].data];
    pool' := pool[id := pool[id].(dirty := false)];
    assert st.(pool := pool', file := file') == Cleaned(st, id);
  }

  /** Write back and mark clean, one frame after the other. */
  method CleanFrames(ghost st: Store, pool: map<nat, Frame>, file: seq<Block>)
      returns (pool': map<nat, Frame>, file': seq<Block>)
    requires Inv(st) && st.pool == pool && st.file == file
    ensures Inv(st.(pool := pool', file := file')) && CleanCopy(pool, pool', {})
  {
    pool', file' := pool, file;
    var todo := pool.Keys;
    ghost var now := st;
    while todo != {}
      invariant todo <= pool.Keys && Inv(now) && now == st.(pool := pool', file := file')
      invariant CleanCopy(pool, pool', todo)
    {
      var id :| id in todo;
      todo := todo - {id};
      if pool'[id].dirty {
        pool', file' := CleanFrame(now, id, pool', file');
        now := st.(pool := pool', file := file');
      }
    }
  }

  /** A block whose frame, if it has one, is clean is on file as it was last written. */
  lemma CleanBlock(st: Store, id: nat)
    requires Inv(st) && id < st.nextId && id !in st.unmarked && (id in st.pool ==> !st.pool[id].dirty)
    ensures st.file[id] == st.contents[id]
  {
    assert BlockOk(st, id);
    if id in st.pool { assert FrameOk(st, id); }
  }

  // ----- Every run of a client -----

  datatype Op =
    | Allocate
    | PinBlock(id: nat)
    | WriteBlock(id: nat, data: Block)
    | DirtyBlock(id: nat)
    | UnpinBlock(id: nat)
    | FlushAll

  datatype Obs = Allocated(id: nat) | Shown(data: Block) | Refused | Done | Skipped

  /** The reference: a plain array of blocks, a count of handles for each block that has
      any, and the blocks with a store that was not marked dirty.  No frames, no queue. */
  datatype Ref = Ref(contents: seq<Block>, pins: map<nat, nat>, unmarked: set<nat>)

  const NEW_FILE := Ref([], map[], {})

  /** The blocks with handles leave room for one more frame. */
  predicate RoomFor(poolBytes: nat, blockSize: nat, ref: Ref) { blockSize * (|ref.pins.Keys| + 1) <= poolBytes }

  function Handles(ref: Ref, id: nat): nat { if id in ref.pins then ref.pins[id] else 0 }

  /** One operation: the state after it, and what the client observes.  A store or an unpin
      that no handle allows is skipped, and so is giving up the last handle of a block with
      a store that was not marked dirty. */
  function RefStep(poolBytes: nat, blockSize: nat, ref: Ref, op: Op): (Ref, Obs) {
    match op
    case Allocate =>
      var id, grown := |ref.contents|, ref.(contents := ref.contents + [Zeros(blockSize)]);
      if RoomFor(poolBytes, blockSize, ref) then (grown.(pins := ref.pins[id := 1]), Allocated(id))
      else (grown, Refused)
    case PinBlock(id) =>
      if id < |ref.contents| && (id in ref.pins || RoomFor(poolBytes, blockSize, ref)) then
        (ref.(pins := ref.pins[id := Handles(ref, id) + 1]), Shown(ref.contents[id]))
      else (ref, Refused)
    case WriteBlock(id, data) =>
      if id in ref.pins && id < |ref.contents| && |data| == blockSize then
        (ref.(contents := ref.contents[id := data], unmarked := ref.unmarked + {id}), Done)
      else (ref, Skipped)
    case DirtyBlock(id) => (ref.(unmarked := ref.unmarked - {id}), Done)
    case UnpinBlock(id) =>
      if Handles(ref, id) == 0 || (Handles(ref, id) == 1 && id in ref.unmarked) then (ref, Skipped)
      else if Handles(ref, id) == 1 then (ref.(pins := ref.pins - {id}), Done)
      else (ref.(pins := ref.pins[id := ref.pins[id] - 1]), Done)
    case FlushAll => (ref, Done)
  }

  function RefState(poolBytes: nat, blockSize: nat, ops: seq<Op>): Ref {
    if ops == [] then NEW_FILE
    else RefStep(poolBytes, blockSize, RefState(poolBytes, blockSize, ops[..|ops| - 1]), ops[|ops| - 1]).0
  }

  /** What the reference lets a client observe at operation k. */
  function RefObs(poolBytes: nat, blockSize: nat, ops: seq<Op>, k: nat): Obs
    requires k < |ops|
  {
    RefStep(poolBytes, blockSize, RefState(poolBytes, blockSize, ops[..k]), ops[k]).1
  }

  // ----- One operation of the pool is one operation of the reference -----

  /** The pool shows what the reference holds. */
  ghost predicate Couples(st: Store, ref: Ref) {
    Inv(st) && st.contents == ref.contents && st.unmarked == ref.unmarked && PinCounts(st.pool) == ref.pins
  }

  lemma CoupledHandles(st: Store, ref: Ref, id: nat)
    requires Couples(st, ref)
    ensures Handles(ref, id) == if id in st.pool then st.pool[id].pins else 0
    ensures |ref.contents| == st.nextId && (id in st.pool ==> id < st.nextId)
  {
  }

  /** Room for one more frame is the same for the pool and the reference. */
  lemma SameRoom(st: Store, ref: Ref)
    requires Couples(st, ref)
    ensures Bytes(st.blockSize, |PinnedIds(st.pool)| + 1) <= st.poolBytes <==> RoomFor(st.poolBytes, st.blockSize, ref)
  {
    assert PinCounts(st.pool).Keys == PinnedIds(st.pool);
    BytesIsProduct(st.blockSize, |PinnedIds(st.pool)| + 1);
  }

  /** An unpinned resident frame leaves room for one more. */
  lemma UnpinnedLeavesRoom(st: Store, id: nat)
    requires Inv(st) && id in st.pool && st.pool[id].pins == 0
    ensures Bytes(st.blockSize, |PinnedIds(st.pool)| + 1) <= st.poolBytes
  {
    PoolSize(st);
    assert id in st.lru by { assert Queued(st, id); }
    BytesMono(st.blockSize, |PinnedIds(st.pool)| + 1, |st.pool|);
  }

  lemma PinAllowed(st: Store, ref: Ref, id: nat)
    requires Couples(st, ref)
    ensures id in st.pool || (id < st.nextId && Bytes(st.blockSize, |PinnedIds(st.pool)| + 1) <= st.poolBytes)
      <==> id < |ref.contents| && (id in ref.pins || RoomFor(st.poolBytes, st.blockSize, ref))
  {
    SameRoom(st, ref);
    CoupledHandles(st, ref, id);
    if id in st.pool && st.pool[id].pins == 0 { UnpinnedLeavesRoom(st, id); }
  }

  method PerformAllocate(bm: BufferManager, ghost ref: Ref) returns (obs: Obs)
    requires Couples(bm.Abs(), ref)
    modifies bm
    ensures Couples(bm.Abs(), RefStep(bm.poolBytes, bm.blockSize, ref, Allocate).0)
    ensures obs == RefStep(bm.poolBytes, bm.blockSize, ref, Allocate).1
  {
    SameRoom(bm.Abs(), ref);
    CoupledHandles(bm.Abs(), ref, bm.nextId);
    var r := bm.AllocateBlock();
    obs := if r.Ok? then Allocated(r.value) else Refused;
  }

  method PerformPin(bm: BufferManager, id: nat, ghost ref: Ref) returns (obs: Obs)
    requires Couples(bm.Abs(), ref)
    modifies bm
    ensures Couples(bm.Abs(), RefStep(bm.poolBytes, bm.blockSize, ref, PinBlock(id)).0)
    ensures obs == RefStep(bm.poolBytes, bm.blockSize, ref, PinBlock(id)).1
  {
    CoupledHandles(bm.Abs(), ref, id);
    PinAllowed(bm.Abs(), ref, id);
    var r := bm.Pin(id);
    if r.Ok? {
      obs := Shown(r.value);
      assert PinCounts(bm.pool) == ref.pins[id := Handles(ref, id) + 1];
    } else {
      obs := Refused;
    }
  }

  method PerformWrite(bm: BufferManager, id: nat, data: Block, ghost ref: Ref) returns (obs: Obs)
    requires Couples(bm.Abs(), ref)
    modifies bm
    ensures Couples(bm.Abs(), RefStep(bm.poolBytes, bm.blockSize, ref, WriteBlock(id, data)).0)
    ensures obs == RefStep(bm.poolBytes, bm.blockSize, ref, WriteBlock(id, data)).1
  {
    if id in bm.pool && bm.pool[id].pins > 0 && |data| == bm.blockSize {
      assert id in PinCounts(bm.pool);
      CountsSet(bm.pool, id, bm.pool[id].(data := data));
      bm.Write(id, data);
      obs := Done;
    } else {
      obs := Skipped;
    }
  }

  method PerformDirty(bm: BufferManager, id: nat, ghost ref: Ref) returns (obs: Obs)
    requires Couples(bm.Abs(), ref)
    modifies bm
    ensures Couples(bm.Abs(), RefStep(bm.poolBytes, bm.blockSize, ref, DirtyBlock(id)).0)
    ensures obs == RefStep(bm.poolBytes, bm.blockSize, ref, DirtyBlock(id)).1
  {
    if id in bm.pool { CountsSet(bm.pool, id, bm.pool[id].(dirty := true)); }
    bm.MarkDirty(id);
    obs := Done;
  }

  method PerformUnpin(bm: BufferManager, id: nat, open: set<nat>, ghost ref: Ref) returns (obs: Obs)
    requires Couples(bm.Abs(), ref) && open == ref.unmarked
    modifies bm
    ensures Couples(bm.Abs(), RefStep(bm.poolBytes, bm.blockSize, ref, UnpinBlock(id)).0)
    ensures obs == RefStep(bm.poolBytes, bm.blockSize, ref, UnpinBlock(id)).1
  {
    CoupledHandles(bm.Abs(), ref, id);
    if id in bm.pool && bm.pool[id].pins > 0 && (bm.pool[id].pins == 1 ==> id !in open) {
      ghost var f := bm.pool[id];
      CountsSet(bm.pool, id, f.(pins := f.pins - 1, inLru := f.pins == 1));
      bm.Unpin(id);
      obs := Done;
    } else {
      obs := Skipped;
    }
  }

  method PerformFlush(bm: BufferManager, ghost ref: Ref) returns (obs: Obs)
    requires Couples(bm.Abs(), ref)
    modifies bm
    ensures Couples(bm.Abs(), ref) && obs == Done
  {
    bm.Flush();
    assert PinCounts(bm.pool) == PinCounts(old(bm.pool));
    obs := Done;
  }

  /** One client operation; `open` is what the client itself keeps track of. */
  method Perform(bm: BufferManager, op: Op, open: set<nat>, ghost ref: Ref) returns (obs: Obs, open': set<nat>)
    requires Couples(bm.Abs(), ref) && open == ref.unmarked
    modifies bm
    ensures
      var (next, out) := RefStep(bm.poolBytes, bm.blockSize, ref, op);
      Couples(bm.Abs(), next) && obs == out && open' == next.unmarked
  {
    open' := open;
    match op {
      case Allocate => obs := PerformAllocate(bm, ref);
      case PinBlock(id) => obs := PerformPin(bm, id, ref);
      case WriteBlock(id, data) =>
        obs := PerformWrite(bm, id, data, ref);
        if obs == Done { open' := open + {id}; }
      case DirtyBlock(id) =>
        obs := PerformDirty(bm, id, ref);
        open' := open - {id};
      case UnpinBlock(id) => obs := PerformUnpin(bm, id, open, ref);
      case FlushAll => obs := PerformFlush(bm, ref);
    }
  }

  /** Any sequence of operations on a pool over an empty file: whatever is evicted, reloaded
      or written back, the client observes exactly what the reference shows. */
  method RunClient(poolBytes: nat, blockSize: nat, ops: seq<Op>) returns (seen: seq<Obs>)
    ensures |seen| == |ops|
    ensures forall k :: 0 <= k < |ops| ==> seen[k] == RefObs(poolBytes, blockSize, ops, k)
  {
    var bm := new BufferManager(poolBytes, blockSize);
    var open: set<nat> := {};
    ghost var ref := NEW_FILE;
    assert PinCounts(bm.pool) == map[];
    seen := [];
    for i := 0 to |ops|
      invariant fresh(bm) && bm.poolBytes == poolBytes && bm.blockSize == blockSize
      invariant Couples(bm.Abs(), ref) && open == ref.unmarked && ref == RefState(poolBytes, blockSize, ops[..i])
      invariant Agrees(poolBytes, blockSize, ops, seen, i)
    {
      var obs;
      obs, open := Perform(bm, ops[i], open, ref);
      RefMore(poolBytes, blockSize, ops, i);
      ref := RefStep(poolBytes, blockSize, ref, ops[i]).0;
      AgreesMore(poolBytes, blockSize, ops, seen, i, obs);
      seen := seen + [obs];
    }
  }

  ghost predicate Agrees(poolBytes: nat, blockSize: nat, ops: seq<Op>, seen: seq<Obs>, n: nat)
    requires n <= |ops|
  {
    |seen| == n && forall k :: 0 <= k < n ==> seen[k] == RefObs(poolBytes, blockSize, ops, k)
  }

  lemma AgreesMore(poolBytes: nat, blockSize: nat, ops: seq<Op>, seen: seq<Obs>, n: nat, obs: Obs)
    requires n < |ops| && Agrees(poolBytes, blockSize, ops, seen, n) && obs == RefObs(poolBytes, blockSize, ops, n)
    ensures Agrees(poolBytes, blockSize, ops, seen + [obs], n + 1)
  {
  }

  lemma RefMore(poolBytes: nat, blockSize: nat, ops: seq<Op>, i: nat)
    requires i < |ops|
    ensures RefState(poolBytes, blockSize, ops[..i + 1]) ==
      RefStep(poolBytes, blockSize, RefState(poolBytes, blockSize, ops[..i]), ops[i]).0
  {
    assert ops[..i + 1][..i] == ops[..i];
  }

  // ----- What the reference shows, read off the history -----

  function Allocations(ops: seq<Op>): nat {
    if ops == [] then 0 else Allocations(ops[..|ops| - 1]) + if ops[|ops| - 1].Allocate? then 1 else 0
  }

  /** What was last written to a block through a handle; a block starts out zero. */
  function LastWritten(poolBytes: nat, blockSize: nat, ops: seq<Op>, id: nat): Block {
    if ops == [] then seq(blockSize, _ => 0)
    else
      var n := |ops| - 1;
      if ops[n].WriteBlock? && ops[n].id == id && RefObs(poolBytes, blockSize, ops, n).Done? then ops[n].data
      else LastWritten(poolBytes, blockSize, ops[..n], id)
  }

  /** Handles of a block: those given out, less those given back. */
  function HandlesOf(poolBytes: nat, blockSize: nat, ops: seq<Op>, id: nat): int {
    if ops == [] then 0
    else
      var n := |ops| - 1;
      HandlesOf(poolBytes, blockSize, ops[..n], id) + Change(ops[n], RefObs(poolBytes, blockSize, ops, n), id)
  }

  ghost predicate RefOk(ref: Ref) { forall id :: id in ref.pins ==> id < |ref.contents| && ref.pins[id] > 0 }

  lemma RefStepOk(poolBytes: nat, blockSize: nat, ref: Ref, op: Op)
    requires RefOk(ref)
    ensures
      var next := RefStep(poolBytes, blockSize, ref, op).0;
      RefOk(next) && |next.contents| == |ref.contents| + if op.Allocate? then 1 else 0
  {
  }

  function Change(op: Op, obs: Obs, id: nat): int {
    match op
    case Allocate => if obs == Allocated(id) then 1 else 0
    case PinBlock(x) => if x == id && obs.Shown? then 1 else 0
    case UnpinBlock(x) => if x == id && obs.Done? then -1 else 0
    case _ => 0
  }

  lemma RefStepHandles(poolBytes: nat, blockSize: nat, ref: Ref, op: Op, id: nat)
    requires RefOk(ref)
    ensures
      var (next, obs) := RefStep(poolBytes, blockSize, ref, op);
      Handles(next, id) == Handles(ref, id) + Change(op, obs, id)
  {
  }

  function BlockAt(ref: Ref, id: nat, blockSize: nat): Block {
    if id < |ref.contents| then ref.contents[id] else Zeros(blockSize)
  }

  lemma RefStepBlock(poolBytes: nat, blockSize: nat, ref: Ref, op: Op, id: nat)
    requires RefOk(ref)
    ensures
      var (next, obs) := RefStep(poolBytes, blockSize, ref, op);
      BlockAt(next, id, blockSize) ==
        if op.WriteBlock? && op.id == id && obs.Done? then op.data else BlockAt(ref, id, blockSize)
  {
  }

  /** The state of the reference is the history: as many blocks as allocations, in each what
      was last written to it, and as many handles as are still out. */
  lemma {:induction false} RefIsHistory(poolBytes: nat, blockSize: nat, ops: seq<Op>, id: nat)
    ensures
      var ref := RefState(poolBytes, blockSize, ops);
      && RefOk(ref) && |ref.contents| == Allocations(ops)
      && Handles(ref, id) == HandlesOf(poolBytes, blockSize, ops, id)
      && BlockAt(ref, id, blockSize) == LastWritten(poolBytes, blockSize, ops, id)
  {
    if ops != [] {
      var n := |ops| - 1;
      RefIsHistory(poolBytes, blockSize, ops[..n], id);
      var ref := RefState(poolBytes, blockSize, ops[..n]);
      RefStepOk(poolBytes, blockSize, ref, ops[n]);
      RefStepHandles(poolBytes, blockSize, ref, ops[n], id);
      RefStepBlock(poolBytes, blockSize, ref, ops[n], id);
    }
  }

  /** The blocks with handles out, read off the history. */
  function HeldBlocks(poolBytes: nat, blockSize: nat, ops: seq<Op>): set<nat> {
    set id: nat | id < Allocations(ops) && HandlesOf(poolBytes, blockSize, ops, id) > 0
  }

  lemma HeldIsPinned(poolBytes: nat, blockSize: nat, ops: seq<Op>)
    ensures HeldBlocks(poolBytes, blockSize, ops) == RefState(poolBytes, blockSize, ops).pins.Keys
  {
    var ref := RefState(poolBytes, blockSize, ops);
    forall id: nat ensures id in HeldBlocks(poolBytes, blockSize, ops) <==> id in ref.pins {
      RefIsHistory(poolBytes, blockSize, ops, id);
    }
  }

  /** What a client is told when `blocks` of them exist, one more frame fits the pool or
      not, and the block of the call has so many handles and was last written so. */
  predicate Told(blockSize: nat, blocks: nat, room: bool, handles: int, last: Block, op: Op, obs: Obs) {
    match op
    case Allocate => obs == if room then Allocated(blocks) else Refused
    case PinBlock(id) => obs == if id < blocks && (handles > 0 || room) then Shown(last) else Refused
    case WriteBlock(_, data) => obs == if handles > 0 && |data| == blockSize then Done else Skipped
    case UnpinBlock(_) => handles == 0 ==> obs == Skipped
    case _ => obs == Done
  }

  function BlockOf(op: Op): nat { if op.PinBlock? || op.WriteBlock? || op.UnpinBlock? then op.id else 0 }

  lemma ToldByStep(poolBytes: nat, blockSize: nat, ref: Ref, op: Op)
    requires RefOk(ref)
    ensures Told(blockSize, |ref.contents|, RoomFor(poolBytes, blockSize, ref), Handles(ref, BlockOf(op)),
      BlockAt(ref, BlockOf(op), blockSize), op, RefStep(poolBytes, blockSize, ref, op).1)
  {
  }

  /** Every answer follows from the calls before it: a block is refused exactly when it does
      not exist, or has no handle and the held blocks and one more do not fit the pool; it is
      shown as it was last written; stores and unpins need a handle. */
  lemma AnswersByHistory(poolBytes: nat, blockSize: nat, ops: seq<Op>, k: nat)
    requires k < |ops|
    ensures
      var before, id := ops[..k], BlockOf(ops[k]);
      var room := blockSize * (|HeldBlocks(poolBytes, blockSize, before)| + 1) <= poolBytes;
      Told(blockSize, Allocations(before), room, HandlesOf(poolBytes, blockSize, before, id),
        LastWritten(poolBytes, blockSize, before, id), ops[k], RefObs(poolBytes, blockSize, ops, k))
  {
    var before := ops[..k];
    HeldIsPinned(poolBytes, blockSize, before);
    RefIsHistory(poolBytes, blockSize, before, BlockOf(ops[k]));
    ToldByStep(poolBytes, blockSize, RefState(poolBytes, blockSize, before), ops[k]);
  }
}
