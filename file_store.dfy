/**
 * The single-file store behind every persistent map: space allocation with best-fit reuse of
 * reclaimed regions, growth at end of file, and reads guarded by the tracked file size.
 * Physical I/O is modelled by a map from file offset to byte; decoding of records is a parameter.
 */
module FileStore {
  import opened Wrappers
  import opened LongCodec

  /** Length of the header at offset 0 that persists the tracked file size. */
  const HEADER_SIZE: int := 8

  /** A reclaimed remainder is kept only when it is larger than this many bytes. */
  const MIN_REMAINDER: int := 20

  /**
   * The IllegalArgumentException that escapes a read or a write: allocating a buffer of negative
   * size, or `FileChannel.read`/`write` at a negative position. Only IOException is caught there.
   */
  datatype ChannelError = IllegalArgument

  /** A freed region of the file: `size` bytes starting at `position`. */
  datatype ReclaimedSpace = ReclaimedSpace(position: int, size: int)

  /**
   * The reclaim set is a `TreeSet` whose comparator looks at `size` alone; it is modelled as the
   * sequence of its elements in comparator order. Elements with equal sizes are equal to the set.
   */
  ghost predicate SizeOrdered(s: seq<ReclaimedSpace>) {
    forall i, j :: 0 <= i < j < |s| ==> s[i].size < s[j].size
  }

  ghost predicate HasSize(s: seq<ReclaimedSpace>, size: int) {
    exists i :: 0 <= i < |s| && s[i].size == size
  }

  /**
   * `TreeSet.higher(new ReclaimedSpace(0, size))`: the index of the least element whose size is
   * strictly greater than `size`, or `|s|` when there is none.
   */
  function Higher(s: seq<ReclaimedSpace>, size: int): (k: nat)
    ensures k <= |s|
    ensures k < |s| ==> s[k].size > size
    ensures forall i :: 0 <= i < k ==> s[i].size <= size
    ensures SizeOrdered(s) ==> forall i :: 0 <= i < |s| && s[i].size > size ==> k <= i
  {
    if s == [] then 0
    else if s[0].size > size then 0
    else 1 + Higher(s[1..], size)
  }

  /** `TreeSet.remove` of the element at comparator position `k`. */
  function RemoveAt(s: seq<ReclaimedSpace>, k: nat): (t: seq<ReclaimedSpace>)
    requires k < |s|
    ensures |t| == |s| - 1
    ensures forall x :: x in t ==> x in s
    ensures SizeOrdered(s) ==> SizeOrdered(t) && !HasSize(t, s[k].size)
  {
    var t := s[..k] + s[k + 1..];
    assert forall i :: 0 <= i < |t| ==> t[i] == if i < k then s[i] else s[i + 1];
    t
  }

  /** What `RemoveAt` keeps: every other element. */
  lemma RemoveAtFacts(s: seq<ReclaimedSpace>, k: nat)
    requires SizeOrdered(s) && k < |s|
    ensures forall x :: x in RemoveAt(s, k) <==> x in s && x != s[k]
  {
    var t := RemoveAt(s, k);
    forall x | x in s && x != s[k] ensures x in t {
      var m :| 0 <= m < |s| && s[m] == x;
      if m < k { assert t[m] == x; } else { assert t[m - 1] == x; }
    }
  }

  /** What `RemoveAt` keeps: every other size. */
  lemma RemoveAtSize(s: seq<ReclaimedSpace>, k: nat, z: int)
    requires SizeOrdered(s) && k < |s| && z != s[k].size
    ensures HasSize(RemoveAt(s, k), z) <==> HasSize(s, z)
  {
    var t := RemoveAt(s, k);
    if HasSize(s, z) {
      var m :| 0 <= m < |s| && s[m].size == z;
      if m < k { assert t[m].size == z; } else { assert t[m - 1].size == z; }
    }
  }

  /**
   * `TreeSet.add`: inserts `r` at its comparator position, unless an element of the same size is
   * already present, in which case the set is left unchanged and `r` is dropped.
   */
  function TreeAdd(s: seq<ReclaimedSpace>, r: ReclaimedSpace): (t: seq<ReclaimedSpace>)
    ensures forall x :: x in t ==> x in s || x == r
    ensures SizeOrdered(s) ==> SizeOrdered(t)
  {
    if s == [] then [r]
    else if r.size < s[0].size then [r] + s
    else if r.size == s[0].size then s
    else
      var rest := TreeAdd(s[1..], r);
      assert forall x :: x in s[1..] ==> x in s;
      assert SizeOrdered(s) ==> forall x :: x in rest ==> x.size > s[0].size;
      [s[0]] + rest
  }

  /** Adding a region whose size is already in the set leaves the set unchanged. */
  lemma {:induction false} TreeAddSameSize(s: seq<ReclaimedSpace>, r: ReclaimedSpace)
    requires SizeOrdered(s) && HasSize(s, r.size)
    ensures TreeAdd(s, r) == s
  {
    var i :| 0 <= i < |s| && s[i].size == r.size;
    if i > 0 {
      OrderedTail(s, i);
      TreeAddSameSize(s[1..], r);
      TreeAddPasses(s, r);
    }
  }

  /** Past a smaller first element, adding keeps that element and adds to the tail. */
  lemma TreeAddPasses(s: seq<ReclaimedSpace>, r: ReclaimedSpace)
    requires s != [] && s[0].size < r.size
    ensures TreeAdd(s, r) == [s[0]] + TreeAdd(s[1..], r)
    ensures [s[0]] + s[1..] == s
  {
  }

  /** The tail of an ordered set is ordered, and keeps every size past the first. */
  lemma OrderedTail(s: seq<ReclaimedSpace>, i: nat)
    requires SizeOrdered(s) && 0 < i < |s|
    ensures SizeOrdered(s[1..]) && s[0].size < s[i].size && HasSize(s[1..], s[i].size)
  {
    assert s[1..][i - 1] == s[i];
  }

  /** Adding a region of a new size inserts it and keeps every element. */
  lemma {:induction false} TreeAddNewSize(s: seq<ReclaimedSpace>, r: ReclaimedSpace)
    requires !HasSize(s, r.size)
    ensures |TreeAdd(s, r)| == |s| + 1
    ensures r in TreeAdd(s, r) && forall x :: x in s ==> x in TreeAdd(s, r)
  {
    if s != [] && r.size > s[0].size {
      assert forall i :: 0 <= i < |s| - 1 ==> s[1..][i] == s[i + 1];
      assert !HasSize(s[1..], r.size);
      TreeAddNewSize(s[1..], r);
      assert forall x :: x in s ==> x == s[0] || x in s[1..];
    }
  }

  /** The abstract allocator state: reclaim set and tracked file size. */
  datatype AllocState = AllocState(reclaim: seq<ReclaimedSpace>, fileSize: int)

  /** Result of `allocate`: the new allocator state and the returned file position. */
  datatype Allocation = Allocation(state: AllocState, position: int)

  /**
   * `allocate(size)`: reuse the smallest reclaimed region strictly larger than `size`, splitting
   * off the remainder when it exceeds 20 bytes; otherwise grow the file by `size` bytes.
   */
  function AllocateSpec(st: AllocState, size: int): (a: Allocation)
    ensures SizeOrdered(st.reclaim) ==> SizeOrdered(a.state.reclaim)
  {
    var k := Higher(st.reclaim, size);
    if k < |st.reclaim| then
      Allocation(AllocState(Reuse(st.reclaim, k, size), st.fileSize), st.reclaim[k].position)
    else
      Allocation(AllocState(st.reclaim, st.fileSize + size), st.fileSize)
  }

  /** The reclaim set after the region at `k` is reused for `size` bytes: a remainder over 20 bytes is put back. */
  function Reuse(reclaim: seq<ReclaimedSpace>, k: nat, size: int): (t: seq<ReclaimedSpace>)
    requires k < |reclaim|
    ensures SizeOrdered(reclaim) ==> SizeOrdered(t)
  {
    var space := reclaim[k];
    var rest := RemoveAt(reclaim, k);
    if size + MIN_REMAINDER < space.size
    then TreeAdd(rest, ReclaimedSpace(space.position + size, space.size - size))
    else rest
  }

  /** `deallocate(position, size)`: only inserts the region into the reclaim set. */
  function DeallocateSpec(st: AllocState, position: int, size: int): (st': AllocState)
    ensures st'.fileSize == st.fileSize
    ensures SizeOrdered(st.reclaim) ==> SizeOrdered(st'.reclaim)
  {
    AllocState(TreeAdd(st.reclaim, ReclaimedSpace(position, size)), st.fileSize)
  }

  /** The bytes `[position, position + size)` of the file; bytes never written read as zero. */
  function Bytes(content: map<int, Byte>, position: int, size: nat): (b: seq<Byte>)
    ensures |b| == size
    ensures forall i :: 0 <= i < size ==> b[i] == if position + i in content then content[position + i] else 0
  {
    seq(size, i => if position + i in content then content[position + i] else 0)
  }

  function Span(position: int, n: nat): (r: set<int>)
    ensures forall p :: p in r <==> position <= p < position + n
  {
    if n == 0 then {} else Span(position, n - 1) + {position + n - 1}
  }

  /** The file after writing `bytes` at `position`. */
  function WriteAt(content: map<int, Byte>, position: int, bytes: seq<Byte>): (c: map<int, Byte>)
    ensures forall i :: 0 <= i < |bytes| ==> position + i in c && c[position + i] == bytes[i]
    ensures forall p :: p in content && !(position <= p < position + |bytes|) ==> p in c && c[p] == content[p]
    ensures forall p :: p in c ==> p in content || position <= p < position + |bytes|
  {
    map p | p in content.Keys + Span(position, |bytes|)
      :: if position <= p < position + |bytes| then bytes[p - position] else content[p]
  }

  class FileChannelStore {
    /** Tracked size of the used part of the file (`AtomicLong fileSize`). */
    var fileSize: int
    /** The reclaim `TreeSet`, in comparator order. */
    var reclaim: seq<ReclaimedSpace>
    /** The physical file contents. */
    var content: map<int, Byte>

    ghost predicate Valid()
      reads this
    {
      SizeOrdered(reclaim)
    }

    ghost function State(): AllocState
      reads this
    {
      AllocState(reclaim, fileSize)
    }

    /**
     * Opens a file whose current bytes are `existing`, then `setSize`: an empty file reserves the
     * 8-byte header with `allocate(8)`; otherwise the tracked size is loaded from the header.
     */
    constructor Open(existing: seq<Byte>)
      ensures Valid() && reclaim == []
      ensures |existing| == 0 ==> fileSize == HEADER_SIZE && Bytes(content, 0, 8) == WriteLong(HEADER_SIZE)
      ensures |existing| > 0 ==> fileSize == ReadLong(Bytes(content, 0, 8))
      ensures |existing| > 0 ==> content == map i | 0 <= i < |existing| :: existing[i]
    {
      fileSize := |existing|;
      reclaim := [];
      content := map i | 0 <= i < |existing| :: existing[i];
      new;
      var header := Read(0, 8);
      if header == Ok(None) || |existing| == 0 {
        var _ := Allocate(HEADER_SIZE);
        assert Bytes(content, 0, 8) == WriteLong(HEADER_SIZE);
      } else {
        fileSize := ReadLong(header.value.value);
      }
    }

    /**
     * `read(position, size)`: nothing when `position` is at or beyond the tracked size, otherwise
     * the bytes at that position; a negative size (the buffer allocation) or a negative position
     * (`FileChannel.read`) is an IllegalArgumentException.
     */
    method Read(position: int, size: int) returns (r: Result<Option<seq<Byte>>, ChannelError>)
      ensures position >= fileSize ==> r == Ok(None)
      ensures position < fileSize && (size < 0 || position < 0) ==> r == Err(IllegalArgument)
      ensures 0 <= position < fileSize && 0 <= size ==> r == Ok(Some(Bytes(content, position, size)))
    {
      if position >= fileSize {
        return Ok(None);
      }
      if size < 0 || position < 0 {
        return Err(IllegalArgument);
      }
      r := Ok(Some(Bytes(content, position, size)));
    }

    /**
     * `read(position, size, type)`: as `Read`, then decoded by the type's serializer, either as
     * an `ObjectSerializable` (`readObject`) or by `ObjectBuffer.unwrap`; a decoding failure is `None`.
     */
    method ReadObject<T>(position: int, size: int, serializable: bool,
                         readObject: (seq<Byte>, int) -> Option<T>,
                         unwrap: seq<Byte> -> Option<T>) returns (r: Result<Option<T>, ChannelError>)
      ensures position >= fileSize ==> r == Ok(None)
      ensures position < fileSize && (size < 0 || position < 0) ==> r == Err(IllegalArgument)
      ensures 0 <= position < fileSize && 0 <= size && serializable ==> r == Ok(readObject(Bytes(content, position, size), position))
      ensures 0 <= position < fileSize && 0 <= size && !serializable ==> r == Ok(unwrap(Bytes(content, position, size)))
    {
      if position >= fileSize {
        return Ok(None);
      }
      if size < 0 || position < 0 {
        return Err(IllegalArgument);
      }
      var buffer := Bytes(content, position, size);
      if serializable {
        r := Ok(readObject(buffer, position));
      } else {
        r := Ok(unwrap(buffer));
      }
    }

    /**
     * `read(position, size, type, serializerId)`: a positive serializer id selects that
     * serializer; otherwise as `ReadObject`.
     */
    method ReadWithSerializer<T>(position: int, size: int, serializable: bool, serializerId: int,
                                 unwrapWithId: (seq<Byte>, int) -> Option<T>,
                                 readObject: (seq<Byte>, int) -> Option<T>,
                                 unwrap: seq<Byte> -> Option<T>) returns (r: Result<Option<T>, ChannelError>)
      ensures position >= fileSize ==> r == Ok(None)
      ensures position < fileSize && (size < 0 || position < 0) ==> r == Err(IllegalArgument)
      ensures 0 <= position < fileSize && 0 <= size && serializerId > 0 ==>
        r == Ok(unwrapWithId(Bytes(content, position, size), serializerId))
      ensures 0 <= position < fileSize && 0 <= size && serializerId <= 0 && serializable ==>
        r == Ok(readObject(Bytes(content, position, size), position))
      ensures 0 <= position < fileSize && 0 <= size && serializerId <= 0 && !serializable ==>
        r == Ok(unwrap(Bytes(content, position, size)))
    {
      if position >= fileSize {
        return Ok(None);
      }
      if size < 0 || position < 0 {
        return Err(IllegalArgument);
      }
      var buffer := Bytes(content, position, size);
      if serializerId > 0 {
        r := Ok(unwrapWithId(buffer, serializerId));
      } else if serializable {
        r := Ok(readObject(buffer, position));
      } else {
        r := Ok(unwrap(buffer));
      }
    }

    /**
     * `write(buffer, position)`: writes every byte of the buffer and returns how many;
     * `FileChannel.write` at a negative position is an IllegalArgumentException and writes nothing.
     */
    method Write(bytes: seq<Byte>, position: int) returns (written: Result<int, ChannelError>)
      modifies this`content
      ensures position < 0 ==> written == Err(IllegalArgument) && content == old(content)
      ensures 0 <= position ==> written == Ok(|bytes|) && content == WriteAt(old(content), position, bytes)
    {
      if position < 0 {
        return Err(IllegalArgument);
      }
      content := WriteAt(content, position, bytes);
      written := Ok(|bytes|);
    }

    /**
     * `allocate(size)`: a reclaimed region strictly larger than `size` is reused at its own
     * position and the tracked size is unchanged; otherwise the file grows by `size` bytes, the
     * old end of file is returned and the new size is written as a `long` at offset 0.
     */
    method Allocate(size: int) returns (position: int)
      requires Valid()
      modifies this
      ensures Valid()
      ensures State() == AllocateSpec(old(State()), size).state
      ensures position == AllocateSpec(old(State()), size).position
      ensures Higher(old(reclaim), size) < |old(reclaim)| ==> content == old(content)
      ensures Higher(old(reclaim), size) == |old(reclaim)| ==>
                content == WriteAt(old(content), 0, WriteLong(ToLong(old(fileSize) + size)))
    {
      if |reclaim| > 0 {
        var k := Higher(reclaim, size);
        if k < |reclaim| {
          ghost var r0 := reclaim;
          var space := reclaim[k];
          position := space.position;
          reclaim := RemoveAt(reclaim, k);
          if size + MIN_REMAINDER < space.size {
            reclaim := TreeAdd(reclaim, ReclaimedSpace(space.position + size, space.size - size));
          }
          assert reclaim == Reuse(r0, k, size);
          return;
        }
      }
      position := fileSize;
      fileSize := fileSize + size;
      var _ := Write(WriteLong(ToLong(position + size)), 0);
    }

    /** `deallocate(position, size)`: adds the region to the reclaim set and changes nothing else. */
    method Deallocate(position: int, size: int)
      requires Valid()
      modifies this`reclaim
      ensures Valid()
      ensures State() == DeallocateSpec(old(State()), position, size)
    {
      reclaim := TreeAdd(reclaim, ReclaimedSpace(position, size));
    }
  }

  // ---------------------------------------------------------------------------------------
  // Properties of the allocator

  /**
   * Best fit: when some reclaimed region is strictly larger than the request, the returned
   * position is that of the smallest such region and the tracked file size is unchanged. A region
   * of exactly the requested size never qualifies.
   */
  lemma AllocateBestFit(st: AllocState, size: int)
    requires SizeOrdered(st.reclaim)
    requires exists i :: 0 <= i < |st.reclaim| && st.reclaim[i].size > size
    ensures var a := AllocateSpec(st, size);
            a.state.fileSize == st.fileSize &&
            exists j :: 0 <= j < |st.reclaim| && st.reclaim[j].position == a.position &&
              st.reclaim[j].size > size &&
              forall i :: 0 <= i < |st.reclaim| && st.reclaim[i].size > size ==> st.reclaim[j].size <= st.reclaim[i].size
  {
    var k := Higher(st.reclaim, size);
    var i :| 0 <= i < |st.reclaim| && st.reclaim[i].size > size;
    assert k <= i;
    assert forall m :: 0 <= m < |st.reclaim| && st.reclaim[m].size > size ==> k == m || st.reclaim[k].size < st.reclaim[m].size;
  }

  /** With no region strictly larger than the request, the file grows by exactly `size` at its old end. */
  lemma AllocateGrows(st: AllocState, size: int)
    requires forall i :: 0 <= i < |st.reclaim| ==> st.reclaim[i].size <= size
    ensures AllocateSpec(st, size) == Allocation(AllocState(st.reclaim, st.fileSize + size), st.fileSize)
  {
    assert Higher(st.reclaim, size) == |st.reclaim|;
  }

  /** Two growth allocations in a row return adjacent ranges. */
  lemma GrowthIsAdjacent(st: AllocState, size1: int, size2: int)
    requires forall i :: 0 <= i < |st.reclaim| ==> st.reclaim[i].size <= size1 && st.reclaim[i].size <= size2
    ensures var a1 := AllocateSpec(st, size1);
            var a2 := AllocateSpec(a1.state, size2);
            a2.position == a1.position + size1 && a2.state.fileSize == a2.position + size2
  {
    AllocateGrows(st, size1);
    AllocateGrows(AllocateSpec(st, size1).state, size2);
  }

  /**
   * The split rule, large remainder: when the chosen region `r` exceeds the request by more than
   * 20 bytes, `r` leaves the set and `(r.position + size, r.size - size)` is put back, unless a
   * region of that size is already reclaimed, in which case the remainder is lost.
   */
  lemma AllocateSplitsLargeRemainder(st: AllocState, size: int)
    requires SizeOrdered(st.reclaim) && size > 0
    requires Higher(st.reclaim, size) < |st.reclaim|
    requires st.reclaim[Higher(st.reclaim, size)].size > size + MIN_REMAINDER
    ensures var r := st.reclaim[Higher(st.reclaim, size)];
            var t := AllocateSpec(st, size).state.reclaim;
            var left := ReclaimedSpace(r.position + size, r.size - size);
            && r !in t
            && (forall x :: x in t ==> x in st.reclaim || x == left)
            && (forall x :: x in st.reclaim && x != r ==> x in t)
            && (!HasSize(st.reclaim, left.size) ==> left in t && |t| == |st.reclaim|)
            && (HasSize(st.reclaim, left.size) ==> |t| == |st.reclaim| - 1)
  {
    var k := Higher(st.reclaim, size);
    var left := ReclaimedSpace(st.reclaim[k].position + size, st.reclaim[k].size - size);
    ReuseReclaim(st, size, left);
    SplitAt(st.reclaim, k, left);
  }

  /** The reclaim set after a reuse that splits off a large remainder. */
  lemma ReuseReclaim(st: AllocState, size: int, left: ReclaimedSpace)
    requires Higher(st.reclaim, size) < |st.reclaim|
    requires st.reclaim[Higher(st.reclaim, size)].size > size + MIN_REMAINDER
    requires left == ReclaimedSpace(st.reclaim[Higher(st.reclaim, size)].position + size,
                                    st.reclaim[Higher(st.reclaim, size)].size - size)
    ensures AllocateSpec(st, size).state.reclaim == TreeAdd(RemoveAt(st.reclaim, Higher(st.reclaim, size)), left)
  {
  }

  /** Removing the region at `k` and putting back a region `left` of another size. */
  lemma SplitAt(s: seq<ReclaimedSpace>, k: nat, left: ReclaimedSpace)
    requires SizeOrdered(s) && k < |s| && left.size != s[k].size
    ensures var t := TreeAdd(RemoveAt(s, k), left);
            && s[k] !in t
            && (forall x :: x in t ==> x in s || x == left)
            && (forall x :: x in s && x != s[k] ==> x in t)
            && (!HasSize(s, left.size) ==> left in t && |t| == |s|)
            && (HasSize(s, left.size) ==> |t| == |s| - 1)
  {
    RemoveAtFacts(s, k);
    RemoveAtSize(s, k, left.size);
    SplitRemainder(RemoveAt(s, k), s, s[k], left);
  }

  /** Putting the remainder `left` of `r` back into `rest`, the set `s` without `r`. */
  lemma SplitRemainder(rest: seq<ReclaimedSpace>, s: seq<ReclaimedSpace>, r: ReclaimedSpace, left: ReclaimedSpace)
    requires SizeOrdered(rest) && r != left && |rest| == |s| - 1
    requires forall x :: x in rest <==> x in s && x != r
    requires HasSize(rest, left.size) <==> HasSize(s, left.size)
    ensures var t := TreeAdd(rest, left);
            && r !in t
            && (forall x :: x in t ==> x in s || x == left)
            && (forall x :: x in s && x != r ==> x in t)
            && (!HasSize(s, left.size) ==> left in t && |t| == |s|)
            && (HasSize(s, left.size) ==> |t| == |s| - 1)
  {
    if HasSize(rest, left.size) {
      TreeAddSameSize(rest, left);
    } else {
      TreeAddNewSize(rest, left);
    }
  }

  /**
   * The split rule, small remainder: when the chosen region exceeds the request by at most 20
   * bytes, the whole region is consumed and nothing is put back.
   */
  lemma AllocateConsumesSmallRemainder(st: AllocState, size: int)
    requires SizeOrdered(st.reclaim)
    requires Higher(st.reclaim, size) < |st.reclaim|
    requires st.reclaim[Higher(st.reclaim, size)].size <= size + MIN_REMAINDER
    ensures var r := st.reclaim[Higher(st.reclaim, size)];
            var t := AllocateSpec(st, size).state.reclaim;
            |t| == |st.reclaim| - 1 && forall x :: x in t <==> x in st.reclaim && x != r
  {
    var k := Higher(st.reclaim, size);
    RemoveAtFacts(st.reclaim, k);
  }

  /** The size-only comparator: freeing a region whose size is already reclaimed changes nothing. */
  lemma DeallocateSameSizeCollapses(st: AllocState, position: int, size: int)
    requires SizeOrdered(st.reclaim) && HasSize(st.reclaim, size)
    ensures DeallocateSpec(st, position, size) == st
  {
    TreeAddSameSize(st.reclaim, ReclaimedSpace(position, size));
  }

  /** Freeing a region of a size not yet reclaimed makes it available; nothing else is lost. */
  lemma DeallocateNewSizeInserts(st: AllocState, position: int, size: int)
    requires !HasSize(st.reclaim, size)
    ensures var t := DeallocateSpec(st, position, size).reclaim;
            ReclaimedSpace(position, size) in t && forall x :: x in st.reclaim ==> x in t
  {
    TreeAddNewSize(st.reclaim, ReclaimedSpace(position, size));
  }

  // ---------------------------------------------------------------------------------------
  // Space-accounting invariant: live and reclaimed regions never overlap and lie inside the file.

  predicate Apart(a: ReclaimedSpace, b: ReclaimedSpace) {
    a.position + a.size <= b.position || b.position + b.size <= a.position
  }

  predicate Inside(x: ReclaimedSpace, f: ReclaimedSpace) {
    f.position <= x.position && x.position + x.size <= f.position + f.size
  }

  ghost function Free(st: AllocState): set<ReclaimedSpace> {
    set r | r in st.reclaim
  }

  ghost predicate InFile(r: ReclaimedSpace, fileSize: int) {
    0 < r.size && 0 <= r.position && r.position + r.size <= fileSize
  }

  ghost predicate PairwiseApart(u: set<ReclaimedSpace>) {
    forall a, b :: a in u && b in u && a != b ==> Apart(a, b)
  }

  /**
   * `live` are the regions handed out by `allocate` and not yet freed. Every region, live or
   * reclaimed, is non-empty and lies inside `[0, fileSize)`, and no two distinct regions overlap.
   */
  ghost predicate SpaceInvariant(st: AllocState, live: set<ReclaimedSpace>) {
    && SizeOrdered(st.reclaim)
    && 0 <= st.fileSize
    && live !! Free(st)
    && (forall r :: r in live + Free(st) ==> InFile(r, st.fileSize))
    && PairwiseApart(live + Free(st))
  }

  /** Opening an empty file reserves the header with `allocate(8)`: position 0, and the header is live. */
  lemma OpenEstablishesInvariant()
    ensures var a := AllocateSpec(AllocState([], 0), HEADER_SIZE);
            a.position == 0 && SpaceInvariant(a.state, {ReclaimedSpace(0, HEADER_SIZE)})
  {
    var a := AllocateSpec(AllocState([], 0), HEADER_SIZE);
    assert Free(a.state) == {};
  }

  lemma AllocateGrowthKeepsInvariant(st: AllocState, live: set<ReclaimedSpace>, size: int)
    requires SpaceInvariant(st, live) && size > 0
    requires Higher(st.reclaim, size) == |st.reclaim|
    ensures var a := AllocateSpec(st, size);
            SpaceInvariant(a.state, live + {ReclaimedSpace(a.position, size)})
  {
    var a := AllocateSpec(st, size);
    var n := ReclaimedSpace(st.fileSize, size);
    var u := live + Free(st);
    assert Free(a.state) == Free(st);
    assert n !in u;
    forall x | x in u + {n} ensures InFile(x, a.state.fileSize) {}
    forall x, y | x in u + {n} && y in u + {n} && x != y ensures Apart(x, y) {
      if x != n && y != n {
        assert Apart(x, y);
      }
    }
    assert live + {n} + Free(a.state) == u + {n};
  }

  /** What the reclaim set holds after reusing region `f`: a subset of the others plus the remainder. */
  lemma ReuseShrinksFree(st: AllocState, size: int)
    requires SizeOrdered(st.reclaim)
    requires Higher(st.reclaim, size) < |st.reclaim|
    ensures var f := st.reclaim[Higher(st.reclaim, size)];
            Free(AllocateSpec(st, size).state) <= (Free(st) - {f}) + {ReclaimedSpace(f.position + size, f.size - size)}
  {
    var k := Higher(st.reclaim, size);
    RemoveAtFacts(st.reclaim, k);
  }

  lemma ApartFromInside(x: ReclaimedSpace, f: ReclaimedSpace, y: ReclaimedSpace)
    requires Apart(x, f) && Inside(y, f)
    ensures Apart(x, y) && Apart(y, x)
  {
  }

  lemma ApartSubset(w: set<ReclaimedSpace>, v: set<ReclaimedSpace>)
    requires v <= w && PairwiseApart(w)
    ensures PairwiseApart(v)
  {
  }

  /** Regions apart from `f` stay apart from pieces cut out of `f`. */
  lemma ApartWithPieces(others: set<ReclaimedSpace>, f: ReclaimedSpace, pieces: set<ReclaimedSpace>)
    requires PairwiseApart(others) && PairwiseApart(pieces)
    requires forall x :: x in others ==> Apart(x, f)
    requires forall y :: y in pieces ==> Inside(y, f)
    ensures PairwiseApart(others + pieces)
  {
    forall x, y | x in others + pieces && y in others + pieces && x != y ensures Apart(x, y) {
      if x in others && y in pieces {
        ApartFromInside(x, f, y);
      } else if y in others && x in pieces {
        ApartFromInside(y, f, x);
      }
    }
  }

  /**
   * The accounting step of a reuse, on sets alone: `size` bytes at the start of the reclaimed
   * region `f` become live, and the reclaim set afterwards holds at most the other reclaimed
   * regions and the remainder of `f`.
   */
  lemma ReuseKeepsRegionsApart(live: set<ReclaimedSpace>, free: set<ReclaimedSpace>, f: ReclaimedSpace,
                               size: int, free': set<ReclaimedSpace>, fileSize: int)
    requires live !! free && PairwiseApart(live + free)
    requires forall r :: r in live + free ==> InFile(r, fileSize)
    requires f in free && 0 < size < f.size
    requires free' <= (free - {f}) + {ReclaimedSpace(f.position + size, f.size - size)}
    ensures var n := ReclaimedSpace(f.position, size);
            && (live + {n}) !! free'
            && (forall r :: r in live + {n} + free' ==> InFile(r, fileSize))
            && PairwiseApart(live + {n} + free')
  {
    var n := ReclaimedSpace(f.position, size);
    var left := ReclaimedSpace(f.position + size, f.size - size);
    var others := live + free - {f};
    assert forall x :: x in others ==> Apart(x, f);
    var pieces := if left in free' then {n, left} else {n};
    assert forall y :: y in pieces ==> Inside(y, f);
    ApartSubset(live + free, others);
    ApartWithPieces(others, f, pieces);
    assert n !in others by {
      if n in others { ApartFromInside(n, f, n); }
    }
    assert left in free' ==> left !in live by {
      if left in free' && left in live {
        assert left in others;
        ApartFromInside(left, f, left);
      }
    }
    assert live + {n} + free' <= others + pieces;
    ApartSubset(others + pieces, live + {n} + free');
  }

  lemma AllocateReuseKeepsInvariant(st: AllocState, live: set<ReclaimedSpace>, size: int)
    requires SpaceInvariant(st, live) && size > 0
    requires Higher(st.reclaim, size) < |st.reclaim|
    ensures var a := AllocateSpec(st, size);
            SpaceInvariant(a.state, live + {ReclaimedSpace(a.position, size)})
  {
    var f := st.reclaim[Higher(st.reclaim, size)];
    var a := AllocateSpec(st, size);
    ReuseShrinksFree(st, size);
    ReuseKeepsRegionsApart(live, Free(st), f, size, Free(a.state), st.fileSize);
    assert a.position == f.position && a.state.fileSize == st.fileSize;
  }

  lemma DeallocateKeepsInvariant(st: AllocState, live: set<ReclaimedSpace>, r: ReclaimedSpace)
    requires SpaceInvariant(st, live) && r in live
    ensures SpaceInvariant(DeallocateSpec(st, r.position, r.size), live - {r})
  {
    var st' := DeallocateSpec(st, r.position, r.size);
    assert Free(st') <= Free(st) + {r};
    assert (live - {r}) + Free(st') <= live + Free(st);
  }
}
