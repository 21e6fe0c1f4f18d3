/**
  `CopyOnWriteBuffer`: handles that share reference-counted storage and copy it before writing.

  The handles that exist at one time form a set `all`, passed along as a ghost argument. The claim is
  that each of them behaves like a byte string of its own.
 */
module CopyOnWriteBuffer {
  import opened Bytes

  /** `RefCountedObject<Buffer>`: `|data|` is the capacity, the first `size` bytes are in use. */
  class Storage {
    var data: seq<byte>
    var size: nat
    var refCount: nat
    /** The handles that point here. */
    ghost var owners: set<Handle>

    ghost predicate Ok()
      reads this
    {
      size <= |data|
    }

    /** The count is the number of handles pointing here. */
    ghost predicate Counted(all: set<Handle>)
      reads this, all
    {
      refCount == |owners| && forall h | h in owners :: h in all && h.buffer == this
    }

    /** `Buffer(size, capacity)`: the contents are uninitialised. */
    constructor Uninitialized(size: nat, capacity: nat)
      ensures this.size == size && |data| == Max(size, capacity) && refCount == 0 && owners == {}
    {
      var bytes := *;
      this.data := if |bytes| == Max(size, capacity) then bytes else seq(Max(size, capacity), _ => 0);
      this.size := size;
      this.refCount := 0;
      this.owners := {};
    }

    /** `Buffer(data, size, capacity)`. */
    constructor Copy(bytes: seq<byte>, capacity: nat)
      ensures size == |bytes| && |data| == Max(|bytes|, capacity) && refCount == 0 && owners == {}
      ensures data[..size] == bytes
    {
      this.data := bytes + seq(Max(|bytes|, capacity) - |bytes|, _ => 0);
      this.size := |bytes|;
      this.refCount := 0;
      this.owners := {};
    }

    method EnsureCapacityWithHeadroom(capacity: nat)
      requires Ok()
      modifies this`data
      ensures Ok() && |data| >= capacity && |data| >= |old(data)|
      ensures data[..size] == old(data[..size])
      ensures capacity <= |old(data)| ==> data == old(data)
      ensures capacity > |old(data)| ==> |data| >= |old(data)| + |old(data)| / 2   // the headroom
    {
      if capacity <= |data| { return; }
      var newCapacity := Max(capacity, |data| + |data| / 2);
      data := data[..size] + seq(newCapacity - size, _ => 0);
    }

    method SetSize(newSize: nat)
      requires Ok()
      modifies this`data, this`size
      ensures Ok() && size == newSize && |data| >= |old(data)|
      ensures data[..Min(newSize, old(size))] == old(data[..Min(newSize, size)])
      ensures newSize <= |old(data)| ==> data == old(data)
    {
      EnsureCapacityWithHeadroom(newSize);
      assert data[..size][..Min(newSize, size)] == data[..Min(newSize, size)];
      size := newSize;
    }

    method AppendData(bytes: seq<byte>)
      requires Ok()
      modifies this`data, this`size
      ensures Ok() && size == old(size) + |bytes| && |data| >= |old(data)|
      ensures data[..size] == old(data[..size]) + bytes
      ensures size <= |old(data)| ==> |data| == |old(data)|
    {
      var newSize := size + |bytes|;
      EnsureCapacityWithHeadroom(newSize);
      data := data[..size] + bytes + data[newSize..];
      size := newSize;
    }

    /** `SetSize(keep)` and then `AppendData(bytes)`. */
    method ReplaceTail(keep: nat, bytes: seq<byte>)
      requires Ok() && keep <= size
      modifies this`data, this`size
      ensures Ok() && size == keep + |bytes| && |data| >= |old(data)|
      ensures data[..size] == old(data[..keep]) + bytes
      ensures size <= |old(data)| ==> |data| == |old(data)|
    {
      SetSize(keep);
      AppendData(bytes);
    }

    method SetData(bytes: seq<byte>)
      requires Ok()
      modifies this`data, this`size
      ensures Ok() && size == |bytes| && |data| >= |old(data)|
      ensures data[..size] == bytes
    {
      size := 0;
      AppendData(bytes);
    }
  }

  /** Every handle lies within its storage, and every storage knows the handles that point to it. */
  ghost predicate World(all: set<Handle>)
    reads all, set h | h in all && h.buffer != null :: h.buffer
  {
    forall h | h in all :: h.Linked(all)
  }

  /** The reference count of a storage is the number of handles that point to it. */
  lemma CountsHandles(all: set<Handle>, h: Handle)
    requires World(all) && h in all && h.buffer != null
    ensures h.buffer.refCount == |set g | g in all && g.buffer == h.buffer|
  {
    assert (set g | g in all && g.buffer == h.buffer) == h.buffer.owners;
  }

  /** The count drops to zero, and the storage is freed, exactly when no handle points to it. */
  lemma FreedIffUnused(all: set<Handle>, s: Storage)
    requires World(all) && s.Counted(all)
    ensures s.refCount == 0 <==> forall h | h in all :: h.buffer != s
  {
    if s.refCount != 0 {
      var h :| h in s.owners;
      assert h in all && h.buffer == s;
    }
  }

  /** A possibly null reference as a frame. */
  ghost function Frame(s: Storage?): set<Storage> {
    if s == null then {} else {s}
  }

  lemma SoleOwner(all: set<Handle>, h: Handle)
    requires World(all) && h in all && h.buffer != null && h.buffer.refCount == 1
    ensures forall g | g in all && g != h :: g.buffer != h.buffer
  {
    var owners := h.buffer.owners;
    assert |owners - {h}| == 0;
    forall g | g in all && g != h ensures g.buffer != h.buffer {
      assert g !in owners - {h};
    }
  }

  /** A slice that grows begins with what it was. */
  lemma SamePart(kept: seq<byte>, data: seq<byte>, offset: nat, size: nat, newSize: nat)
    requires |kept| == offset + size <= offset + newSize <= |data| && data[..offset + size] == kept
    ensures data[offset..offset + newSize][..size] == kept[offset..]
  {
    SliceOfSlice(data, offset, offset + newSize, 0, size);
    SliceOfSlice(data, 0, offset + size, offset, offset + size);
  }

  class Handle {
    var buffer: Storage?
    var offset: nat
    var size: nat

    ghost predicate Consistent()
      reads this, buffer
    {
      if buffer == null then offset == 0 && size == 0
      else buffer.Ok() && offset + size <= buffer.size
    }

    ghost predicate Linked(all: set<Handle>)
      reads this, buffer, all
    {
      Consistent() && (buffer != null ==> this in buffer.owners && buffer.Counted(all))
    }

    /** The byte string this handle stands for. */
    ghost function Contents(): seq<byte>
      reads this, buffer
    {
      if buffer == null || offset + size > |buffer.data| then [] else buffer.data[offset..offset + size]
    }

    /** No other handle has changed, and a storage that was shared has not been written to. */
    twostate predicate Isolated(all: set<Handle>)
      reads *
    {
      && (forall h | h in all && h != this :: h.Contents() == old(h.Contents()))
      && (old(buffer) != null && old(buffer.refCount) != 1 ==>
            old(buffer).data == old(buffer.data) && old(buffer).size == old(buffer.size))
    }

    function Capacity(): nat
      reads this, buffer
    {
      if buffer == null || |buffer.data| < offset then 0 else |buffer.data| - offset
    }

    /** The remaining clause of `IsConsistent`. */
    ghost predicate HasCapacity()
      reads this, buffer
    {
      buffer != null ==> |buffer.data| > 0
    }

    lemma Shown(all: set<Handle>)
      requires this in all && World(all)
      ensures Linked(all) && Consistent() && |Contents()| == size
      ensures if buffer == null then Contents() == []
              else Contents() == buffer.data[offset..offset + size] && buffer.Counted(all) && this in buffer.owners
    {
    }

    lemma ShownEmpty(all: set<Handle>)
      requires buffer == null && offset == 0 && size == 0
      ensures Linked(all) && Contents() == []
    {
    }

    /** Gives up the reference. */
    method Release(ghost all: set<Handle>)
      requires this in all && World(all)
      modifies this, Frame(buffer)`refCount, Frame(buffer)`owners
      ensures World(all)
      ensures buffer == null && offset == 0 && size == 0 && Contents() == []
      ensures old(buffer) != null ==> old(buffer).Counted(all) && old(buffer).owners == old(buffer.owners) - {this}
      ensures Isolated(all)
    {
      Shown(all);
      if buffer == null { return; }
      buffer.refCount := buffer.refCount - 1;
      buffer.owners := buffer.owners - {this};
      buffer, offset, size := null, 0, 0;
      ShownEmpty(all);
      forall h | h in all && h != this ensures h.Linked(all) && h.Contents() == old(h.Contents()) {
        assert old(h.Linked(all));
      }
    }

    method AddRef(p: Storage, offset: nat, size: nat, ghost all: set<Handle>)
      requires this in all && World(all) && buffer == null
      requires p.Ok() && offset + size <= p.size && p.Counted(all)
      modifies this, p`refCount, p`owners
      ensures World(all)
      ensures buffer == p && this.offset == offset && this.size == size
      ensures p.owners == old(p.owners) + {this}
      ensures Isolated(all)
    {
      assert this !in p.owners;
      p.refCount := p.refCount + 1;
      p.owners := p.owners + {this};
      buffer := p;
      this.offset := offset;
      this.size := size;
      assert Linked(all);
      forall h | h in all && h != this ensures h.Linked(all) && h.Contents() == old(h.Contents()) {
        assert old(h.Linked(all));
      }
    }

    method Reslice(offset: nat, size: nat, ghost all: set<Handle>)
      requires this in all && World(all)
      requires if buffer == null then offset == 0 && size == 0 else offset + size <= buffer.size
      modifies this`offset, this`size
      ensures World(all) && Isolated(all)
      ensures buffer == old(buffer) && this.offset == offset && this.size == size
      ensures Contents() == if buffer == null then [] else buffer.data[offset..offset + size]
    {
      this.offset := offset;
      this.size := size;
    }

    /** Assignment to `buffer_`. The original takes the new reference before it gives up the old one;
        that matters only if both are the same, and then the two cancel out. */
    method Repoint(p: Storage?, offset: nat, size: nat, ghost all: set<Handle>)
      requires this in all && World(all)
      requires if p == null then offset == 0 && size == 0
               else p.Ok() && offset + size <= p.size && p.Counted(all)
      modifies this, Frame(buffer)`refCount, Frame(buffer)`owners, Frame(p)`refCount, Frame(p)`owners
      ensures World(all)
      ensures buffer == p && this.offset == offset && this.size == size
      ensures p != null ==> p.owners == old(p.owners) + {this}
      ensures Contents() == if p == null then [] else p.data[offset..offset + size]
      ensures Isolated(all)
    {
      hide World, Handle.Contents;
      Shown(all);
      if p == buffer {
        Reslice(offset, size, all);
      } else {
        Release(all);
        if p != null {
          TakeRef(p, offset, size, all);
        }
      }
    }

    method TakeRef(p: Storage, offset: nat, size: nat, ghost all: set<Handle>)
      requires this in all && World(all) && buffer == null
      requires p.Ok() && offset + size <= p.size && p.Counted(all)
      modifies this, p`refCount, p`owners
      ensures World(all)
      ensures buffer == p && this.offset == offset && this.size == size
      ensures p.owners == old(p.owners) + {this} && Contents() == p.data[offset..offset + size]
      ensures Isolated(all)
    {
      hide World, Handle.Contents;
      AddRef(p, offset, size, all);
      Shown(all);
    }

    /** Copies the slice to a storage of its own unless it is the only owner and has enough room. */
    method UnshareAndEnsureCapacity(newCapacity: nat, ghost all: set<Handle>)
      requires this in all && World(all) && buffer != null
      modifies this, buffer`refCount, buffer`owners
      ensures World(all) && Isolated(all)
      ensures buffer != null && buffer.refCount == 1
      ensures Contents() == old(Contents()) && size == old(size)
      ensures Capacity() >= newCapacity
      // It copies only if it has to.
      ensures old(buffer.refCount == 1 && newCapacity <= Capacity()) ==> buffer == old(buffer)
      ensures fresh(buffer) || (buffer == old(buffer) && offset == old(offset) && old(buffer.refCount) == 1)
      ensures |buffer.data| > 0 <==>
        if old(buffer.refCount) == 1 && newCapacity <= old(Capacity()) then |old(buffer.data)| > 0 else newCapacity + size > 0
    {
      hide World, Handle.Contents;
      Shown(all);
      if buffer.refCount == 1 && newCapacity <= Capacity() {
        return;
      }
      var copy := new Storage.Copy(buffer.data[offset..offset + size], newCapacity);
      Repoint(copy, 0, size, all);
      Shown(all);
    }

    // What the only owner of a storage may do to it, seen by nobody else.

    method AppendInPlace(bytes: seq<byte>, ghost all: set<Handle>)
      requires this in all && World(all) && buffer != null && buffer.refCount == 1
      modifies this`size, buffer`data, buffer`size
      ensures World(all) && Isolated(all)
      ensures Contents() == old(Contents()) + bytes && |buffer.data| >= |old(buffer.data)|
      ensures bytes == [] ==> |buffer.data| == |old(buffer.data)|
    {
      SoleOwner(all, this);
      ghost var kept := buffer.data[..offset + size];
      buffer.ReplaceTail(offset + size, bytes);   // removes data to the right of the slice
      size := size + |bytes|;
      assert Contents() == (kept + bytes)[offset..] == kept[offset..] + bytes;
      forall h | h in all && h != this ensures h.Linked(all) && h.Contents() == old(h.Contents()) {
        assert old(h.Linked(all));
      }
    }

    method GrowInPlace(newSize: nat, ghost all: set<Handle>)
      requires this in all && World(all) && buffer != null && buffer.refCount == 1 && size <= newSize
      modifies this`size, buffer`data, buffer`size
      ensures World(all) && Isolated(all)
      ensures |Contents()| == newSize && Contents()[..old(size)] == old(Contents()) && |buffer.data| >= |old(buffer.data)|
    {
      SoleOwner(all, this);
      ghost var kept := buffer.data[..offset + size];
      assert Contents() == kept[offset..];
      buffer.SetSize(newSize + offset);
      assert buffer.data[..offset + size] == kept;
      SamePart(kept, buffer.data, offset, size, newSize);
      size := newSize;
      forall h | h in all && h != this ensures h.Linked(all) && h.Contents() == old(h.Contents()) {
        assert old(h.Linked(all));
      }
    }

    method ReplaceInPlace(bytes: seq<byte>, ghost all: set<Handle>)
      requires this in all && World(all) && buffer != null && buffer.refCount == 1
      modifies this`offset, this`size, buffer`data, buffer`size
      ensures World(all) && Isolated(all)
      ensures Contents() == bytes && |buffer.data| >= |old(buffer.data)|
    {
      SoleOwner(all, this);
      buffer.SetData(bytes);
      offset, size := 0, |bytes|;
      forall h | h in all && h != this ensures h.Linked(all) && h.Contents() == old(h.Contents()) {
        assert old(h.Linked(all));
      }
    }

    method StoreInPlace(i: nat, b: byte, ghost all: set<Handle>)
      requires this in all && World(all) && buffer != null && buffer.refCount == 1 && i < size
      modifies buffer`data
      ensures World(all) && Isolated(all)
      ensures Contents() == old(Contents())[i := b]
    {
      SoleOwner(all, this);
      buffer.data := buffer.data[offset + i := b];
    }

    /** `data()`: before it hands out a pointer the handle gets a storage of its own, and may lose the
        capacity clause over it. */
    method Data(ghost all: set<Handle>)
      requires this in all && World(all)
      modifies this, Frame(buffer)`refCount, Frame(buffer)`owners
      ensures World(all) && Isolated(all)
      ensures (buffer == null <==> old(buffer) == null) && (buffer != null ==> buffer.refCount == 1)
      ensures buffer != null ==> fresh(buffer) || (buffer == old(buffer) && offset == old(offset) && old(buffer.refCount) == 1)
      ensures Contents() == old(Contents()) && size == old(size)
      ensures old(HasCapacity()) ==>
        (HasCapacity() <==> !old(buffer != null && buffer.refCount != 1 && Capacity() == 0))
    {
      if buffer != null {
        UnshareAndEnsureCapacity(Capacity(), all);
      }
    }

    /** Writing through the pointer that `data()` or `operator[]` hands out. */
    method Write(i: nat, b: byte, ghost all: set<Handle>)
      requires this in all && World(all) && i < size
      modifies this, Frame(buffer)
      ensures World(all) && Isolated(all)
      ensures buffer == null || buffer == old(buffer) || fresh(buffer)
      ensures Contents() == old(Contents())[i := b]
    {
      Data(all);
      StoreInPlace(i, b, all);
    }

    method SetData(bytes: seq<byte>, ghost all: set<Handle>)
      requires this in all && World(all)
      modifies this, Frame(buffer)
      ensures World(all) && Isolated(all)
      ensures buffer == null || buffer == old(buffer) || fresh(buffer)
      ensures Contents() == bytes
      ensures old(buffer != null && buffer.refCount == 1) ==> buffer == old(buffer)
      ensures old(HasCapacity()) ==>
        (HasCapacity() <==> !(bytes == [] && old(buffer != null && buffer.refCount != 1 && Capacity() == 0)))
    {
      hide World, Handle.Contents;
      Shown(all);
      if buffer == null {
        if |bytes| > 0 {
          var s := new Storage.Copy(bytes, 0);
          Repoint(s, 0, |bytes|, all);
        }
      } else if buffer.refCount != 1 {
        var s := new Storage.Copy(bytes, Capacity());
        Repoint(s, 0, |bytes|, all);
      } else {
        ReplaceInPlace(bytes, all);
      }
    }

    method AppendData(bytes: seq<byte>, ghost all: set<Handle>)
      requires this in all && World(all)
      modifies this, Frame(buffer)
      ensures World(all) && Isolated(all)
      ensures buffer == null || buffer == old(buffer) || fresh(buffer)
      ensures Contents() == old(Contents()) + bytes
      ensures old(HasCapacity()) ==>
        (HasCapacity() <==> !(bytes == [] && old(buffer == null || (buffer.refCount != 1 && Capacity() == 0))))
    {
      hide World, Handle.Contents;
      Shown(all);
      if buffer == null {
        var s := new Storage.Copy(bytes, 0);
        Repoint(s, 0, |bytes|, all);
        return;
      }
      UnshareAndEnsureCapacity(Max(Capacity(), size + |bytes|), all);
      AppendInPlace(bytes, all);
    }

    /** The bytes added by growing are not specified. */
    method SetSize(newSize: nat, ghost all: set<Handle>)
      requires this in all && World(all)
      modifies this, Frame(buffer)
      ensures World(all) && Isolated(all)
      ensures buffer == null || buffer == old(buffer) || fresh(buffer)
      ensures |Contents()| == newSize
      ensures Contents()[..Min(newSize, old(size))] == old(Contents()[..Min(newSize, size)])
      ensures newSize <= old(size) ==> buffer == old(buffer)
      ensures old(HasCapacity()) ==> HasCapacity()
    {
      hide World, Handle.Contents;
      Shown(all);
      if buffer == null {
        if newSize > 0 {
          var s := new Storage.Uninitialized(newSize, newSize);
          Repoint(s, 0, newSize, all);
        }
        return;
      }
      if newSize <= size {
        Narrow(0, newSize, all);
        return;
      }
      UnshareAndEnsureCapacity(Max(Capacity(), newSize), all);
      GrowInPlace(newSize, all);
    }

    method EnsureCapacity(newCapacity: nat, ghost all: set<Handle>)
      requires this in all && World(all)
      modifies this, Frame(buffer)
      ensures World(all) && Isolated(all)
      ensures buffer == null || buffer == old(buffer) || fresh(buffer)
      ensures Contents() == old(Contents()) && Capacity() >= newCapacity
      ensures newCapacity <= old(Capacity()) ==> buffer == old(buffer)
      ensures old(HasCapacity()) ==> HasCapacity()
    {
      hide World, Handle.Contents;
      Shown(all);
      if buffer == null {
        if newCapacity > 0 {
          var s := new Storage.Uninitialized(0, newCapacity);
          Repoint(s, 0, 0, all);
        }
      } else if newCapacity > Capacity() {
        UnshareAndEnsureCapacity(newCapacity, all);
      }
    }

    method ClearInPlace(ghost all: set<Handle>)
      requires this in all && World(all) && buffer != null && buffer.refCount == 1
      modifies this`offset, this`size, buffer`size
      ensures World(all) && Isolated(all) && Contents() == [] && offset == 0
    {
      SoleOwner(all, this);
      buffer.size := 0;
      offset, size := 0, 0;
      forall h | h in all && h != this ensures h.Linked(all) && h.Contents() == old(h.Contents()) {
        assert old(h.Linked(all));
      }
    }

    /** The capacity stays what it was, except that the sole owner gets back what its offset took away. */
    method Clear(ghost all: set<Handle>)
      requires this in all && World(all)
      modifies this, Frame(buffer)
      ensures World(all) && Isolated(all)
      ensures buffer == null || buffer == old(buffer) || fresh(buffer)
      ensures Contents() == [] && (buffer == null <==> old(buffer) == null)
      ensures old(buffer != null && buffer.refCount == 1) ==> buffer == old(buffer)
      ensures Capacity() == old(Capacity()) + if old(buffer != null && buffer.refCount == 1) then old(offset) else 0
      ensures old(HasCapacity()) ==>
        (HasCapacity() <==> !old(buffer != null && buffer.refCount != 1 && Capacity() == 0))
    {
      hide World, Handle.Contents;
      Shown(all);
      if buffer == null { return; }
      if buffer.refCount == 1 {
        ClearInPlace(all);
      } else {
        var s := new Storage.Uninitialized(0, Capacity());
        Repoint(s, 0, 0, all);
      }
    }

    /** Copy assignment, and `SetData` from another buffer: the storage is shared. */
    method CopyFrom(other: Handle, ghost all: set<Handle>)
      requires this in all && other in all && World(all)
      modifies this, Frame(buffer)`refCount, Frame(buffer)`owners, Frame(other.buffer)`refCount, Frame(other.buffer)`owners
      ensures World(all) && Isolated(all)
      ensures buffer == old(other.buffer) && Contents() == old(other.Contents())
      ensures offset == old(other.offset) && size == old(other.size)
    {
      hide World, Handle.Contents;
      other.Shown(all);
      if other != this {
        Repoint(other.buffer, other.offset, other.size, all);
      }
    }

    /** Move assignment: the other handle is left empty. Moving a handle to itself empties it too: the
        storage is moved away and back, and then the offset and size are cleared. */
    method MoveFrom(other: Handle, ghost all: set<Handle>)
      requires this in all && other in all && World(all)
      modifies this, other, Frame(buffer)`refCount, Frame(buffer)`owners, Frame(other.buffer)`refCount, Frame(other.buffer)`owners
      ensures World(all)
      ensures forall h | h in all && h != this && h != other :: h.Contents() == old(h.Contents())
      ensures other.Contents() == []
      ensures other != this ==> Contents() == old(other.Contents())
      ensures buffer == old(other.buffer) && (other != this ==> other.buffer == null)
    {
      if other == this {
        Reslice(0, 0, all);
      } else {
        MoveFromOther(other, all);
      }
    }

    method MoveFromOther(other: Handle, ghost all: set<Handle>)
      requires this in all && other in all && World(all) && other != this
      modifies this, other, Frame(buffer)`refCount, Frame(buffer)`owners, Frame(other.buffer)`refCount, Frame(other.buffer)`owners
      ensures World(all)
      ensures forall h | h in all && h != this && h != other :: h.Contents() == old(h.Contents())
      ensures other.Contents() == [] && Contents() == old(other.Contents())
      ensures buffer == old(other.buffer) && other.buffer == null
    {
      hide World, Handle.Contents;
      CopyFrom(other, all);
      other.Release(all);
    }

    /** An empty buffer, and with it a larger world. */
    constructor (ghost all: set<Handle>)
      requires World(all)
      ensures fresh(this) && World(all + {this})
      ensures buffer == null && Contents() == []
    {
      buffer, offset, size := null, 0, 0;
    }

    /** The destructor of the handle. */
    method Destroy(ghost all: set<Handle>)
      requires this in all && World(all)
      modifies this, Frame(buffer)`refCount, Frame(buffer)`owners
      ensures World(all - {this})
      ensures forall h | h in all && h != this :: h.Contents() == old(h.Contents())
    {
      Release(all);
    }

    /** The copy constructor. */
    method Duplicate(ghost all: set<Handle>) returns (copy: Handle)
      requires this in all && World(all)
      modifies Frame(buffer)`refCount, Frame(buffer)`owners
      ensures fresh(copy) && World(all + {copy})
      ensures copy.buffer == buffer && copy.offset == offset && copy.size == size && copy.Contents() == old(Contents())
      ensures forall h | h in all :: h.Contents() == old(h.Contents())
    {
      hide World, Handle.Contents;
      copy := new Handle(all);
      copy.CopyFrom(this, all + {copy});
    }

    /** A slice shares the storage. */
    method Slice(offset: nat, length: nat, ghost all: set<Handle>) returns (slice: Handle)
      requires this in all && World(all) && offset + length <= size
      modifies Frame(buffer)`refCount, Frame(buffer)`owners
      ensures fresh(slice) && World(all + {slice})
      ensures slice.buffer == buffer && slice.Contents() == old(Contents())[offset..offset + length]
      ensures slice.size == length && slice.offset == if buffer == null then 0 else this.offset + offset
      ensures forall h | h in all :: h.Contents() == old(h.Contents())
    {
      hide World, Handle.Contents;
      Shown(all);
      slice := Duplicate(all);
      slice.Narrow(offset, length, all + {slice});
    }

    method Narrow(offset: nat, length: nat, ghost all: set<Handle>)
      requires this in all && World(all) && offset + length <= size
      modifies this`offset, this`size
      ensures World(all) && Isolated(all)
      ensures Contents() == old(Contents())[offset..offset + length]
      ensures size == length && this.offset == old(this.offset) + if buffer == null then 0 else offset
    {
      hide World, Handle.Contents;
      Shown(all);
      if buffer != null {
        SliceOfSlice(buffer.data, this.offset, this.offset + size, offset, offset + length);
      }
      Reslice(this.offset + if buffer == null then 0 else offset, length, all);
    }

    /** `operator==`: the same view of the same storage, or the same bytes. */
    method Equals(other: Handle, ghost all: set<Handle>) returns (equal: bool)
      requires this in all && other in all && World(all)
      ensures equal <==> Contents() == other.Contents()
    {
      if size != other.size {
        equal := false;
      } else if buffer == other.buffer && offset == other.offset {
        equal := true;
      } else if buffer == null || other.buffer == null {
        equal := size == 0;
      } else {
        equal := buffer.data[offset..offset + size] == other.buffer.data[other.offset..other.offset + size];
      }
    }
  }

  // ---------------------------------------------------------------------------------------------
  // Whole runs
  // ---------------------------------------------------------------------------------------------

  // Where the capacity clause is lost.

  /** Appending nothing to an empty buffer makes a storage without capacity. */
  method AppendNothing() returns (h: Handle)
    ensures fresh(h) && World({h}) && h.Contents() == []
    ensures h.buffer != null && !h.HasCapacity()
  {
    h := new Handle({});
    assert {} + {h} == {h};
    h.AppendData([], {h});
  }

  /** So does `data()` on an empty slice at the end of a full storage, and `SetData` and `Clear`. */
  method TouchEmptySlice() returns (h: Handle, slice: Handle)
    ensures fresh(h) && fresh(slice) && World({h, slice}) && h.Contents() == [7] && h.HasCapacity()
    ensures slice.Contents() == [] && slice.buffer != null && !slice.HasCapacity()
  {
    h := new Handle({});
    assert {} + {h} == {h};
    var s := new Storage.Copy([7], 0);
    h.Repoint(s, 0, 1, {h});
    assert h.Contents() == [7];
    slice := h.Slice(1, 0, {h});
    assert {h} + {slice} == {h, slice};
    SharedByTwo(slice.buffer, h, slice);
    slice.Data({h, slice});
  }

  /** `Clear` on a slice that is the last owner of its storage raises the capacity. */
  method ClearSlice() returns (slice: Handle, before: nat, after: nat)
    ensures fresh(slice) && World({slice}) && before == 1 && after == slice.Capacity() == 2
  {
    hide World, Handle.Contents;
    NoHandles();
    var h := new Handle({});
    assert {} + {h} == {h};
    var s := new Storage.Copy([7, 8], 0);
    h.Repoint(s, 0, 2, {h});
    slice := h.Slice(1, 1, {h});
    assert {h} + {slice} == {h, slice};
    before := slice.Capacity();
    h.Destroy({h, slice});
    assert {h, slice} - {h} == {slice};
    LastOwner(slice);
    slice.Clear({slice});
    after := slice.Capacity();
  }

  lemma NoHandles()
    ensures World({})
  {
  }

  lemma LastOwner(h: Handle)
    requires World({h}) && h.buffer != null
    ensures h.buffer.refCount == 1
  {
    assert h.Linked({h});
    assert h.buffer.owners == {h};
  }

  lemma SharedByTwo(s: Storage, g: Handle, h: Handle)
    requires g != h && g in s.owners && h in s.owners && s.refCount == |s.owners|
    ensures s.refCount != 1
  {
    assert {g, h} <= s.owners;
    assert |s.owners - {g}| == |s.owners| - 1 && h in s.owners - {g};
  }

  /** One call on a list of buffers, named by their places in the list. */
  datatype Op =
    | Copy(to: nat, from: nat)
    | Move(to: nat, from: nat)
    | TakeSlice(to: nat, from: nat, offset: nat, length: nat)
    | Put(to: nat, index: nat, value: byte)
    | Set(to: nat, bytes: seq<byte>)
    | Append(to: nat, bytes: seq<byte>)
    | Resize(to: nat, size: nat)
    | Reserve(to: nat, capacity: nat)
    | Touch(to: nat)   // data()
    | Empty(to: nat)

  /** The buffers exist, and the indices are within the string. */
  predicate Allowed(op: Op, strings: seq<seq<byte>>) {
    && op.to < |strings|
    && (op.Copy? || op.Move? || op.TakeSlice? ==> op.from < |strings|)
    && (op.TakeSlice? ==> op.offset + op.length <= |strings[op.from]|)
    && (op.Put? ==> op.index < |strings[op.to]|)
  }

  function Replaced(s: seq<byte>, i: nat, b: byte): seq<byte>
    requires i < |s|
  {
    s[i := b]
  }

  /** What the call does to a list of independent byte strings. */
  ghost predicate Means(op: Op, before: seq<seq<byte>>, after: seq<seq<byte>>)
    requires Allowed(op, before)
  {
    match op
    case Copy(to, from) => after == before[to := before[from]]
    case Move(to, from) => after == before[to := if to == from then [] else before[from]][from := []]
    case TakeSlice(to, from, offset, length) => after == before[to := before[from][offset..offset + length]]
    case Put(to, index, value) => after == before[to := Replaced(before[to], index, op.value)]
    case Set(to, bytes) => after == before[to := bytes]
    case Append(to, bytes) => after == before[to := before[to] + bytes]
    case Resize(to, size) =>
      && |after| == |before| && after == before[to := after[to]]
      && |after[to]| == size
      && after[to][..Min(size, |before[to]|)] == before[to][..Min(size, |before[to]|)]
    case Reserve(to, capacity) => after == before
    case Touch(to) => after == before
    case Empty(to) => after == before[to := []]
  }

  ghost predicate Distinct(handles: seq<Handle>) {
    forall i, j | 0 <= i < j < |handles| :: handles[i] != handles[j]
  }

  ghost predicate Shows(handles: seq<Handle>, strings: seq<seq<byte>>)
    reads handles, set i | 0 <= i < |handles| && handles[i].buffer != null :: handles[i].buffer
  {
    |strings| == |handles| && forall i | 0 <= i < |handles| :: handles[i].Contents() == strings[i]
  }

  ghost function Members(handles: seq<Handle>): set<Handle> {
    set i | 0 <= i < |handles| :: handles[i]
  }

  /** Performs a call that changes the bytes of one buffer, and says what the strings are afterwards. */
  method ApplyEdit(handles: seq<Handle>, op: Op, ghost before: seq<seq<byte>>) returns (ghost after: seq<seq<byte>>)
    requires Distinct(handles) && World(Members(handles)) && Shows(handles, before) && Allowed(op, before)
    requires op.Put? || op.Set? || op.Append?
    modifies handles[op.to], Frame(handles[op.to].buffer)
    ensures World(Members(handles)) && Shows(handles, after) && Means(op, before, after)
    ensures handles[op.to].buffer == null || handles[op.to].buffer == old(handles[op.to].buffer) || fresh(handles[op.to].buffer)
  {
    hide World, Handle.Contents;
    SizesShown(handles, before);
    var h := handles[op.to];
    ghost var all := Members(handles);
    if op.Put? {
      h.Write(op.index, op.value, all);
    } else if op.Set? {
      h.SetData(op.bytes, all);
    } else {
      h.AppendData(op.bytes, all);
    }
    after := before[op.to := h.Contents()];
  }

  /** The calls that change the size or the capacity of one buffer. */
  method ApplyResize(handles: seq<Handle>, op: Op, ghost before: seq<seq<byte>>) returns (ghost after: seq<seq<byte>>)
    requires Distinct(handles) && World(Members(handles)) && Shows(handles, before) && Allowed(op, before)
    requires op.Resize? || op.Reserve? || op.Touch? || op.Empty?
    modifies handles[op.to], Frame(handles[op.to].buffer)
    ensures World(Members(handles)) && Shows(handles, after) && Means(op, before, after)
    ensures handles[op.to].buffer == null || handles[op.to].buffer == old(handles[op.to].buffer) || fresh(handles[op.to].buffer)
  {
    hide World, Handle.Contents;
    SizesShown(handles, before);
    var h := handles[op.to];
    ghost var all := Members(handles);
    if op.Resize? {
      h.SetSize(op.size, all);
    } else if op.Reserve? {
      h.EnsureCapacity(op.capacity, all);
    } else if op.Touch? {
      h.Data(all);
    } else {
      h.Clear(all);
    }
    after := before[op.to := h.Contents()];
  }

  /** Copy and move assignment. */
  method ApplyAssign(handles: seq<Handle>, op: Op, ghost before: seq<seq<byte>>) returns (ghost after: seq<seq<byte>>)
    requires Distinct(handles) && World(Members(handles)) && Shows(handles, before) && Allowed(op, before)
    requires op.Copy? || op.Move?
    modifies handles[op.to], handles[op.from], Frame(handles[op.to].buffer), Frame(handles[op.from].buffer)
    ensures World(Members(handles)) && Shows(handles, after) && Means(op, before, after)
    ensures handles[op.to].buffer == old(handles[op.from].buffer)
    ensures op.from != op.to ==>
      handles[op.from].buffer == null || handles[op.from].buffer == old(handles[op.from].buffer)
  {
    hide World, Handle.Contents;
    SizesShown(handles, before);
    var h, g := handles[op.to], handles[op.from];
    ghost var all := Members(handles);
    if op.Copy? {
      h.CopyFrom(g, all);
      after := before[op.to := before[op.from]];
    } else {
      h.MoveFrom(g, all);
      after := before[op.to := if op.to == op.from then [] else before[op.from]][op.from := []];
    }
  }

  /** A slice is taken and moved to its place. */
  method TakeSlice(h: Handle, g: Handle, offset: nat, length: nat, ghost all: set<Handle>)
    requires h in all && g in all && World(all) && offset + length <= g.size
    modifies h, Frame(h.buffer), Frame(g.buffer)
    ensures World(all)
    ensures h.buffer == old(g.buffer) && h.Contents() == old(g.Contents())[offset..offset + length]
    ensures forall k | k in all && k != h :: k.Contents() == old(k.Contents())
  {
    hide World, Handle.Contents;
    var slice := g.Slice(offset, length, all);
    ghost var more := all + {slice};
    h.MoveFrom(slice, more);
    slice.Destroy(more);
    assert more - {slice} == all;
  }

  method ApplySlice(handles: seq<Handle>, op: Op, ghost before: seq<seq<byte>>) returns (ghost after: seq<seq<byte>>)
    requires Distinct(handles) && World(Members(handles)) && Shows(handles, before) && Allowed(op, before)
    requires op.TakeSlice?
    modifies handles[op.to], Frame(handles[op.to].buffer), Frame(handles[op.from].buffer)
    ensures World(Members(handles)) && Shows(handles, after) && Means(op, before, after)
    ensures handles[op.to].buffer == old(handles[op.from].buffer)
  {
    hide World, Handle.Contents;
    SizesShown(handles, before);
    var h, g := handles[op.to], handles[op.from];
    ghost var all := Members(handles);
    TakeSlice(h, g, op.offset, op.length, all);
    after := before[op.to := before[op.from][op.offset..op.offset + op.length]];
  }

  ghost predicate OwnsFrom(handles: seq<Handle>, storages: set<Storage>)
    reads handles
  {
    forall i | 0 <= i < |handles| :: handles[i].buffer == null || handles[i].buffer in storages
  }

  /** Performs the calls that are allowed, one after the other. Every call does to the buffers what it
      would do to independent byte strings: `trace` is the run of the strings. */
  method Run(handles: seq<Handle>, ops: seq<Op>, ghost storages: set<Storage>, ghost start: seq<seq<byte>>)
    returns (ghost trace: seq<seq<seq<byte>>>)
    requires Distinct(handles) && World(Members(handles)) && Shows(handles, start) && OwnsFrom(handles, storages)
    modifies handles, storages
    ensures World(Members(handles))
    ensures |trace| == |ops| + 1 && trace[0] == start && Shows(handles, trace[|ops|])
    ensures forall k | 0 <= k < |ops| ::
      if Allowed(ops[k], trace[k]) then Means(ops[k], trace[k], trace[k + 1]) else trace[k + 1] == trace[k]
  {
    hide World, Means, Shows;
    trace := [start];
    ghost var owned := storages;
    for k := 0 to |ops|
      invariant World(Members(handles))
      invariant |trace| == k + 1 && trace[0] == start && Shows(handles, trace[k])
      invariant fresh(owned - storages) && OwnsFrom(handles, owned)
      invariant forall j | 0 <= j < k ::
        if Allowed(ops[j], trace[j]) then Means(ops[j], trace[j], trace[j + 1]) else trace[j + 1] == trace[j]
    {
      ghost var after;
      after, owned := Apply(handles, ops[k], owned, trace[k]);
      trace := trace + [after];
    }
  }

  lemma SizesShown(handles: seq<Handle>, strings: seq<seq<byte>>)
    requires World(Members(handles)) && Shows(handles, strings)
    ensures |strings| == |handles| && forall i | 0 <= i < |handles| :: handles[i].size == |strings[i]|
  {
    forall i | 0 <= i < |handles| ensures handles[i].size == |strings[i]| {
      assert handles[i] in Members(handles) && handles[i].Contents() == strings[i];
    }
  }

  /** Performs one call if it is allowed. */
  method Apply(handles: seq<Handle>, op: Op, ghost storages: set<Storage>, ghost before: seq<seq<byte>>)
    returns (ghost after: seq<seq<byte>>, ghost owned: set<Storage>)
    requires Distinct(handles) && World(Members(handles)) && Shows(handles, before) && OwnsFrom(handles, storages)
    modifies handles, storages
    ensures World(Members(handles)) && Shows(handles, after)
    ensures storages <= owned && fresh(owned - storages) && OwnsFrom(handles, owned)
    ensures if Allowed(op, before) then Means(op, before, after) else after == before
  {
    hide World, Means, Shows, Distinct, Handle.Contents;
    SizesShown(handles, before);
    after, owned := before, storages;
    if op.to >= |handles| { return; }
    if op.Copy? || op.Move? {
      if op.from < |handles| {
        after := ApplyAssign(handles, op, before);
      }
    } else if op.TakeSlice? {
      if op.from < |handles| && op.offset + op.length <= handles[op.from].size {
        after := ApplySlice(handles, op, before);
      }
    } else if op.Put? && op.index >= handles[op.to].size {
      return;
    } else if op.Put? || op.Set? || op.Append? {
      after := ApplyEdit(handles, op, before);
      owned := storages + Frame(handles[op.to].buffer);
    } else {
      after := ApplyResize(handles, op, before);
      owned := storages + Frame(handles[op.to].buffer);
    }
  }
}
