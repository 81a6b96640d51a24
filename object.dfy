/**
 * The object heap (src/object.c): heap object variants, the allocation list, string interning,
 * closure creation and the sharing of open upvalues.
 *
 * The heap is a registry: a handle is an index into `store`, and an object never moves or
 * disappears before teardown. `objects` is the intrusive allocation list (newest first),
 * `strings` the intern table keyed by content, and `openUpvalues` the open-upvalue list
 * (head first, strictly descending by stack slot).
 *
 * The functions below (`Allocated`, `Interned`, `ClosureCreated`, `Captured`, ...) are the
 * specification; class `ObjectHeap` performs the same operations in place and is proved to
 * agree with them.
 */
module Object {
  import opened Wrappers
  import opened Value
  import Fnv

  /** `Clox_Object_Type`. */
  datatype ObjType = StringType | FunctionType | NativeType | ClosureType | UpvalueType

  /** A compiled chunk: bytecode, constant pool and the parallel source-line table. */
  datatype Chunk = Chunk(code: seq<Byte>, constants: seq<Value>, lines: seq<int>)

  /** An upvalue either refers to a live stack slot or holds its own copy of the value. */
  datatype UpvalueState = Open(slot: nat) | Closed(value: Value)

  /** Identifies a host-provided native function. */
  type NativeId = nat

  /** The heap object variants; each carries the fields of its C struct after the header. */
  datatype Obj =
    | StringObj(length: nat, hash: bv32, characters: seq<Byte>)
    | FunctionObj(arity: nat, upvalueCount: nat, name: Option<Handle>, chunk: Chunk)
    | NativeObj(native: NativeId)
    | ClosureObj(fn: Handle, upvalues: seq<Option<Handle>>)
    | UpvalueObj(state: UpvalueState)

  /** The type tag in an object's header. */
  function TypeTag(o: Obj): ObjType
  {
    match o
    case StringObj(_, _, _) => StringType
    case FunctionObj(_, _, _, _) => FunctionType
    case NativeObj(_) => NativeType
    case ClosureObj(_, _) => ClosureType
    case UpvalueObj(_) => UpvalueType
  }

  /** The chunk of a freshly created function: no code, no constants, no lines. */
  const EmptyChunk := Chunk([], [], [])

  /** The first `length` characters of a string object (the buffer minus its terminator). */
  function Content(o: Obj): seq<Byte>
    requires o.StringObj?
  {
    if o.length <= |o.characters| then o.characters[..o.length] else o.characters
  }

  /** A string object's buffer is its content plus a NUL, and its cached hash is FNV-1a of the content. */
  predicate StringWf(o: Obj)
    requires o.StringObj?
  {
    && |o.characters| == o.length + 1
    && o.characters[o.length] == 0
    && o.hash == Fnv.Hash(o.characters[..o.length])
  }

  /** The object-related part of the VM: registry, allocation list, intern table, open-upvalue list. */
  datatype HeapState = HeapState(
    store: seq<Obj>,
    objects: seq<Handle>,
    strings: map<seq<Byte>, Handle>,
    openUpvalues: seq<Handle>)

  /** A heap after an operation that yields an object, together with that object's handle. */
  datatype Alloc = Alloc(heap: HeapState, handle: Handle)

  const EmptyHeap := HeapState([], [], map[], [])

  /** The allocation list names every object exactly once, newest first. */
  ghost predicate AllocationListWf(h: HeapState)
  {
    && |h.objects| == |h.store|
    && forall i :: 0 <= i < |h.objects| ==> h.objects[i] == |h.store| - 1 - i
  }

  /**
   * Interning: every table entry names a string object with that content, and every string
   * object is the table's entry for its content, so equal contents mean the same object.
   */
  ghost predicate InternTableWf(h: HeapState)
  {
    && (forall bytes :: bytes in h.strings ==>
          && h.strings[bytes] < |h.store|
          && h.store[h.strings[bytes]].StringObj?
          && Content(h.store[h.strings[bytes]]) == bytes)
    && (forall k :: 0 <= k < |h.store| && h.store[k].StringObj? ==>
          && StringWf(h.store[k])
          && Content(h.store[k]) in h.strings
          && h.strings[Content(h.store[k])] == k)
  }

  predicate IsOpenUpvalue(h: HeapState, u: Handle)
  {
    u < |h.store| && h.store[u].UpvalueObj? && h.store[u].state.Open?
  }

  /** The stack slot an open upvalue refers to (its `location`). */
  function Loc(h: HeapState, u: Handle): nat
    requires IsOpenUpvalue(h, u)
  {
    h.store[u].state.slot
  }

  /** Every entry of the open-upvalue list is open, and slots strictly descend along the list. */
  ghost predicate OpenListWf(h: HeapState)
  {
    && (forall i :: 0 <= i < |h.openUpvalues| ==> IsOpenUpvalue(h, h.openUpvalues[i]))
    && (forall i, j :: 0 <= i < j < |h.openUpvalues| ==>
          Loc(h, h.openUpvalues[i]) > Loc(h, h.openUpvalues[j]))
  }

  ghost predicate HeapWf(h: HeapState)
  {
    AllocationListWf(h) && InternTableWf(h) && OpenListWf(h)
  }

  /** Every open upvalue, listed or not, refers to a slot below `n` (the stack capacity). */
  ghost predicate OpenSlotsWithin(h: HeapState, n: nat)
  {
    forall u :: IsOpenUpvalue(h, u) ==> Loc(h, u) < n
  }

  /** The empty heap of a new VM is well formed. */
  lemma EmptyHeapWf(n: nat)
    ensures HeapWf(EmptyHeap) && OpenSlotsWithin(EmptyHeap, n)
  {
  }

  // ---------------------------------------------------------------------------------------
  // Allocation and teardown

  /**
   * `Clox_Object_Allocate`: the new object gets the next handle and becomes the head of the
   * allocation list; the previous list is its tail and no existing object changes.
   */
  function Allocated(heap: HeapState, o: Obj): (r: Alloc)
    ensures AllocationListWf(heap) ==> r.handle !in heap.objects
    ensures r.handle == |heap.store|
    ensures |r.heap.store| == |heap.store| + 1 && r.heap.store[r.handle] == o
    ensures TypeTag(r.heap.store[r.handle]) == TypeTag(o)
    ensures r.heap.objects == [r.handle] + heap.objects
    ensures forall k :: 0 <= k < |heap.store| ==> r.heap.store[k] == heap.store[k]
    ensures r.heap.strings == heap.strings && r.heap.openUpvalues == heap.openUpvalues
  {
    var handle := |heap.store|;
    Alloc(heap.(store := heap.store + [o], objects := [handle] + heap.objects), handle)
  }

  /** Allocating anything but a string keeps the heap well formed (strings go through `Interned`). */
  lemma AllocatedPreservesWf(heap: HeapState, o: Obj, n: nat)
    requires HeapWf(heap) && !o.StringObj?
    ensures HeapWf(Allocated(heap, o).heap)
    ensures (OpenSlotsWithin(heap, n) && (o.UpvalueObj? && o.state.Open? ==> o.state.slot < n))
            ==> OpenSlotsWithin(Allocated(heap, o).heap, n)
  {
    var r := Allocated(heap, o).heap;
    assert forall k :: 0 <= k < |heap.store| ==> r.store[k] == heap.store[k];
    assert forall u :: IsOpenUpvalue(heap, u) ==> IsOpenUpvalue(r, u) && Loc(r, u) == Loc(heap, u);
    forall i | 0 <= i < |r.objects|
      ensures r.objects[i] == |r.store| - 1 - i
    {
      if i > 0 {
        assert r.objects[i] == heap.objects[i - 1];
      }
    }
  }

  /** What teardown does with one object. */
  datatype Release = Release(handle: Handle, releasesChunk: bool)

  /** `Clox_Object_Deallocate`: every object frees its storage; a function also frees its chunk. */
  function Deallocate(handle: Handle, o: Obj): (r: Release)
    ensures r.handle == handle
    ensures r.releasesChunk <==> TypeTag(o) == FunctionType
  {
    match o
    case FunctionObj(_, _, _, _) => Release(handle, true)
    case _ => Release(handle, false)
  }

  // ---------------------------------------------------------------------------------------
  // String interning

  /** The object `Clox_String_Create` builds for `bytes`. */
  function StringFor(bytes: seq<Byte>): (o: Obj)
    ensures o.StringObj? && StringWf(o) && Content(o) == bytes
  {
    assert (bytes + [0])[..|bytes|] == bytes;
    StringObj(|bytes|, Fnv.Hash(bytes), bytes + [0])
  }

  /** A well-formed string object is determined by its content. */
  lemma StringDeterminedByContent(o: Obj)
    requires o.StringObj? && StringWf(o)
    ensures o == StringFor(Content(o))
  {
    assert o.characters == o.characters[..o.length] + [o.characters[o.length]];
  }

  /**
   * `Clox_String_Create`: returns the interned object for `bytes`, allocating and registering
   * one only when the content is not interned yet.
   */
  function Interned(heap: HeapState, bytes: seq<Byte>): (r: Alloc)
    requires HeapWf(heap)
    ensures HeapWf(r.heap)
    ensures r.handle < |r.heap.store| && r.heap.store[r.handle] == StringFor(bytes)
    ensures r.heap.store[r.handle].length == |bytes|
    ensures r.heap.store[r.handle].hash == Fnv.Hash(bytes)
    ensures r.heap.store[r.handle].characters == bytes + [0]
    ensures bytes in r.heap.strings && r.heap.strings[bytes] == r.handle
    ensures bytes in heap.strings ==> r == Alloc(heap, heap.strings[bytes])
    ensures bytes !in heap.strings ==> r.heap == Allocated(heap, StringFor(bytes)).heap.(strings := heap.strings[bytes := r.handle])
    ensures |heap.store| <= |r.heap.store|
    ensures forall k :: 0 <= k < |heap.store| ==> r.heap.store[k] == heap.store[k]
    ensures r.heap.openUpvalues == heap.openUpvalues
    ensures forall n: nat :: OpenSlotsWithin(heap, n) ==> OpenSlotsWithin(r.heap, n)
  {
    if bytes in heap.strings then
      StringDeterminedByContent(heap.store[heap.strings[bytes]]);
      Alloc(heap, heap.strings[bytes])
    else
      var a := Allocated(heap, StringFor(bytes));
      var r := Alloc(a.heap.(strings := heap.strings[bytes := a.handle]), a.handle);
      InternedFreshWf(heap, bytes, a, r);
      r
  }

  lemma InternedFreshWf(heap: HeapState, bytes: seq<Byte>, a: Alloc, r: Alloc)
    requires HeapWf(heap) && bytes !in heap.strings
    requires a == Allocated(heap, StringFor(bytes))
    requires r == Alloc(a.heap.(strings := heap.strings[bytes := a.handle]), a.handle)
    ensures HeapWf(r.heap)
    ensures forall n: nat :: OpenSlotsWithin(heap, n) ==> OpenSlotsWithin(r.heap, n)
  {
    var h := r.heap;
    assert forall k :: 0 <= k < |heap.store| ==> h.store[k] == heap.store[k];
    assert forall u :: IsOpenUpvalue(heap, u) ==> IsOpenUpvalue(h, u) && Loc(h, u) == Loc(heap, u);
    assert forall u :: IsOpenUpvalue(h, u) ==> IsOpenUpvalue(heap, u);
    forall i | 0 <= i < |h.objects|
      ensures h.objects[i] == |h.store| - 1 - i
    {
      if i > 0 {
        assert h.objects[i] == heap.objects[i - 1];
      }
    }
    forall k | 0 <= k < |h.store| && h.store[k].StringObj?
      ensures StringWf(h.store[k]) && Content(h.store[k]) in h.strings && h.strings[Content(h.store[k])] == k
    {
      if k < |heap.store| {
        assert Content(heap.store[k]) != bytes;
      }
    }
  }

  /** Interned strings are unique: two string objects with the same content are one object. */
  lemma {:induction false} InternedStringsAreUnique(heap: HeapState, i: Handle, j: Handle)
    requires HeapWf(heap)
    requires i < |heap.store| && j < |heap.store|
    requires heap.store[i].StringObj? && heap.store[j].StringObj?
    requires Content(heap.store[i]) == Content(heap.store[j])
    ensures i == j
  {
    assert heap.strings[Content(heap.store[i])] == i;
    assert heap.strings[Content(heap.store[j])] == j;
  }

  /** Creating the same content twice yields the same object and allocates nothing the second time. */
  lemma InternedTwice(heap: HeapState, bytes: seq<Byte>)
    requires HeapWf(heap)
    ensures var first := Interned(heap, bytes);
            Interned(first.heap, bytes) == Alloc(first.heap, first.handle)
  {
  }

  // ---------------------------------------------------------------------------------------
  // Closures

  /**
   * `Clox_Closure_Create`: a closure over `function` whose upvalue array has exactly the
   * function's upvalue count of slots, all empty.
   */
  function ClosureCreated(heap: HeapState, fn: Handle): (r: Alloc)
    requires HeapWf(heap) && fn < |heap.store| && heap.store[fn].FunctionObj?
    ensures HeapWf(r.heap)
    ensures r.handle < |r.heap.store|
    ensures r.heap == Allocated(heap, r.heap.store[r.handle]).heap
    ensures r.heap.store[r.handle].ClosureObj?
    ensures r.heap.store[r.handle].fn == fn
    ensures |r.heap.store[r.handle].upvalues| == heap.store[fn].upvalueCount
    ensures forall i :: 0 <= i < |r.heap.store[r.handle].upvalues| ==> r.heap.store[r.handle].upvalues[i] == None
    ensures forall n: nat :: OpenSlotsWithin(heap, n) ==> OpenSlotsWithin(r.heap, n)
  {
    var o := ClosureObj(fn, seq(heap.store[fn].upvalueCount, _ => None));
    forall n: nat ensures HeapWf(Allocated(heap, o).heap) && (OpenSlotsWithin(heap, n) ==> OpenSlotsWithin(Allocated(heap, o).heap, n)) {
      AllocatedPreservesWf(heap, o, n);
    }
    Allocated(heap, o)
  }

  /** `closure->upvalues[i] = u`: fills one slot of a closure; nothing else changes. */
  function WithClosureUpvalue(heap: HeapState, c: Handle, i: nat, u: Option<Handle>): (r: HeapState)
    requires HeapWf(heap) && c < |heap.store| && heap.store[c].ClosureObj?
    requires i < |heap.store[c].upvalues|
    ensures HeapWf(r)
    ensures forall n: nat :: OpenSlotsWithin(heap, n) ==> OpenSlotsWithin(r, n)
    ensures |r.store| == |heap.store| && r.store[c].ClosureObj?
    ensures r.store[c].fn == heap.store[c].fn
    ensures r.store[c].upvalues == heap.store[c].upvalues[i := u]
    ensures forall k :: 0 <= k < |heap.store| && k != c ==> r.store[k] == heap.store[k]
    ensures r.objects == heap.objects && r.strings == heap.strings && r.openUpvalues == heap.openUpvalues
  {
    var old_ := heap.store[c];
    var r := heap.(store := heap.store[c := ClosureObj(old_.fn, old_.upvalues[i := u])]);
    assert forall u :: IsOpenUpvalue(heap, u) <==> IsOpenUpvalue(r, u);
    assert forall u :: IsOpenUpvalue(heap, u) ==> Loc(r, u) == Loc(heap, u);
    r
  }

  // ---------------------------------------------------------------------------------------
  // Upvalues

  /**
   * The walk of `Clox_UpvalueObj_Create`: the first position (from `i`) whose open upvalue
   * refers to a slot at or below `slot`, or the end of the list.
   */
  function InsertionPoint(heap: HeapState, slot: nat, i: nat): (k: nat)
    requires OpenListWf(heap) && i <= |heap.openUpvalues|
    ensures i <= k <= |heap.openUpvalues|
    ensures forall j :: i <= j < k ==> Loc(heap, heap.openUpvalues[j]) > slot
    ensures k < |heap.openUpvalues| ==> Loc(heap, heap.openUpvalues[k]) <= slot
    decreases |heap.openUpvalues| - i
  {
    if i < |heap.openUpvalues| && Loc(heap, heap.openUpvalues[i]) > slot then
      InsertionPoint(heap, slot, i + 1)
    else
      i
  }

  /**
   * `Clox_UpvalueObj_Create`: shares the open upvalue already referring to `slot`, or
   * allocates a new open one and splices it in where the descending order puts it.
   */
  function Captured(heap: HeapState, slot: nat): (r: Alloc)
    requires HeapWf(heap)
    ensures HeapWf(r.heap)
    ensures r.handle < |r.heap.store| && r.heap.store[r.handle] == UpvalueObj(Open(slot))
    ensures |heap.store| <= |r.heap.store| && r.heap.strings == heap.strings
    ensures forall k :: 0 <= k < |heap.store| ==> r.heap.store[k] == heap.store[k]
    ensures forall n: nat :: OpenSlotsWithin(heap, n) && slot < n ==> OpenSlotsWithin(r.heap, n)
  {
    var open := heap.openUpvalues;
    var i := InsertionPoint(heap, slot, 0);
    if i < |open| && Loc(heap, open[i]) == slot then
      Alloc(heap, open[i])
    else
      var a := Allocated(heap, UpvalueObj(Open(slot)));
      var r := Alloc(a.heap.(openUpvalues := open[..i] + [a.handle] + open[i..]), a.handle);
      CapturedFreshWf(heap, slot, i, a, r);
      r
  }

  /**
   * The two outcomes of `Clox_UpvalueObj_Create`: an open upvalue already on `slot` is shared
   * and nothing changes; otherwise a fresh upvalue is allocated and spliced into the open list,
   * which then holds it.
   */
  lemma CapturedSharesOrSplices(heap: HeapState, slot: nat)
    requires HeapWf(heap)
    ensures var r := Captured(heap, slot);
            && r.handle in r.heap.openUpvalues
            && (forall k :: 0 <= k < |heap.openUpvalues| && IsOpenUpvalue(heap, heap.openUpvalues[k])
                              && Loc(heap, heap.openUpvalues[k]) == slot
                  ==> r == Alloc(heap, heap.openUpvalues[k]))
            && ((forall k :: 0 <= k < |heap.openUpvalues| ==> Loc(heap, heap.openUpvalues[k]) != slot) ==>
                  && r.heap.store == Allocated(heap, UpvalueObj(Open(slot))).heap.store
                  && r.heap.objects == [r.handle] + heap.objects
                  && |r.heap.openUpvalues| == |heap.openUpvalues| + 1
                  && (exists i :: 0 <= i <= |heap.openUpvalues| &&
                        r.heap.openUpvalues == heap.openUpvalues[..i] + [r.handle] + heap.openUpvalues[i..]))
  {
    var open := heap.openUpvalues;
    var i := InsertionPoint(heap, slot, 0);
    if i < |open| && Loc(heap, open[i]) == slot {
      forall k | 0 <= k < |open| && IsOpenUpvalue(heap, open[k]) && Loc(heap, open[k]) == slot
        ensures k == i
      {
        OpenUpvaluesUnique(heap, i, k);
      }
    } else {
      var a := Allocated(heap, UpvalueObj(Open(slot)));
      var r := Alloc(a.heap.(openUpvalues := open[..i] + [a.handle] + open[i..]), a.handle);
      CapturedFreshWf(heap, slot, i, a, r);
      assert r.heap.openUpvalues[i] == r.handle;
    }
  }

  /** `closure->upvalues[i] = Clox_UpvalueObj_Create(vm, slot)`: slot `i` of closure `c` captures `slot`. */
  function CaptureInto(heap: HeapState, c: Handle, i: nat, slot: nat): (r: HeapState)
    requires HeapWf(heap) && c < |heap.store| && heap.store[c].ClosureObj?
    requires i < |heap.store[c].upvalues|
  {
    var a := Captured(heap, slot);
    WithClosureUpvalue(a.heap, c, i, Some(a.handle))
  }

  lemma CapturedFreshWf(heap: HeapState, slot: nat, i: nat, a: Alloc, r: Alloc)
    requires HeapWf(heap) && i <= |heap.openUpvalues|
    requires forall j :: 0 <= j < i ==> Loc(heap, heap.openUpvalues[j]) > slot
    requires i < |heap.openUpvalues| ==> Loc(heap, heap.openUpvalues[i]) < slot
    requires a == Allocated(heap, UpvalueObj(Open(slot)))
    requires r == Alloc(a.heap.(openUpvalues := heap.openUpvalues[..i] + [a.handle] + heap.openUpvalues[i..]), a.handle)
    ensures HeapWf(r.heap)
    ensures forall k :: 0 <= k < |heap.openUpvalues| ==> Loc(heap, heap.openUpvalues[k]) != slot
    ensures forall n: nat :: OpenSlotsWithin(heap, n) && slot < n ==> OpenSlotsWithin(r.heap, n)
  {
    var open := heap.openUpvalues;
    var h := r.heap;
    var L := h.openUpvalues;
    forall n: nat ensures HeapWf(a.heap) && (OpenSlotsWithin(heap, n) && slot < n ==> OpenSlotsWithin(a.heap, n)) {
      AllocatedPreservesWf(heap, UpvalueObj(Open(slot)), n);
    }
    assert forall u :: IsOpenUpvalue(h, u) <==> IsOpenUpvalue(a.heap, u);
    assert forall k :: 0 <= k < |heap.store| ==> h.store[k] == heap.store[k];
    assert |L| == |open| + 1;
    assert forall k :: 0 <= k < i ==> L[k] == open[k];
    assert L[i] == a.handle;
    assert forall k :: i < k < |L| ==> L[k] == open[k - 1];
    forall k | 0 <= k < |L|
      ensures IsOpenUpvalue(h, L[k])
      ensures Loc(h, L[k]) == if k < i then Loc(heap, open[k]) else if k == i then slot else Loc(heap, open[k - 1])
    {
    }
    forall p, q | 0 <= p < q < |L|
      ensures Loc(h, L[p]) > Loc(h, L[q])
    {
      if q == i {
      } else if p == i {
        if q - 1 > i {
          assert Loc(heap, open[i]) > Loc(heap, open[q - 1]);
        }
      } else if p < i && q > i {
        assert Loc(heap, open[p]) > slot;
      }
    }
    forall k | 0 <= k < |open|
      ensures Loc(heap, open[k]) != slot
    {
      if k > i {
        assert Loc(heap, open[i]) > Loc(heap, open[k]);
      }
    }
  }

  /** Strict descent makes the open-upvalue list free of repeated slots: one upvalue per slot. */
  lemma {:induction false} OpenUpvaluesUnique(heap: HeapState, i: nat, j: nat)
    requires HeapWf(heap) && i < |heap.openUpvalues| && j < |heap.openUpvalues|
    requires Loc(heap, heap.openUpvalues[i]) == Loc(heap, heap.openUpvalues[j])
    ensures i == j
  {
  }

  /** Capturing the same slot twice yields the same upvalue and leaves the heap as the first capture left it. */
  lemma CapturedTwice(heap: HeapState, slot: nat)
    requires HeapWf(heap)
    ensures var first := Captured(heap, slot);
            Captured(first.heap, slot) == first
  {
    var first := Captured(heap, slot);
    CapturedSharesOrSplices(heap, slot);
    CapturedSharesOrSplices(first.heap, slot);
    var open := first.heap.openUpvalues;
    var k :| 0 <= k < |open| && open[k] == first.handle;
    assert IsOpenUpvalue(first.heap, open[k]) && Loc(first.heap, open[k]) == slot;
  }

  /** `upvalue->closed = value` through a closed upvalue's location. */
  function WithUpvalueClosed(heap: HeapState, u: Handle, v: Value): (r: HeapState)
    requires HeapWf(heap) && u < |heap.store| && heap.store[u].UpvalueObj? && heap.store[u].state.Closed?
    ensures HeapWf(r)
    ensures forall n: nat :: OpenSlotsWithin(heap, n) ==> OpenSlotsWithin(r, n)
    ensures |r.store| == |heap.store| && r.store[u] == UpvalueObj(Closed(v))
    ensures forall k :: 0 <= k < |heap.store| && k != u ==> r.store[k] == heap.store[k]
    ensures r.objects == heap.objects && r.strings == heap.strings && r.openUpvalues == heap.openUpvalues
  {
    var r := heap.(store := heap.store[u := UpvalueObj(Closed(v))]);
    assert forall w :: IsOpenUpvalue(heap, w) <==> IsOpenUpvalue(r, w);
    assert forall w :: IsOpenUpvalue(heap, w) ==> Loc(r, w) == Loc(heap, w);
    r
  }

  // ---------------------------------------------------------------------------------------
  // The heap, updated in place

  /** The object-related fields of the VM, updated in place by the `object.c` operations. */
  class ObjectHeap {
    var store: seq<Obj>
    var objects: seq<Handle>
    var strings: map<seq<Byte>, Handle>
    var openUpvalues: seq<Handle>

    function State(): HeapState
      reads this
    {
      HeapState(store, objects, strings, openUpvalues)
    }

    ghost predicate Valid()
      reads this
    {
      HeapWf(State())
    }

    /** The zero-initialised object fields of a new VM. */
    constructor ()
      ensures Valid() && State() == EmptyHeap
    {
      store, objects, strings, openUpvalues := [], [], map[], [];
    }

    /** `Clox_Object_Allocate`: prepends the new object to the allocation list. */
    method Allocate(o: Obj) returns (handle: Handle)
      modifies this
      ensures var a := Allocated(old(State()), o); State() == a.heap && handle == a.handle
    {
      handle := |store|;
      store := store + [o];
      objects := [handle] + objects;
    }

    /** `Clox_String_Create`: hashes, looks the content up, and allocates and registers only on a miss. */
    method CreateString(bytes: seq<Byte>) returns (s: Handle)
      requires Valid()
      modifies this
      ensures Valid()
      ensures var a := Interned(old(State()), bytes); State() == a.heap && s == a.handle
    {
      var hash := Fnv.Fnv1a(bytes);
      if bytes in strings {
        StringDeterminedByContent(store[strings[bytes]]);
        return strings[bytes];
      }
      var characters := bytes + [0];
      s := Allocate(StringObj(|bytes|, hash, characters));
      strings := strings[bytes := s];
    }

    /** `Clox_Function_Create_Empty`: arity 0, no upvalues, no name, an empty chunk. */
    method CreateFunctionEmpty() returns (f: Handle)
      requires Valid()
      modifies this
      ensures Valid()
      ensures var a := Allocated(old(State()), FunctionObj(0, 0, None, EmptyChunk));
              State() == a.heap && f == a.handle
    {
      AllocatedPreservesWf(State(), FunctionObj(0, 0, None, EmptyChunk), 0);
      f := Allocate(FunctionObj(0, 0, None, EmptyChunk));
    }

    /** `Clox_Native_Create`: wraps a host function. */
    method CreateNative(native: NativeId) returns (n: Handle)
      requires Valid()
      modifies this
      ensures Valid()
      ensures var a := Allocated(old(State()), NativeObj(native)); State() == a.heap && n == a.handle
    {
      AllocatedPreservesWf(State(), NativeObj(native), 0);
      n := Allocate(NativeObj(native));
    }

    /** `Clox_Closure_Create`: allocates the closure and empties every upvalue slot in a loop. */
    method CreateClosure(fn: Handle) returns (c: Handle)
      requires Valid() && fn < |store| && store[fn].FunctionObj?
      modifies this
      ensures Valid()
      ensures var a := ClosureCreated(old(State()), fn); State() == a.heap && c == a.handle
    {
      var count := store[fn].upvalueCount;
      var slots := new Option<Handle>[count];
      for i := 0 to count
        modifies slots
        invariant forall k :: 0 <= k < i ==> slots[k] == None
      {
        slots[i] := None;
      }
      ghost var a := ClosureCreated(State(), fn);
      assert a.heap.store[a.handle].upvalues == slots[..];
      c := Allocate(ClosureObj(fn, slots[..]));
    }

    /** `closure->upvalues[i] = u`. */
    method SetClosureUpvalue(c: Handle, i: nat, u: Option<Handle>)
      requires Valid() && c < |store| && store[c].ClosureObj? && i < |store[c].upvalues|
      modifies this
      ensures Valid()
      ensures State() == WithClosureUpvalue(old(State()), c, i, u)
    {
      store := store[c := ClosureObj(store[c].fn, store[c].upvalues[i := u])];
    }

    /** A write through the location of a closed upvalue. */
    method SetClosedValue(u: Handle, v: Value)
      requires Valid() && u < |store| && store[u].UpvalueObj? && store[u].state.Closed?
      modifies this
      ensures Valid()
      ensures State() == WithUpvalueClosed(old(State()), u, v)
    {
      store := store[u := UpvalueObj(Closed(v))];
    }

    /** Closes the head of the open-upvalue list with its own copy `v` of the value, and unlinks it. */
    method CloseHead(v: Value)
      requires openUpvalues != [] && openUpvalues[0] < |store|
      modifies this
      ensures State() == old(State()).(store := old(store)[old(openUpvalues[0]) := UpvalueObj(Closed(v))],
                                       openUpvalues := old(openUpvalues[1..]))
    {
      store := store[openUpvalues[0] := UpvalueObj(Closed(v))];
      openUpvalues := openUpvalues[1..];
    }

    /**
     * `Clox_UpvalueObj_Create` (and `Clox_Closure_Capture_Upvalue`, which only forwards to it):
     * walks the open list past every upvalue above `slot`, then shares or splices.
     */
    method CaptureUpvalue(slot: nat) returns (u: Handle)
      requires Valid()
      modifies this
      ensures Valid()
      ensures var a := Captured(old(State()), slot); State() == a.heap && u == a.handle
    {
      ghost var heap := State();
      var i := 0;
      while i < |openUpvalues| && store[openUpvalues[i]].state.slot > slot
        modifies {}
        invariant i <= |openUpvalues|
        invariant InsertionPoint(heap, slot, i) == InsertionPoint(heap, slot, 0)
      {
        i := i + 1;
      }
      assert i == InsertionPoint(heap, slot, 0);
      if i < |openUpvalues| && store[openUpvalues[i]].state.slot == slot {
        return openUpvalues[i];
      }
      var before := openUpvalues;
      u := Allocate(UpvalueObj(Open(slot)));
      openUpvalues := before[..i] + [u] + before[i..];
      assert State() == Captured(heap, slot).heap;
    }

    /** `closure->upvalues[i] = Clox_UpvalueObj_Create(vm, slot)`. */
    method CaptureIntoClosure(c: Handle, i: nat, slot: nat)
      requires Valid() && c < |store| && store[c].ClosureObj? && i < |store[c].upvalues|
      modifies this
      ensures Valid() && State() == CaptureInto(old(State()), c, i, slot)
    {
      var u := CaptureUpvalue(slot);
      SetClosureUpvalue(c, i, Some(u));
    }
  }
}
