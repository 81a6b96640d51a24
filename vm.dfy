/**
 * `Clox_VM` as an object updated in place: the value stack and the call frames are
 * fixed-size arrays, the object fields live in an `ObjectHeap`, and every operation of
 * src/vm.c is a method proved to leave the VM in the state the matching function of
 * module `Semantics` describes.
 */
module Vm {
  import opened Wrappers
  import opened Value
  import opened Object
  import opened Semantics

  /** The identity of `clock_native`, the one native a new VM defines. */
  const ClockNative: NativeId := 0

  /** The ASCII bytes of `GetSystemTimeInSeconds`, the name the clock native is bound to. */
  const ClockName: seq<Byte> :=
    [0x47, 0x65, 0x74, 0x53, 0x79, 0x73, 0x74, 0x65, 0x6D, 0x54, 0x69, 0x6D, 0x65, 0x49, 0x6E, 0x53, 0x65, 0x63, 0x6F, 0x6E, 0x64, 0x73]

  class VM {
    const stack: array<Value>
    var top: nat
    const frames: array<Frame>
    var frameCount: nat
    const heap: ObjectHeap
    var globals: map<Handle, Value>

    /** The machine state this object represents. */
    ghost function Snapshot(): Machine
      reads this, stack, frames, heap
    {
      Machine(stack[..], top, frames[..], frameCount, heap.State(), globals)
    }

    /** `Wf(Snapshot())`, stated on the fields. */
    ghost predicate Valid()
      reads this, stack, frames, heap
    {
      && top <= stack.Length && frameCount <= frames.Length
      && HeapWf(heap.State()) && OpenSlotsWithin(heap.State(), stack.Length)
    }

    /** `Valid` read back on the snapshot. */
    lemma SnapshotWf()
      requires Valid()
      ensures Wf(Snapshot())
    {
    }

    /** The object is valid, reports `o`, and (unless `o` is undefined) is in the state `t` describes. */
    ghost predicate Agrees(o: Outcome, t: Transition)
      reads this, stack, frames, heap
    {
      Valid() && o == t.outcome && (o != Undefined ==> Snapshot() == t.m)
    }

    /**
     * `Clox_VM_New_Empty`: zeroed fields, a reset stack, and the clock native bound to its
     * name. The capacities stand for the fixed array sizes of the C struct.
     */
    constructor (stackCapacity: nat, frameCapacity: nat)
      requires 2 <= stackCapacity
      ensures Valid() && fresh(stack) && fresh(frames) && fresh(heap)
      ensures stack.Length == stackCapacity && frames.Length == frameCapacity
      ensures Booted(Snapshot(), ClockName, ClockNative)
    {
      stack := new Value[stackCapacity](_ => Nil);
      frames := new Frame[frameCapacity](_ => Frame(0, 0, 0));
      heap := new ObjectHeap();
      top := 0;
      frameCount := 0;
      globals := map[];
      new;
      EmptyHeapWf(stackCapacity);
      DefineClock();
    }

    /** The body of `Clox_VM_New_Empty` after zeroing: reset the stack, bind the clock native. */
    method DefineClock()
      requires Valid() && 2 <= stack.Length && globals == map[]
      modifies this, stack, heap
      ensures Valid()
      ensures Booted(Snapshot(), ClockName, ClockNative)
    {
      NewEmptyBoots(Snapshot(), ClockName, ClockNative);
      ResetStack();
      var defined := DefineNative(ClockName, ClockNative);
    }

    /** `Clox_VM_Reset_Stack`. */
    method ResetStack()
      requires Valid()
      modifies this, heap
      ensures Valid() && Snapshot() == Semantics.ResetStack(old(Snapshot()))
    {
      ghost var m := Snapshot();
      top := 0;
      frameCount := 0;
      heap.openUpvalues := [];
      assert Snapshot() == Semantics.ResetStack(m);
    }

    /** `Clox_VM_Stack_Push`. */
    method Push(v: Value)
      requires Valid() && top < stack.Length
      modifies this, stack
      ensures Valid() && Snapshot() == Semantics.Push(old(Snapshot()), v)
    {
      stack[top] := v;
      top := top + 1;
    }

    /** `Clox_VM_Stack_Pop`. */
    method Pop() returns (v: Value)
      requires Valid() && 0 < top
      modifies this
      ensures Valid()
      ensures v == Semantics.Peek(old(Snapshot()), 0) && Snapshot() == Semantics.Pop(old(Snapshot()))
    {
      top := top - 1;
      v := stack[top];
    }

    /** `Clox_VM_Stack_Peek`. */
    method Peek(depth: nat) returns (v: Value)
      requires Valid() && depth < top
      ensures v == Semantics.Peek(Snapshot(), depth)
    {
      v := stack[top - 1 - depth];
    }

    /** Moves the active frame's instruction pointer. */
    method SetIp(ip: nat)
      requires Valid() && 1 <= frameCount
      modifies frames
      ensures Valid() && Snapshot() == WithIp(old(Snapshot()), ip)
    {
      frames[frameCount - 1] := frames[frameCount - 1].(ip := ip);
    }

    /** `vm->call_frame_count--`. */
    method PopFrame()
      requires Valid() && 1 <= frameCount
      modifies this
      ensures var m := old(Snapshot()); Valid() && Snapshot() == m.(frameCount := m.frameCount - 1)
    {
      frameCount := frameCount - 1;
    }

    /** `vm->stack_top = frame->slots`: the stack is cut back to slot `base`. */
    method SetTop(base: nat)
      requires Valid() && base <= stack.Length
      modifies this
      ensures Valid() && Snapshot() == old(Snapshot()).(top := base)
    {
      top := base;
    }

    /** `vm->stack[slot] = v`: overwrites one stack slot. */
    method SetSlot(slot: nat, v: Value)
      requires Valid() && slot < stack.Length
      modifies stack
      ensures var m := old(Snapshot()); Valid() && Snapshot() == m.(stack := m.stack[slot := v])
    {
      stack[slot] := v;
    }

    /** `Clox_Hash_Table_Set` on the globals: binds `name` to `v`, reporting whether `name` was unbound. */
    method TableSet(name: Handle, v: Value) returns (isNewKey: bool)
      requires Valid()
      modifies this
      ensures Valid() && isNewKey == (name !in old(globals))
      ensures var m := old(Snapshot()); Snapshot() == m.(globals := m.globals[name := v])
    {
      isNewKey := name !in globals;
      globals := globals[name := v];
    }

    /** `Clox_Hash_Table_Delete` on the globals. */
    method TableDelete(name: Handle)
      requires Valid()
      modifies this
      ensures var m := old(Snapshot()); Valid() && Snapshot() == m.(globals := m.globals - {name})
    {
      globals := globals - {name};
    }

    /** `Clox_VM_Close_Upvalues`: the walk down the open list, closing each upvalue at or above `last`. */
    method CloseUpvalues(last: nat)
      requires Valid()
      modifies heap
      ensures Valid()
      ensures var m := old(Snapshot()); Snapshot() == m.(heap := Semantics.CloseUpvalues(m.heap, m.stack, last))
    {
      ghost var m := Snapshot();
      ghost var s := stack[..];
      ghost var target := Semantics.CloseUpvalues(m.heap, s, last);
      CloseUpvaluesUnfold(m.heap, s, last);
      while heap.openUpvalues != [] && heap.store[heap.openUpvalues[0]].state.slot >= last
        invariant HeapWf(heap.State()) && OpenSlotsWithin(heap.State(), |s|)
        invariant heap.openUpvalues != [] ==> IsOpenUpvalue(heap.State(), heap.openUpvalues[0])
        invariant Semantics.CloseUpvalues(heap.State(), s, last) == target
        decreases |heap.openUpvalues|
      {
        ghost var before := heap.State();
        var v := stack[heap.store[heap.openUpvalues[0]].state.slot];
        heap.CloseHead(v);
        assert heap.State() == ClosedHead(before, s);
        CloseUpvaluesUnfold(heap.State(), s, last);
      }
      assert Snapshot() == m.(heap := heap.State());
    }

    /** The reset and status of `Clox_VM_Runtime_Error` (its message and traceback aside). */
    method RaiseRuntimeError() returns (r: InterpretResult)
      requires Valid()
      modifies this, heap
      ensures Valid() && r == Semantics.RuntimeError
      ensures Snapshot() == Semantics.ResetStack(old(Snapshot()))
    {
      ResetStack();
      r := Semantics.RuntimeError;
    }

    /** `Clox_VM_Call`. */
    method Call(callee: Handle, argCount: nat) returns (ok: bool)
      requires Valid() && argCount < top && ClosureFunction(heap.State(), callee).Some?
      modifies this, frames, heap
      ensures Valid() && (Snapshot(), ok) == Semantics.Call(old(Snapshot()), callee, argCount)
    {
      var arity := heap.store[heap.store[callee].fn].arity;
      if argCount != arity {
        var error := RaiseRuntimeError();
        return false;
      }
      if frameCount == frames.Length {
        var error := RaiseRuntimeError();
        return false;
      }
      frames[frameCount] := Frame(callee, 0, top - argCount - 1);
      frameCount := frameCount + 1;
      return true;
    }

    /** `Clox_VM_Call_Value`; `None` where the C code's behaviour is undefined. */
    method CallValue(callee: Value, argCount: nat, host: Host) returns (r: Option<bool>)
      requires Valid() && argCount < top
      modifies this, stack, frames, heap
      ensures Valid()
      ensures var t := Semantics.CallValue(old(Snapshot()), callee, argCount, host);
              && r.Some? == t.Some?
              && (r.Some? ==> r.value == t.value.1 && Snapshot() == t.value.0)
    {
      if callee.ObjectRef? {
        var h := callee.handle;
        if h >= |heap.store| {
          return None;
        }
        match heap.store[h] {
          case ClosureObj(fn, _) =>
            if fn >= |heap.store| || !heap.store[fn].FunctionObj? {
              return None;
            }
            var ok := Call(h, argCount);
            return Some(ok);
          case NativeObj(native) =>
            var result := host(native, stack[top - argCount .. top]);
            top := top - argCount - 1;
            Push(result);
            return Some(true);
          case _ =>
        }
      }
      var error := RaiseRuntimeError();
      return Some(false);
    }

    /**
     * `Clox_VM_Define_Native`: pushes the interned name and the native, binds slot 0 to slot
     * 1 and pops both. `false` where slot 0 does not hold a string (undefined in C).
     */
    method DefineNative(name: seq<Byte>, native: NativeId) returns (ok: bool)
      requires Valid() && top + 2 <= stack.Length
      modifies this, stack, heap
      ensures Valid()
      ensures var r := DefinedNative(old(Snapshot()), name, native);
              ok == r.Some? && (ok ==> Snapshot() == r.value)
    {
      ghost var m := Snapshot();
      SnapshotWf();
      var s := heap.CreateString(name);
      ghost var sa := Interned(m.heap, name);
      assert Snapshot() == m.(heap := sa.heap);
      Push(ObjectRef(s));
      ghost var m1 := Semantics.Push(m.(heap := sa.heap), ObjectRef(sa.handle));
      assert Snapshot() == m1;
      AllocatedPreservesWf(m1.heap, NativeObj(native), stack.Length);
      var n := heap.CreateNative(native);
      ghost var na := Allocated(m1.heap, NativeObj(native));
      assert Snapshot() == m1.(heap := na.heap);
      Push(ObjectRef(n));
      ghost var m2 := Semantics.Push(m1.(heap := na.heap), ObjectRef(na.handle));
      assert Snapshot() == m2;
      var key := stack[0];
      if !key.ObjectRef? || key.handle >= |heap.store| || !heap.store[key.handle].StringObj? {
        return false;
      }
      var isNewKey := TableSet(key.handle, stack[1]);
      ghost var m3 := m2.(globals := m2.globals[key.handle := m2.stack[1]]);
      assert Snapshot() == m3;
      assert DefinedNative(m, name, native) == Some(Semantics.Pop(Semantics.Pop(m3)));
      var value := Pop();
      var boundName := Pop();
      return true;
    }

    /**
     * `Clox_VM_Delete`: destroys both tables, then walks the allocation list releasing each
     * object; the result is the sequence of releases.
     */
    method Delete() returns (released: seq<Release>)
      requires Valid()
      modifies this, heap
      ensures released == Teardown(old(heap.State()))
      ensures heap.strings == map[] && globals == map[]
    {
      ghost var h := heap.State();
      heap.strings := map[];
      globals := map[];
      var objects := heap.objects;
      released := [];
      var i := 0;
      while i < |objects|
        invariant i <= |objects| && objects == h.objects && heap.store == h.store
        invariant released == Teardown(h)[..i]
      {
        var handle := objects[i];
        released := released + [Deallocate(handle, heap.store[handle])];
        i := i + 1;
      }
    }

    // -------------------------------------------------------------------------------------
    // The opcodes of the dispatch loop, each agreeing with its function in `Semantics`.

    method ExecReturn() returns (o: Outcome)
      requires Valid() && 1 <= frameCount
      modifies this, stack, frames, heap
      ensures Agrees(o, OpReturnStep(old(Snapshot())))
    {
      if top < 1 {
        return Halt(CompileError);
      }
      ghost var m := Snapshot();
      OpReturnStepCases(m);
      var result := Pop();
      ghost var m1 := Semantics.Pop(m);
      assert frames[..] == m1.frames && frameCount == m1.frameCount;
      var base := frames[frameCount - 1].base;
      assert base == Active(m1).base;
      CloseUpvalues(base);
      PopFrame();
      ghost var m2 := m1.(heap := Semantics.CloseUpvalues(m1.heap, m1.stack, base), frameCount := m1.frameCount - 1);
      assert Snapshot() == m2;
      assert m2 == Unwound(m);
      if frameCount == 0 {
        if top < 1 {
          return Undefined;
        }
        var script := Pop();
        return Halt(InterpretResult(InterpretOk, result));
      }
      if base >= stack.Length {
        return Undefined;
      }
      SetTop(base);
      Push(result);
      return Continue;
    }

    method ExecConstant(chunk: Chunk) returns (o: Outcome)
      requires Valid() && 1 <= frameCount
      modifies this, stack, frames
      ensures Agrees(o, OpConstantStep(old(Snapshot()), chunk))
    {
      var ip := frames[frameCount - 1].ip;
      if ip >= |chunk.code| || (chunk.code[ip] as nat) >= |chunk.constants| || top >= stack.Length {
        return Undefined;
      }
      SetIp(ip + 1);
      Push(chunk.constants[chunk.code[ip]]);
      return Continue;
    }

    method ExecLiteral(v: Value) returns (o: Outcome)
      requires Valid() && 1 <= frameCount
      modifies this, stack
      ensures Agrees(o, PushLiteral(old(Snapshot()), v))
    {
      if top >= stack.Length {
        return Undefined;
      }
      Push(v);
      return Continue;
    }

    method ExecNegate(fp: FloatOps) returns (o: Outcome)
      requires Valid() && 1 <= frameCount
      modifies this, stack
      ensures Agrees(o, OpNegateStep(old(Snapshot()), fp))
    {
      if top < 1 {
        return Halt(CompileError);
      }
      var v := Peek(0);
      if !IsNumber(v) {
        return Halt(Semantics.RuntimeError);
      }
      var x := Pop();
      Push(Number(fp.negate(x.number)));
      return Continue;
    }

    method ExecNot() returns (o: Outcome)
      requires Valid() && 1 <= frameCount
      modifies this, stack
      ensures Agrees(o, OpNotStep(old(Snapshot())))
    {
      if top < 1 {
        return Halt(CompileError);
      }
      var v := Pop();
      match v {
        case Nil =>
          Push(Bool(true));
          o := Continue;
        case Bool(b) =>
          Push(Bool(!b));
          o := Continue;
        case _ =>
          o := Halt(InterpretResult(InterpretRuntimeError, v));
      }
    }

    method ExecAdd(fp: FloatOps) returns (o: Outcome)
      requires Valid() && 1 <= frameCount
      modifies this, stack, heap
      ensures Agrees(o, OpAddStep(old(Snapshot()), fp))
    {
      if top < 2 {
        return Halt(CompileError);
      }
      var rhs := Pop();
      var lhs := Pop();
      if TypeOf(lhs) != TypeOf(rhs) {
        return Halt(Semantics.RuntimeError);
      }
      if IsNumber(lhs) && IsNumber(rhs) {
        Push(Number(fp.add(lhs.number, rhs.number)));
        return Continue;
      }
      if !lhs.ObjectRef? {
        return Halt(Semantics.RuntimeError);
      }
      if lhs.handle >= |heap.store| {
        return Undefined;
      }
      if !heap.store[lhs.handle].StringObj? {
        return Halt(Semantics.RuntimeError);
      }
      if rhs.handle >= |heap.store| {
        return Undefined;
      }
      if !heap.store[rhs.handle].StringObj? {
        return Halt(Semantics.RuntimeError);
      }
      ghost var m1 := Snapshot();
      var bytes := Content(heap.store[lhs.handle]) + Content(heap.store[rhs.handle]);
      var s := heap.CreateString(bytes);
      assert Snapshot() == m1.(heap := Interned(m1.heap, bytes).heap);
      Push(ObjectRef(s));
      return Continue;
    }

    method ExecBinaryNumber(result: (Num, Num) -> Value) returns (o: Outcome)
      requires Valid() && 1 <= frameCount
      modifies this, stack
      ensures Agrees(o, BinaryNumberStep(old(Snapshot()), result))
    {
      if top < 2 {
        return Halt(CompileError);
      }
      var a := Peek(0);
      if !IsNumber(a) {
        return Halt(Semantics.RuntimeError);
      }
      var b := Peek(1);
      if !IsNumber(b) {
        return Halt(Semantics.RuntimeError);
      }
      var first := Pop();
      var second := Pop();
      Push(result(first.number, second.number));
      return Continue;
    }

    method ExecEqual(fp: FloatOps) returns (o: Outcome)
      requires Valid() && 1 <= frameCount
      modifies this, stack
      ensures Agrees(o, OpEqualStep(old(Snapshot()), fp))
    {
      if top < 2 {
        return Halt(CompileError);
      }
      var lhs := Pop();
      var rhs := Pop();
      if TypeOf(lhs) != TypeOf(rhs) {
        Push(Bool(false));
        return Continue;
      }
      match lhs {
        case Nil =>
          Push(Bool(true));
        case Bool(b) =>
          Push(Bool(b == rhs.boolean));
        case Number(n) =>
          Push(Bool(fp.equal(n, rhs.number)));
        case ObjectRef(h) =>
          if h >= |heap.store| || !heap.store[h].StringObj? {
            return Undefined;
          }
          if rhs.handle >= |heap.store| || !heap.store[rhs.handle].StringObj? {
            return Undefined;
          }
          Push(Bool(Content(heap.store[h]) == Content(heap.store[rhs.handle])));
      }
      return Continue;
    }

    method ExecDiscard() returns (o: Outcome)
      requires Valid() && 1 <= frameCount
      modifies this
      ensures Agrees(o, DiscardStep(old(Snapshot())))
    {
      if top < 1 {
        return Halt(CompileError);
      }
      var v := Pop();
      return Continue;
    }

    /** `READ_STRING`: the string constant's handle, with the frame moved past the operand. */
    method StringOperand(chunk: Chunk) returns (name: Option<Handle>)
      requires Valid() && 1 <= frameCount
      modifies frames
      ensures Valid()
      ensures var r := ReadString(old(Snapshot()), chunk);
              && name.Some? == r.Some?
              && (name.Some? ==> name.value == r.value.1 && Snapshot() == r.value.0)
    {
      var ip := frames[frameCount - 1].ip;
      if ip >= |chunk.code| || (chunk.code[ip] as nat) >= |chunk.constants| {
        return None;
      }
      var c := chunk.constants[chunk.code[ip]];
      if !c.ObjectRef? || c.handle >= |heap.store| || !heap.store[c.handle].StringObj? {
        return None;
      }
      SetIp(ip + 1);
      return Some(c.handle);
    }

    method ExecDefineGlobal(chunk: Chunk) returns (o: Outcome)
      requires Valid() && 1 <= frameCount
      modifies this, frames
      ensures Agrees(o, OpDefineGlobalStep(old(Snapshot()), chunk))
    {
      var name := StringOperand(chunk);
      if name.None? || top < 1 {
        return Undefined;
      }
      var v := Pop();
      var isNewKey := TableSet(name.value, v);
      return Continue;
    }

    method ExecGetGlobal(chunk: Chunk) returns (o: Outcome)
      requires Valid() && 1 <= frameCount
      modifies this, stack, frames, heap
      ensures Agrees(o, OpGetGlobalStep(old(Snapshot()), chunk))
    {
      var name := StringOperand(chunk);
      if name.None? {
        return Undefined;
      }
      if name.value !in globals {
        var error := RaiseRuntimeError();
        return Halt(error);
      }
      if top >= stack.Length {
        return Undefined;
      }
      Push(globals[name.value]);
      return Continue;
    }

    method ExecSetGlobal(chunk: Chunk) returns (o: Outcome)
      requires Valid() && 1 <= frameCount
      modifies this, frames, heap
      ensures Agrees(o, OpSetGlobalStep(old(Snapshot()), chunk))
    {
      var name := StringOperand(chunk);
      if name.None? || top < 1 {
        return Undefined;
      }
      var v := Peek(0);
      var isNewKey := TableSet(name.value, v);
      if isNewKey {
        TableDelete(name.value);
        var error := RaiseRuntimeError();
        return Halt(error);
      }
      return Continue;
    }

    method ExecGetLocal(chunk: Chunk) returns (o: Outcome)
      requires Valid() && 1 <= frameCount
      modifies this, stack, frames
      ensures Agrees(o, OpGetLocalStep(old(Snapshot()), chunk))
    {
      var ip := frames[frameCount - 1].ip;
      if ip >= |chunk.code| {
        return Undefined;
      }
      var slot := frames[frameCount - 1].base + chunk.code[ip] as nat;
      if slot >= stack.Length || top >= stack.Length {
        return Undefined;
      }
      SetIp(ip + 1);
      Push(stack[slot]);
      return Continue;
    }

    method ExecSetLocal(chunk: Chunk) returns (o: Outcome)
      requires Valid() && 1 <= frameCount
      modifies stack, frames
      ensures Agrees(o, OpSetLocalStep(old(Snapshot()), chunk))
    {
      var ip := frames[frameCount - 1].ip;
      if ip >= |chunk.code| || top < 1 {
        return Undefined;
      }
      var slot := frames[frameCount - 1].base + chunk.code[ip] as nat;
      if slot >= stack.Length {
        return Undefined;
      }
      var v := Peek(0);
      SetIp(ip + 1);
      SetSlot(slot, v);
      return Continue;
    }

    /** `frame->closure->upvalues[index]`, when it names an upvalue object. */
    method FrameUpvalueAt(index: nat) returns (u: Option<Handle>)
      requires Valid() && 1 <= frameCount
      ensures u == FrameUpvalue(Snapshot(), index)
    {
      var c := frames[frameCount - 1].closure;
      if c >= |heap.store| || !heap.store[c].ClosureObj? || index >= |heap.store[c].upvalues|
         || heap.store[c].upvalues[index].None? {
        return None;
      }
      var w := heap.store[c].upvalues[index].value;
      if w >= |heap.store| || !heap.store[w].UpvalueObj? {
        return None;
      }
      return Some(w);
    }

    method ExecGetUpvalue(chunk: Chunk) returns (o: Outcome)
      requires Valid() && 1 <= frameCount
      modifies this, stack, frames
      ensures Agrees(o, OpGetUpvalueStep(old(Snapshot()), chunk))
    {
      var ip := frames[frameCount - 1].ip;
      if ip >= |chunk.code| {
        return Undefined;
      }
      var u := FrameUpvalueAt(chunk.code[ip] as nat);
      if u.None? || top >= stack.Length {
        return Undefined;
      }
      var v: Value;
      match heap.store[u.value].state {
        case Open(slot) =>
          assert IsOpenUpvalue(heap.State(), u.value);
          v := stack[slot];
        case Closed(w) =>
          v := w;
      }
      SetIp(ip + 1);
      Push(v);
      return Continue;
    }

    method ExecSetUpvalue(chunk: Chunk) returns (o: Outcome)
      requires Valid() && 1 <= frameCount
      modifies stack, frames, heap
      ensures Agrees(o, OpSetUpvalueStep(old(Snapshot()), chunk))
    {
      ghost var m := Snapshot();
      ghost var t := OpSetUpvalueStep(m, chunk);
      var ip := frames[frameCount - 1].ip;
      if ip >= |chunk.code| || top < 1 {
        return Undefined;
      }
      var u := FrameUpvalueAt(chunk.code[ip] as nat);
      if u.None? {
        return Undefined;
      }
      var v := Peek(0);
      SetIp(ip + 1);
      ghost var m1 := WithIp(m, ip + 1);
      assert Snapshot() == m1;
      match heap.store[u.value].state {
        case Open(slot) =>
          assert IsOpenUpvalue(heap.State(), u.value);
          assert t == Transition(m1.(stack := m.stack[slot := v]), Continue);
          SetSlot(slot, v);
          assert Snapshot() == t.m;
        case Closed(_) =>
          assert t == Transition(m1.(heap := WithUpvalueClosed(m.heap, u.value, v)), Continue);
          heap.SetClosedValue(u.value, v);
          assert Snapshot() == t.m;
      }
      return Continue;
    }

    method ExecJump(chunk: Chunk) returns (o: Outcome)
      requires Valid() && 1 <= frameCount
      modifies frames
      ensures Agrees(o, OpJumpStep(old(Snapshot()), chunk))
    {
      var ip := frames[frameCount - 1].ip;
      if ip + 2 > |chunk.code| {
        return Undefined;
      }
      SetIp(ip + 2 + ReadShort(chunk.code[ip], chunk.code[ip + 1]));
      return Continue;
    }

    method ExecJumpIfFalse(chunk: Chunk) returns (o: Outcome)
      requires Valid() && 1 <= frameCount
      modifies frames
      ensures Agrees(o, OpJumpIfFalseStep(old(Snapshot()), chunk))
    {
      var ip := frames[frameCount - 1].ip;
      if ip + 2 > |chunk.code| || top < 1 {
        return Undefined;
      }
      var offset := ReadShort(chunk.code[ip], chunk.code[ip + 1]);
      var condition := Peek(0);
      if IsFalsy(condition) {
        SetIp(ip + 2 + offset);
      } else {
        SetIp(ip + 2);
      }
      return Continue;
    }

    method ExecLoop(chunk: Chunk) returns (o: Outcome)
      requires Valid() && 1 <= frameCount
      modifies frames
      ensures Agrees(o, OpLoopStep(old(Snapshot()), chunk))
    {
      var ip := frames[frameCount - 1].ip;
      if ip + 2 > |chunk.code| {
        return Undefined;
      }
      var offset := ReadShort(chunk.code[ip], chunk.code[ip + 1]);
      if ip + 2 < offset {
        return Undefined;
      }
      SetIp(ip + 2 - offset);
      return Continue;
    }

    method ExecCall(chunk: Chunk, host: Host) returns (o: Outcome)
      requires Valid() && 1 <= frameCount
      modifies this, stack, frames, heap
      ensures Agrees(o, OpCallStep(old(Snapshot()), chunk, host))
    {
      SnapshotWf();
      var ip := frames[frameCount - 1].ip;
      if ip >= |chunk.code| {
        return Undefined;
      }
      var argCount := chunk.code[ip] as nat;
      if argCount >= top {
        return Undefined;
      }
      SetIp(ip + 1);
      var callee := Peek(argCount);
      var called := CallValue(callee, argCount, host);
      if called.None? {
        return Undefined;
      }
      if !called.value {
        var error := RaiseRuntimeError();
        return Halt(error);
      }
      return Continue;
    }

    /** One operand pair of `OP_CLOSURE`, filling slot `i` of closure `c`. */
    method FillSlot(chunk: Chunk, c: Handle, i: nat) returns (filled: bool)
      requires Valid() && 1 <= frameCount && c < |heap.store| && heap.store[c].ClosureObj?
      requires i < |heap.store[c].upvalues| && 2 * i <= frames[frameCount - 1].ip
      requires frames[frameCount - 1].closure < |heap.store|
      requires heap.store[frames[frameCount - 1].closure].ClosureObj?
      requires frames[frameCount - 1].closure != c
      modifies frames, heap
      ensures Valid()
      ensures var r := FillOne(old(Snapshot()), chunk, c, i);
              filled == r.Some? && (filled ==> Snapshot() == r.value)
    {
      var ip := frames[frameCount - 1].ip;
      if ip + 2 > |chunk.code| {
        return false;
      }
      ghost var m := Snapshot();
      var isLocal := chunk.code[ip];
      var index := chunk.code[ip + 1] as nat;
      if isLocal != 0 {
        var slot := frames[frameCount - 1].base + index;
        if slot >= stack.Length {
          return false;
        }
        CaptureLocal(chunk, c, i, slot);
      } else {
        var enclosing := frames[frameCount - 1].closure;
        if index >= |heap.store[enclosing].upvalues| {
          return false;
        }
        CopyEnclosing(chunk, c, i, index);
      }
      return true;
    }

    /** A local operand pair: slot `i` of `c` captures stack slot `slot` of the running frame. */
    method CaptureLocal(chunk: Chunk, c: Handle, i: nat, slot: nat)
      requires Valid() && 1 <= frameCount && c < |heap.store| && heap.store[c].ClosureObj?
      requires i < |heap.store[c].upvalues| && 2 * i <= frames[frameCount - 1].ip
      requires frames[frameCount - 1].closure < |heap.store|
      requires heap.store[frames[frameCount - 1].closure].ClosureObj?
      requires frames[frameCount - 1].closure != c
      requires frames[frameCount - 1].ip + 2 <= |chunk.code| && chunk.code[frames[frameCount - 1].ip] != 0
      requires slot == frames[frameCount - 1].base + chunk.code[frames[frameCount - 1].ip + 1] as nat
      requires slot < stack.Length
      modifies frames, heap
      ensures Valid() && FillOne(old(Snapshot()), chunk, c, i) == Some(Snapshot())
    {
      ghost var m := Snapshot();
      SetIp(frames[frameCount - 1].ip + 2);
      heap.CaptureIntoClosure(c, i, slot);
      assert Snapshot() == WithIp(m, Ip(m) + 2).(heap := CaptureInto(m.heap, c, i, slot));
      FillOneLocal(m, chunk, c, i, slot);
    }

    /** An enclosing operand pair: slot `i` of `c` shares upvalue `index` of the running closure. */
    method CopyEnclosing(chunk: Chunk, c: Handle, i: nat, index: nat)
      requires Valid() && 1 <= frameCount && c < |heap.store| && heap.store[c].ClosureObj?
      requires i < |heap.store[c].upvalues| && 2 * i <= frames[frameCount - 1].ip
      requires frames[frameCount - 1].closure < |heap.store|
      requires heap.store[frames[frameCount - 1].closure].ClosureObj?
      requires frames[frameCount - 1].closure != c
      requires frames[frameCount - 1].ip + 2 <= |chunk.code| && chunk.code[frames[frameCount - 1].ip] == 0
      requires index == chunk.code[frames[frameCount - 1].ip + 1] as nat
      requires index < |heap.store[frames[frameCount - 1].closure].upvalues|
      modifies frames, heap
      ensures Valid() && FillOne(old(Snapshot()), chunk, c, i) == Some(Snapshot())
    {
      ghost var m := Snapshot();
      var enclosing := frames[frameCount - 1].closure;
      SetIp(frames[frameCount - 1].ip + 2);
      heap.SetClosureUpvalue(c, i, heap.store[enclosing].upvalues[index]);
      assert Snapshot() == WithIp(m, Ip(m) + 2).(heap := WithClosureUpvalue(m.heap, c, i, m.heap.store[enclosing].upvalues[index]));
      FillOneEnclosing(m, chunk, c, i, index);
    }

    /**
     * The state of the operand loop of `OP_CLOSURE` before slot `i` of the new closure `c`
     * (which has `count` slots): the rest of the loop from here yields `target`.
     */
    ghost predicate Filling(chunk: Chunk, c: Handle, i: nat, count: nat, target: Transition)
      reads this, stack, frames, heap
    {
      && Valid() && 1 <= frameCount && c < |heap.store| && heap.store[c].ClosureObj?
      && i <= count == |heap.store[c].upvalues| && 2 * i <= frames[frameCount - 1].ip
      && frames[frameCount - 1].closure < |heap.store|
      && heap.store[frames[frameCount - 1].closure].ClosureObj?
      && frames[frameCount - 1].closure != c
      && FillUpvalues(Snapshot(), chunk, c, i) == target
    }

    /** `FillSlot` as one iteration of the operand loop: the rest of the loop is unchanged by it. */
    method FillNext(chunk: Chunk, c: Handle, i: nat, count: nat, ghost target: Transition) returns (filled: bool)
      requires Filling(chunk, c, i, count, target) && i < count
      modifies frames, heap
      ensures Valid()
      ensures if filled then Filling(chunk, c, i + 1, count, target) else target.outcome == Undefined
    {
      ghost var m := Snapshot();
      SnapshotWf();
      FillUpvaluesUnfold(m, chunk, c, i);
      FillOneFills(m, chunk, c, i);
      filled := FillSlot(chunk, c, i);
      if filled {
        assert Active(Snapshot()) == Active(m).(ip := Ip(m) + 2);
      }
    }

    method ExecClosure(chunk: Chunk) returns (o: Outcome)
      requires Valid() && 1 <= frameCount
      modifies this, stack, frames, heap
      ensures Agrees(o, OpClosureStep(old(Snapshot()), chunk))
    {
      var ip := frames[frameCount - 1].ip;
      if ip >= |chunk.code| || (chunk.code[ip] as nat) >= |chunk.constants| {
        return Undefined;
      }
      var enclosing := frames[frameCount - 1].closure;
      if enclosing >= |heap.store| || !heap.store[enclosing].ClosureObj?
         || heap.store[enclosing].fn >= |heap.store| || !heap.store[heap.store[enclosing].fn].FunctionObj? {
        return Undefined;
      }
      var f := chunk.constants[chunk.code[ip]];
      if !f.ObjectRef? || f.handle >= |heap.store| || !heap.store[f.handle].FunctionObj? || top >= stack.Length {
        return Undefined;
      }
      o := MakeClosure(chunk, f.handle);
    }

    /** `OP_CLOSURE` once its operand and the running closure have been checked. */
    method MakeClosure(chunk: Chunk, fn: Handle) returns (o: Outcome)
      requires Valid() && 1 <= frameCount
      requires frames[frameCount - 1].ip < |chunk.code|
      requires (chunk.code[frames[frameCount - 1].ip] as nat) < |chunk.constants|
      requires ClosureFunction(heap.State(), frames[frameCount - 1].closure).Some?
      requires chunk.constants[chunk.code[frames[frameCount - 1].ip]] == ObjectRef(fn)
      requires fn < |heap.store| && heap.store[fn].FunctionObj? && top < stack.Length
      modifies this, stack, frames, heap
      ensures Agrees(o, OpClosureStep(old(Snapshot()), chunk))
    {
      var ip := frames[frameCount - 1].ip;
      ghost var m := Snapshot();
      SetIp(ip + 1);
      ghost var m0 := WithIp(m, ip + 1);
      assert Snapshot() == m0;
      var c := heap.CreateClosure(fn);
      ghost var a := ClosureCreated(m.heap, fn);
      assert Snapshot() == m0.(heap := a.heap);
      Push(ObjectRef(c));
      assert Snapshot() == Semantics.Push(WithIp(m, Ip(m) + 1).(heap := ClosureCreated(m.heap, fn).heap), ObjectRef(c));
      OpClosureStepCreates(m, chunk, fn, Snapshot(), c);
      ReadyOnFields(c);
      o := FillAll(chunk, c);
    }

    /** `FillReady` of the snapshot, read back on the fields. */
    lemma ReadyOnFields(c: Handle)
      requires Valid() && FillReady(Snapshot(), c)
      ensures 1 <= frameCount && c < |heap.store| && heap.store[c].ClosureObj?
      ensures frames[frameCount - 1].closure < |heap.store|
      ensures heap.store[frames[frameCount - 1].closure].ClosureObj?
      ensures frames[frameCount - 1].closure != c
    {
    }

    /** The operand loop of `OP_CLOSURE`: fills every upvalue slot of the new closure `c`. */
    method FillAll(chunk: Chunk, c: Handle) returns (o: Outcome)
      requires Valid() && 1 <= frameCount && c < |heap.store| && heap.store[c].ClosureObj?
      requires frames[frameCount - 1].closure < |heap.store|
      requires heap.store[frames[frameCount - 1].closure].ClosureObj?
      requires frames[frameCount - 1].closure != c
      modifies frames, heap
      ensures Agrees(o, FillUpvalues(old(Snapshot()), chunk, c, 0))
    {
      ghost var target := FillUpvalues(Snapshot(), chunk, c, 0);
      var count := |heap.store[c].upvalues|;
      var i := 0;
      while i < count
        invariant Filling(chunk, c, i, count, target)
        decreases count - i
      {
        var filled := FillNext(chunk, c, i, count, target);
        if !filled {
          return Undefined;
        }
        i := i + 1;
      }
      FillingDone(chunk, c, i, count, target);
      return Continue;
    }

    /** The operand loop ends, having reached `target`, once every slot is filled. */
    lemma FillingDone(chunk: Chunk, c: Handle, i: nat, count: nat, target: Transition)
      requires Filling(chunk, c, i, count, target) && i == count
      ensures Agrees(Continue, target)
    {
      FillUpvaluesEnd(Snapshot(), chunk, c, i);
    }

    method ExecCloseUpvalue() returns (o: Outcome)
      requires Valid() && 1 <= frameCount
      modifies this, heap
      ensures Agrees(o, OpCloseUpvalueStep(old(Snapshot())))
    {
      if top < 1 {
        return Undefined;
      }
      CloseUpvalues(top - 1);
      var v := Pop();
      return Continue;
    }

    method ExecUnknown() returns (o: Outcome)
      requires Valid() && 1 <= frameCount
      modifies this
      ensures Agrees(o, UnknownOpStep(old(Snapshot())))
    {
      if top < 1 {
        return Undefined;
      }
      var v := Pop();
      return Halt(InterpretResult(InterpretCompileError, v));
    }

    /** The switch of the dispatch loop: runs the decoded instruction. */
    method Execute(op: Option<OpCode>, chunk: Chunk, fp: FloatOps, host: Host) returns (o: Outcome)
      requires Valid() && 1 <= frameCount
      modifies this, stack, frames, heap
      ensures Agrees(o, Semantics.Execute(old(Snapshot()), chunk, op, fp, host))
    {
      match op {
        case None => o := ExecUnknown();
        case Some(code) =>
          match code {
            case OpReturn => o := ExecReturn();
            case OpConstant => o := ExecConstant(chunk);
            case OpNil => o := ExecLiteral(Nil);
            case OpTrue => o := ExecLiteral(Bool(true));
            case OpFalse => o := ExecLiteral(Bool(false));
            case OpArithmeticNegation => o := ExecNegate(fp);
            case OpBooleanNegation => o := ExecNot();
            case OpAdd => o := ExecAdd(fp);
            case OpSub => o := ExecBinaryNumber(NumberResult(OpSub, fp));
            case OpMul => o := ExecBinaryNumber(NumberResult(OpMul, fp));
            case OpDiv => o := ExecBinaryNumber(NumberResult(OpDiv, fp));
            case OpEqual => o := ExecEqual(fp);
            case OpGreater => o := ExecBinaryNumber(NumberResult(OpGreater, fp));
            case OpLess => o := ExecBinaryNumber(NumberResult(OpLess, fp));
            case OpPrint => o := ExecDiscard();
            case OpPop => o := ExecDiscard();
            case OpDefineGlobal => o := ExecDefineGlobal(chunk);
            case OpGetGlobal => o := ExecGetGlobal(chunk);
            case OpSetGlobal => o := ExecSetGlobal(chunk);
            case OpGetLocal => o := ExecGetLocal(chunk);
            case OpSetLocal => o := ExecSetLocal(chunk);
            case OpGetUpvalue => o := ExecGetUpvalue(chunk);
            case OpSetUpvalue => o := ExecSetUpvalue(chunk);
            case OpJump => o := ExecJump(chunk);
            case OpJumpIfFalse => o := ExecJumpIfFalse(chunk);
            case OpLoop => o := ExecLoop(chunk);
            case OpCall => o := ExecCall(chunk, host);
            case OpClosure => o := ExecClosure(chunk);
            case OpCloseUpvalue => o := ExecCloseUpvalue();
          }
      }
    }

    /** One iteration of the dispatch loop: fetch the opcode byte, move past it, execute it. */
    method Step(fp: FloatOps, host: Host) returns (o: Outcome)
      requires Valid()
      modifies this, stack, frames, heap
      ensures Agrees(o, Semantics.Step(old(Snapshot()), fp, host))
    {
      if frameCount == 0 {
        return Undefined;
      }
      var closure := frames[frameCount - 1].closure;
      if closure >= |heap.store| || !heap.store[closure].ClosureObj?
         || heap.store[closure].fn >= |heap.store| || !heap.store[heap.store[closure].fn].FunctionObj? {
        return Undefined;
      }
      o := ExecuteNext(heap.store[heap.store[closure].fn].chunk, fp, host);
    }

    /** The fetch and execute half of `Step`, once the active frame's chunk is known. */
    method ExecuteNext(chunk: Chunk, fp: FloatOps, host: Host) returns (o: Outcome)
      requires Valid() && 1 <= frameCount && ActiveChunk(Snapshot()) == Some(chunk)
      modifies this, stack, frames, heap
      ensures Agrees(o, Semantics.Step(old(Snapshot()), fp, host))
    {
      ghost var m := Snapshot();
      SnapshotWf();
      var ip := frames[frameCount - 1].ip;
      assert Ip(m) == ip;
      if ip >= |chunk.code| {
        StepOffEnd(m, fp, host, chunk);
        return Undefined;
      }
      SetIp(ip + 1);
      ghost var m1 := Snapshot();
      o := Execute(Decode(chunk.code[ip]), chunk, fp, host);
      StepComposes(m, fp, host, chunk, m1, o, Snapshot());
    }

    /**
     * The `for (;;)` of `Clox_VM_Interpret_Function`, for at most `fuel` iterations; the
     * final state and result are those of `Semantics.Run`.
     */
    method Run(fp: FloatOps, host: Host, fuel: nat) returns (result: RunResult)
      requires Valid()
      modifies this, stack, frames, heap
      ensures Valid()
      ensures var r := Semantics.Run(old(Snapshot()), fp, host, fuel);
              result == r.1 && (!result.Stuck? ==> Snapshot() == r.0)
    {
      var remaining := fuel;
      while remaining > 0
        invariant Valid()
        invariant Semantics.Run(Snapshot(), fp, host, remaining) == Semantics.Run(old(Snapshot()), fp, host, fuel)
        decreases remaining
      {
        RunUnfold(Snapshot(), fp, host, remaining);
        var o := Step(fp, host);
        match o {
          case Continue =>
            remaining := remaining - 1;
          case Halt(r) =>
            return Finished(r);
          case Undefined =>
            return Stuck;
        }
      }
      RunUnfold(Snapshot(), fp, host, remaining);
      return OutOfFuel;
    }

    /**
     * `Clox_VM_Interpret_Source` after compilation: `compiled` is the compiler's top-level
     * function, `None` when compilation failed.
     */
    method Interpret(compiled: Option<Handle>, fp: FloatOps, host: Host, fuel: nat) returns (result: RunResult)
      requires Valid()
      modifies this, stack, frames, heap
      ensures Valid()
      ensures var r := Semantics.Interpret(old(Snapshot()), compiled, fp, host, fuel);
              result == r.1 && (!result.Stuck? ==> Snapshot() == r.0)
    {
      ResetStack();
      if compiled.None? {
        return Finished(CompileError);
      }
      var f := compiled.value;
      if f >= |heap.store| || !heap.store[f].FunctionObj? || stack.Length == 0 {
        return Stuck;
      }
      var c := heap.CreateClosure(f);
      Push(ObjectRef(c));
      var called := Call(c, 0);
      result := Run(fp, host, fuel);
    }
  }
}
