/**
 * The execution engine of src/vm.c as functions on a machine state: the value stack, the
 * call frames, upvalue closing, call mechanics and one function per opcode of the dispatch
 * loop. Class `Vm.VM` runs the same steps in place and is proved to agree with `Step`.
 *
 * Where the C code performs no check and would read or write outside its arrays, dereference
 * NULL or reach `CLOX_UNREACHABLE`, the step's outcome is `Undefined`: the source gives no
 * behaviour there, and the model stops instead of inventing one.
 */
module Semantics {
  import opened Wrappers
  import opened Value
  import opened Object

  /** `Clox_Call_Frame`: the running closure, the index of the next instruction, the base slot. */
  datatype Frame = Frame(closure: Handle, ip: nat, base: nat)

  /**
   * The VM: `stack` is the whole fixed-size stack array (slots at and above `top` keep stale
   * values, as in C) and `frames` the whole fixed-size frame array, `frameCount` of them live.
   */
  datatype Machine = Machine(
    stack: seq<Value>,
    top: nat,
    frames: seq<Frame>,
    frameCount: nat,
    heap: HeapState,
    globals: map<Handle, Value>)

  /** `Clox_Interpret_Result`. */
  datatype Status = InterpretOk | InterpretCompileError | InterpretRuntimeError
  datatype InterpretResult = InterpretResult(status: Status, returnValue: Value)

  /** What one dispatch-loop iteration does: go on, return from the loop, or leave the defined behaviour. */
  datatype Outcome = Continue | Halt(result: InterpretResult) | Undefined
  datatype Transition = Transition(m: Machine, outcome: Outcome)

  /** Floating-point arithmetic and comparison on doubles, supplied by the host. */
  datatype FloatOps = FloatOps(
    add: (Num, Num) -> Num,
    sub: (Num, Num) -> Num,
    mul: (Num, Num) -> Num,
    div: (Num, Num) -> Num,
    negate: Num -> Num,
    greater: (Num, Num) -> bool,
    less: (Num, Num) -> bool,
    equal: (Num, Num) -> bool)

  /** The host's native functions: given the native's identity and its arguments, its result. */
  type Host = (NativeId, seq<Value>) -> Value

  /** The machine invariant: `top` and `frameCount` within their arrays, a well-formed heap, open upvalues inside the stack. */
  ghost predicate Wf(m: Machine)
  {
    && m.top <= |m.stack|
    && m.frameCount <= |m.frames|
    && HeapWf(m.heap)
    && OpenSlotsWithin(m.heap, |m.stack|)
  }

  /** A machine inside the dispatch loop: well formed, with an active frame. */
  ghost predicate Running(m: Machine)
  {
    Wf(m) && 1 <= m.frameCount
  }

  const CompileError := InterpretResult(InterpretCompileError, Nil)
  const RuntimeError := InterpretResult(InterpretRuntimeError, Nil)

  // ---------------------------------------------------------------------------------------
  // The value stack

  /** `Clox_VM_Stack_Peek`: the value `depth` slots below the top. */
  function Peek(m: Machine, depth: nat): Value
    requires m.top <= |m.stack| && depth < m.top
  {
    m.stack[m.top - 1 - depth]
  }

  /** `Clox_VM_Stack_Push`: the pushed value is on top and everything below stays put. */
  function Push(m: Machine, v: Value): (r: Machine)
    requires m.top < |m.stack|
    ensures r.top == m.top + 1 && |r.stack| == |m.stack| && Peek(r, 0) == v
    ensures forall d :: 0 <= d < m.top ==> Peek(r, d + 1) == Peek(m, d)
    ensures Wf(m) ==> Wf(r)
    ensures r.frames == m.frames && r.frameCount == m.frameCount && r.heap == m.heap && r.globals == m.globals
  {
    m.(stack := m.stack[m.top := v], top := m.top + 1)
  }

  /** `Clox_VM_Stack_Pop` (the value itself is `Peek(m, 0)`): the rest of the stack moves up by one. */
  function Pop(m: Machine): (r: Machine)
    requires 0 < m.top <= |m.stack|
    ensures r.top == m.top - 1 && r.stack == m.stack
    ensures forall d :: 0 <= d < r.top ==> Peek(r, d) == Peek(m, d + 1)
    ensures Wf(m) ==> Wf(r)
    ensures r.frames == m.frames && r.frameCount == m.frameCount && r.heap == m.heap && r.globals == m.globals
  {
    m.(top := m.top - 1)
  }

  /** Pushing then popping gives back the machine with the old top (the written slot stays stale). */
  lemma PushThenPop(m: Machine, v: Value)
    requires m.top < |m.stack|
    ensures Pop(Push(m, v)) == m.(stack := m.stack[m.top := v])
  {
  }

  /** `Clox_VM_Reset_Stack`: empty stack, no frames, no open upvalues. */
  function ResetStack(m: Machine): (r: Machine)
    ensures r.top == 0 && r.frameCount == 0 && r.heap.openUpvalues == []
    ensures r.stack == m.stack && r.frames == m.frames && r.globals == m.globals
    ensures r.heap.store == m.heap.store && r.heap.objects == m.heap.objects && r.heap.strings == m.heap.strings
    ensures Wf(m) ==> Wf(r)
  {
    var r := m.(top := 0, frameCount := 0, heap := m.heap.(openUpvalues := []));
    assert forall u :: IsOpenUpvalue(r.heap, u) ==> IsOpenUpvalue(m.heap, u) && Loc(r.heap, u) == Loc(m.heap, u);
    r
  }

  /** The status/reset part of `Clox_VM_Runtime_Error`: always resets and reports a runtime error. */
  function RuntimeErrorHalt(m: Machine): (r: Transition)
    ensures r.outcome == Halt(RuntimeError)
    ensures r.m.top == 0 && r.m.frameCount == 0 && r.m.heap.openUpvalues == []
    ensures r.m == ResetStack(m)
    ensures Wf(m) ==> Wf(r.m)
  {
    Transition(ResetStack(m), Halt(RuntimeError))
  }

  /** Running the reset twice, as a failed call does, is the same as running it once. */
  lemma ResetStackIdempotent(m: Machine)
    ensures ResetStack(ResetStack(m)) == ResetStack(m)
  {
  }

  // ---------------------------------------------------------------------------------------
  // Frames and operands

  function Active(m: Machine): Frame
    requires 1 <= m.frameCount <= |m.frames|
  {
    m.frames[m.frameCount - 1]
  }

  function Ip(m: Machine): nat
    requires 1 <= m.frameCount <= |m.frames|
  {
    Active(m).ip
  }

  /** Moves the active frame's instruction index; nothing else changes. */
  function WithIp(m: Machine, ip: nat): (r: Machine)
    requires 1 <= m.frameCount <= |m.frames|
    ensures Wf(m) ==> Wf(r)
    ensures r.frameCount == m.frameCount && |r.frames| == |m.frames|
    ensures Active(r) == Active(m).(ip := ip)
    ensures forall k :: 0 <= k < |m.frames| && k != m.frameCount - 1 ==> r.frames[k] == m.frames[k]
    ensures r.stack == m.stack && r.top == m.top && r.heap == m.heap && r.globals == m.globals
  {
    m.(frames := m.frames[m.frameCount - 1 := Active(m).(ip := ip)])
  }

  /** The function object a closure handle runs, when the handle is a closure over a function. */
  function ClosureFunction(heap: HeapState, c: Handle): (r: Option<Obj>)
    ensures r.Some? ==> r.value.FunctionObj?
  {
    if c < |heap.store| && heap.store[c].ClosureObj? && heap.store[c].fn < |heap.store|
       && heap.store[heap.store[c].fn].FunctionObj?
    then Some(heap.store[heap.store[c].fn])
    else None
  }

  /** A 16-bit operand: the high byte comes first (big-endian). */
  function ReadShort(hi: Byte, lo: Byte): (offset: nat)
    ensures offset < 0x1_0000
    ensures offset / 256 == hi as nat && offset % 256 == lo as nat
  {
    (hi as nat) * 256 + (lo as nat)
  }

  // ---------------------------------------------------------------------------------------
  // Upvalue closing

  /** Closes the head of the open-upvalue list: it takes a copy of its slot and leaves the list. */
  function ClosedHead(heap: HeapState, stack: seq<Value>): (r: HeapState)
    requires HeapWf(heap) && OpenSlotsWithin(heap, |stack|) && heap.openUpvalues != []
    ensures HeapWf(r) && OpenSlotsWithin(r, |stack|)
    ensures |r.store| == |heap.store| && r.objects == heap.objects && r.strings == heap.strings
    ensures r.openUpvalues == heap.openUpvalues[1..]
    ensures r.store[heap.openUpvalues[0]] == UpvalueObj(Closed(stack[Loc(heap, heap.openUpvalues[0])]))
    ensures forall k :: 0 <= k < |heap.store| && k != heap.openUpvalues[0] ==> r.store[k] == heap.store[k]
  {
    var u := heap.openUpvalues[0];
    var r := heap.(store := heap.store[u := UpvalueObj(Closed(stack[Loc(heap, u)]))],
                   openUpvalues := heap.openUpvalues[1..]);
    assert forall i :: 0 < i < |heap.openUpvalues| ==> heap.openUpvalues[i] != u by {
      forall i | 0 < i < |heap.openUpvalues| ensures heap.openUpvalues[i] != u {
        assert Loc(heap, heap.openUpvalues[0]) > Loc(heap, heap.openUpvalues[i]);
      }
    }
    assert forall w :: IsOpenUpvalue(r, w) ==> IsOpenUpvalue(heap, w) && Loc(r, w) == Loc(heap, w);
    assert forall i :: 0 <= i < |r.openUpvalues| ==> r.openUpvalues[i] == heap.openUpvalues[i + 1];
    r
  }

  /**
   * `Clox_VM_Close_Upvalues(last)`: closes, head first, every open upvalue referring to a slot
   * at or above `last`. What it closes and what it leaves is `CloseUpvaluesCloses`.
   */
  function CloseUpvalues(heap: HeapState, stack: seq<Value>, last: nat): (r: HeapState)
    requires HeapWf(heap) && OpenSlotsWithin(heap, |stack|)
    ensures HeapWf(r) && OpenSlotsWithin(r, |stack|)
    ensures |r.store| == |heap.store| && r.objects == heap.objects && r.strings == heap.strings
    ensures r.openUpvalues == [] || Loc(r, r.openUpvalues[0]) < last
    decreases |heap.openUpvalues|
  {
    if heap.openUpvalues == [] || Loc(heap, heap.openUpvalues[0]) < last then heap
    else CloseUpvalues(ClosedHead(heap, stack), stack, last)
  }

  /**
   * Closing stops at the first upvalue below `last`: each upvalue closed holds the value its
   * slot had, what remains of the list is its tail and lies wholly below `last`, and no other
   * object changes.
   */
  lemma {:induction false} CloseUpvaluesCloses(heap: HeapState, stack: seq<Value>, last: nat, r: HeapState)
    requires HeapWf(heap) && OpenSlotsWithin(heap, |stack|)
    requires r == CloseUpvalues(heap, stack, last)
    ensures && |r.openUpvalues| <= |heap.openUpvalues|
            && r.openUpvalues == heap.openUpvalues[|heap.openUpvalues| - |r.openUpvalues|..]
            && (forall i :: 0 <= i < |r.openUpvalues| ==> Loc(r, r.openUpvalues[i]) < last)
            && (forall i :: 0 <= i < |heap.openUpvalues| - |r.openUpvalues| ==>
                  && Loc(heap, heap.openUpvalues[i]) >= last
                  && r.store[heap.openUpvalues[i]] == UpvalueObj(Closed(stack[Loc(heap, heap.openUpvalues[i])])))
            && (forall k :: 0 <= k < |heap.store| && k !in heap.openUpvalues[..|heap.openUpvalues| - |r.openUpvalues|]
                  ==> r.store[k] == heap.store[k])
    decreases |heap.openUpvalues|
  {
    if heap.openUpvalues == [] || Loc(heap, heap.openUpvalues[0]) < last {
      HeadBoundsAll(heap, last);
    } else {
      var next := ClosedHead(heap, stack);
      CloseUpvaluesCloses(next, stack, last, r);
      CloseUpvaluesStep(heap, stack, last, next, r);
    }
  }

  /** One iteration of the closing loop: its guard, and the rest of the walk after the head is closed. */
  lemma CloseUpvaluesUnfold(heap: HeapState, stack: seq<Value>, last: nat)
    requires HeapWf(heap) && OpenSlotsWithin(heap, |stack|)
    ensures heap.openUpvalues != [] ==> IsOpenUpvalue(heap, heap.openUpvalues[0])
    ensures heap.openUpvalues != [] && Loc(heap, heap.openUpvalues[0]) >= last ==>
              CloseUpvalues(heap, stack, last) == CloseUpvalues(ClosedHead(heap, stack), stack, last)
    ensures heap.openUpvalues == [] || Loc(heap, heap.openUpvalues[0]) < last ==>
              CloseUpvalues(heap, stack, last) == heap
  {
  }

  /** The list is sorted by slot, highest first, so a bound on its head bounds every entry. */
  lemma HeadBoundsAll(heap: HeapState, last: nat)
    requires HeapWf(heap)
    requires heap.openUpvalues == [] || Loc(heap, heap.openUpvalues[0]) < last
    ensures forall i :: 0 <= i < |heap.openUpvalues| ==> Loc(heap, heap.openUpvalues[i]) < last
  {
    forall i | 0 < i < |heap.openUpvalues|
      ensures Loc(heap, heap.openUpvalues[i]) < last
    {
      assert Loc(heap, heap.openUpvalues[0]) > Loc(heap, heap.openUpvalues[i]);
    }
  }

  lemma CloseUpvaluesStep(heap: HeapState, stack: seq<Value>, last: nat, next: HeapState, r: HeapState)
    requires HeapWf(heap) && OpenSlotsWithin(heap, |stack|) && heap.openUpvalues != []
    requires Loc(heap, heap.openUpvalues[0]) >= last
    requires next == ClosedHead(heap, stack)
    requires HeapWf(r) && |r.store| == |next.store|
    requires |r.openUpvalues| <= |next.openUpvalues|
    requires r.openUpvalues == next.openUpvalues[|next.openUpvalues| - |r.openUpvalues|..]
    requires forall i :: 0 <= i < |next.openUpvalues| - |r.openUpvalues| ==>
              && Loc(next, next.openUpvalues[i]) >= last
              && r.store[next.openUpvalues[i]] == UpvalueObj(Closed(stack[Loc(next, next.openUpvalues[i])]))
    requires forall k :: 0 <= k < |next.store| && k !in next.openUpvalues[..|next.openUpvalues| - |r.openUpvalues|]
              ==> r.store[k] == next.store[k]
    ensures r.openUpvalues == heap.openUpvalues[|heap.openUpvalues| - |r.openUpvalues|..]
    ensures forall i :: 0 <= i < |heap.openUpvalues| - |r.openUpvalues| ==>
              && Loc(heap, heap.openUpvalues[i]) >= last
              && r.store[heap.openUpvalues[i]] == UpvalueObj(Closed(stack[Loc(heap, heap.openUpvalues[i])]))
    ensures forall k :: 0 <= k < |heap.store| && k !in heap.openUpvalues[..|heap.openUpvalues| - |r.openUpvalues|]
              ==> r.store[k] == heap.store[k]
  {
    var open := heap.openUpvalues;
    var n := |open| - |r.openUpvalues|;
    assert next.openUpvalues == open[1..];
    assert open[..n] == [open[0]] + next.openUpvalues[..n - 1];
    assert open[0] !in next.openUpvalues[..n - 1] by {
      forall i | 0 <= i < n - 1 ensures next.openUpvalues[i] != open[0] {
        assert Loc(heap, open[0]) > Loc(heap, open[i + 1]);
      }
    }
    forall i | 0 < i < n
      ensures Loc(heap, open[i]) >= last
      ensures r.store[open[i]] == UpvalueObj(Closed(stack[Loc(heap, open[i])]))
    {
      assert open[i] == next.openUpvalues[i - 1];
      assert open[i] != open[0] by {
        assert Loc(heap, open[0]) > Loc(heap, open[i]);
      }
    }
  }

  // ---------------------------------------------------------------------------------------
  // Calls

  /**
   * `Clox_VM_Call`: checks the argument count against the arity and the frame count against
   * the frame array's capacity (`CLOX_MAX_CALL_FRAMES`); on success the new frame starts at
   * the first instruction with its base `argCount + 1` slots below the top.
   */
  function Call(m: Machine, callee: Handle, argCount: nat): (r: (Machine, bool))
    requires Wf(m) && argCount < m.top && ClosureFunction(m.heap, callee).Some?
    ensures Wf(r.0)
    ensures !r.1 <==> argCount != ClosureFunction(m.heap, callee).value.arity || m.frameCount == |m.frames|
    ensures !r.1 ==> r.0 == ResetStack(m)
    ensures r.1 ==> && r.0.frameCount == m.frameCount + 1
                    && Active(r.0) == Frame(callee, 0, m.top - argCount - 1)
                    && r.0.frames[..m.frameCount] == m.frames[..m.frameCount]
                    && r.0.stack == m.stack && r.0.top == m.top
                    && r.0.heap == m.heap && r.0.globals == m.globals
  {
    var arity := ClosureFunction(m.heap, callee).value.arity;
    if argCount != arity then
      (ResetStack(m), false)
    else if m.frameCount == |m.frames| then
      (ResetStack(m), false)
    else
      (m.(frames := m.frames[m.frameCount := Frame(callee, 0, m.top - argCount - 1)],
          frameCount := m.frameCount + 1), true)
  }

  /**
   * `Clox_VM_Call_Value`: a closure is called through `Call`; a native replaces the callee and
   * its arguments by its result without pushing a frame; anything else fails with a reset.
   * `None` stands for a dangling object reference or a closure over a non-function.
   */
  function CallValue(m: Machine, callee: Value, argCount: nat, host: Host): (r: Option<(Machine, bool)>)
    requires Wf(m) && argCount < m.top
    ensures r.Some? ==> Wf(r.value.0)
    ensures r.Some? && !r.value.1 ==> r.value.0 == ResetStack(m)
  {
    match callee
    case ObjectRef(h) =>
      if h >= |m.heap.store| then None
      else (
        match m.heap.store[h]
        case ClosureObj(_, _) =>
          if ClosureFunction(m.heap, h).Some? then Some(Call(m, h, argCount)) else None
        case NativeObj(native) =>
          var result := host(native, m.stack[m.top - argCount .. m.top]);
          Some((Push(m.(top := m.top - argCount - 1), result), true))
        case _ => Some((ResetStack(m), false)))
    case _ => Some((ResetStack(m), false))
  }

  // ---------------------------------------------------------------------------------------
  // Opcodes

  /** The opcodes of the dispatch loop. */
  datatype OpCode =
    | OpReturn | OpConstant | OpNil | OpTrue | OpFalse
    | OpArithmeticNegation | OpBooleanNegation
    | OpAdd | OpSub | OpMul | OpDiv | OpEqual | OpGreater | OpLess
    | OpPrint | OpPop
    | OpDefineGlobal | OpGetGlobal | OpSetGlobal
    | OpGetLocal | OpSetLocal | OpGetUpvalue | OpSetUpvalue
    | OpJump | OpJumpIfFalse | OpLoop
    | OpCall | OpClosure | OpCloseUpvalue

  /** Opcode byte values, in the order of the dispatch switch. */
  const OpCodes: seq<OpCode> := [
    OpReturn, OpConstant, OpNil, OpTrue, OpFalse,
    OpArithmeticNegation, OpBooleanNegation,
    OpAdd, OpSub, OpMul, OpDiv, OpEqual, OpGreater, OpLess,
    OpPrint, OpPop,
    OpDefineGlobal, OpGetGlobal, OpSetGlobal,
    OpGetLocal, OpSetLocal, OpGetUpvalue, OpSetUpvalue,
    OpJump, OpJumpIfFalse, OpLoop,
    OpCall, OpClosure, OpCloseUpvalue]

  /** Decodes an opcode byte; any other byte takes the switch's default branch. */
  function Decode(b: Byte): Option<OpCode>
  {
    if (b as nat) < |OpCodes| then Some(OpCodes[b as nat]) else None
  }

  /** The byte of an opcode. */
  function Encode(op: OpCode): (b: Byte)
    ensures (b as nat) < |OpCodes| && OpCodes[b as nat] == op
  {
    match op
    case OpReturn => 0 case OpConstant => 1 case OpNil => 2 case OpTrue => 3 case OpFalse => 4
    case OpArithmeticNegation => 5 case OpBooleanNegation => 6
    case OpAdd => 7 case OpSub => 8 case OpMul => 9 case OpDiv => 10 case OpEqual => 11
    case OpGreater => 12 case OpLess => 13
    case OpPrint => 14 case OpPop => 15
    case OpDefineGlobal => 16 case OpGetGlobal => 17 case OpSetGlobal => 18
    case OpGetLocal => 19 case OpSetLocal => 20 case OpGetUpvalue => 21 case OpSetUpvalue => 22
    case OpJump => 23 case OpJumpIfFalse => 24 case OpLoop => 25
    case OpCall => 26 case OpClosure => 27 case OpCloseUpvalue => 28
  }

  /** Every opcode survives encoding and decoding; exactly the first 29 byte values decode. */
  lemma DecodeEncode(op: OpCode, b: Byte)
    ensures Decode(Encode(op)) == Some(op)
    ensures Decode(b).Some? <==> b < 29
  {
  }

  /** `CLOX_VM_ASSURE_STACK_CONTAINS_AT_LEAST` failing: a compile-error result, nothing reset. */
  function TooFewOperands(m: Machine): Transition
  {
    Transition(m, Halt(CompileError))
  }

  /** `OP_RETURN`: pops the result, closes the frame's upvalues and pops the frame. */
  function OpReturnStep(m: Machine): (r: Transition)
    requires Running(m)
    ensures Wf(r.m)
  {
    if m.top < 1 then TooFewOperands(m)
    else
      var result := Peek(m, 0);
      var m1 := Pop(m);
      var base := Active(m1).base;
      var m2 := m1.(heap := CloseUpvalues(m1.heap, m1.stack, base), frameCount := m1.frameCount - 1);
      if m2.frameCount == 0 then
        if m2.top < 1 then Transition(m, Undefined)
        else Transition(Pop(m2), Halt(InterpretResult(InterpretOk, result)))
      else if base >= |m2.stack| then Transition(m, Undefined)
      else Transition(Push(m2.(top := base), result), Continue)
  }

  /** The machine `OP_RETURN` works on once the result is popped, the upvalues closed and the frame dropped. */
  function Unwound(m: Machine): (r: Machine)
    requires Running(m) && m.top >= 1
    ensures Wf(r)
  {
    var m1 := Pop(m);
    m1.(heap := CloseUpvalues(m1.heap, m1.stack, Active(m1).base), frameCount := m1.frameCount - 1)
  }

  /** `OP_RETURN` with an operand: back to the caller, or out of the loop when the last frame returns. */
  lemma OpReturnStepCases(m: Machine)
    requires Running(m) && m.top >= 1
    ensures var m2 := Unwound(m); var base := Active(m).base;
            OpReturnStep(m) ==
              if m2.frameCount == 0 then
                if m2.top < 1 then Transition(m, Undefined)
                else Transition(Pop(m2), Halt(InterpretResult(InterpretOk, Peek(m, 0))))
              else if base >= |m2.stack| then Transition(m, Undefined)
              else Transition(Push(m2.(top := base), Peek(m, 0)), Continue)
  {
  }

  /** `OP_CONSTANT`: pushes the constant named by the operand byte. */
  function OpConstantStep(m: Machine, chunk: Chunk): (r: Transition)
    requires Running(m)
    ensures Wf(r.m)
    ensures r.outcome == Continue ==>
              && Ip(m) < |chunk.code| && (chunk.code[Ip(m)] as nat) < |chunk.constants|
              && r.m.top == m.top + 1 && Peek(r.m, 0) == chunk.constants[chunk.code[Ip(m)]]
  {
    var ip := Ip(m);
    if ip >= |chunk.code| || (chunk.code[ip] as nat) >= |chunk.constants| || m.top >= |m.stack| then
      Transition(m, Undefined)
    else
      Transition(Push(WithIp(m, ip + 1), chunk.constants[chunk.code[ip]]), Continue)
  }

  /** `OP_NIL`, `OP_TRUE`, `OP_FALSE`: push a literal. */
  function PushLiteral(m: Machine, v: Value): (r: Transition)
    requires Running(m)
    ensures Wf(r.m)
    ensures r.outcome != Undefined ==> r.outcome == Continue && r.m.top == m.top + 1 && Peek(r.m, 0) == v
  {
    if m.top >= |m.stack| then Transition(m, Undefined) else Transition(Push(m, v), Continue)
  }

  /** `OP_ARITHMETIC_NEGATION`: needs one operand, which must be a number. */
  function OpNegateStep(m: Machine, fp: FloatOps): (r: Transition)
    requires Running(m)
    ensures Wf(r.m)
    ensures m.top < 1 ==> r == TooFewOperands(m)
    ensures m.top >= 1 && !IsNumber(Peek(m, 0)) ==> r == Transition(m, Halt(RuntimeError))
    ensures r.outcome == Continue ==> r.m.top == m.top && Peek(r.m, 0) == Number(fp.negate(Peek(m, 0).number))
  {
    if m.top < 1 then TooFewOperands(m)
    else if !IsNumber(Peek(m, 0)) then Transition(m, Halt(RuntimeError))
    else Transition(Push(Pop(m), Number(fp.negate(Peek(m, 0).number))), Continue)
  }

  /**
   * `OP_BOOLEAN_NEGATION`: nil becomes true and a bool its negation; any other operand is
   * popped and returned with a runtime-error status.
   */
  function OpNotStep(m: Machine): (r: Transition)
    requires Running(m)
    ensures Wf(r.m)
  {
    if m.top < 1 then TooFewOperands(m)
    else
      match Peek(m, 0)
      case Nil => Transition(Push(Pop(m), Bool(true)), Continue)
      case Bool(b) => Transition(Push(Pop(m), Bool(!b)), Continue)
      case _ => Transition(Pop(m), Halt(InterpretResult(InterpretRuntimeError, Peek(m, 0))))
  }

  /** The bytes of a concatenation: the left string's content followed by the right's. */
  function Concatenation(heap: HeapState, lhs: Handle, rhs: Handle): (bytes: seq<Byte>)
    requires lhs < |heap.store| && heap.store[lhs].StringObj?
    requires rhs < |heap.store| && heap.store[rhs].StringObj?
    ensures |bytes| == |Content(heap.store[lhs])| + |Content(heap.store[rhs])|
    ensures bytes[..|Content(heap.store[lhs])|] == Content(heap.store[lhs])
    ensures bytes[|Content(heap.store[lhs])|..] == Content(heap.store[rhs])
  {
    Content(heap.store[lhs]) + Content(heap.store[rhs])
  }

  /**
   * `OP_ADD`: pops both operands first; numbers add, two strings concatenate into an interned
   * string, and every other pair is a runtime error.
   */
  function OpAddStep(m: Machine, fp: FloatOps): (r: Transition)
    requires Running(m)
    ensures Wf(r.m)
  {
    if m.top < 2 then TooFewOperands(m)
    else
      var rhs := Peek(m, 0);
      var lhs := Peek(m, 1);
      var m1 := Pop(Pop(m));
      if TypeOf(lhs) != TypeOf(rhs) then Transition(m1, Halt(RuntimeError))
      else if IsNumber(lhs) && IsNumber(rhs) then
        Transition(Push(m1, Number(fp.add(lhs.number, rhs.number))), Continue)
      else if lhs.ObjectRef? then
        if lhs.handle >= |m1.heap.store| then Transition(m, Undefined)
        else if !m1.heap.store[lhs.handle].StringObj? then Transition(m1, Halt(RuntimeError))
        else if rhs.handle >= |m1.heap.store| then Transition(m, Undefined)
        else if !m1.heap.store[rhs.handle].StringObj? then Transition(m1, Halt(RuntimeError))
        else
          var a := Interned(m1.heap, Concatenation(m1.heap, lhs.handle, rhs.handle));
          Transition(Push(m1.(heap := a.heap), ObjectRef(a.handle)), Continue)
      else Transition(m1, Halt(RuntimeError))
  }

  /**
   * `OP_SUB`, `OP_MUL`, `OP_DIV`, `OP_GREATER`, `OP_LESS`: two operands, both numbers, replaced
   * by `result(first popped, second popped)`.
   */
  function BinaryNumberStep(m: Machine, result: (Num, Num) -> Value): (r: Transition)
    requires Running(m)
    ensures Wf(r.m)
    ensures m.top < 2 ==> r == TooFewOperands(m)
    ensures m.top >= 2 && (!IsNumber(Peek(m, 0)) || !IsNumber(Peek(m, 1))) ==> r == Transition(m, Halt(RuntimeError))
    ensures r.outcome == Continue ==>
              && r.m.top == m.top - 1
              && Peek(r.m, 0) == result(Peek(m, 0).number, Peek(m, 1).number)
              && forall d :: 1 <= d < r.m.top ==> Peek(r.m, d) == Peek(m, d + 1)
  {
    if m.top < 2 then TooFewOperands(m)
    else if !IsNumber(Peek(m, 0)) then Transition(m, Halt(RuntimeError))
    else if !IsNumber(Peek(m, 1)) then Transition(m, Halt(RuntimeError))
    else Transition(Push(Pop(Pop(m)), result(Peek(m, 0).number, Peek(m, 1).number)), Continue)
  }

  /**
   * The result of a numeric opcode from (first popped, second popped). The first popped is the
   * right operand, except for `OP_MUL`, which pops its left operand first.
   */
  function NumberResult(op: OpCode, fp: FloatOps): (Num, Num) -> Value
  {
    match op
    case OpMul => (lhs, rhs) => Number(fp.mul(lhs, rhs))
    case OpDiv => (rhs, lhs) => Number(fp.div(lhs, rhs))
    case OpGreater => (rhs, lhs) => Bool(fp.greater(lhs, rhs))
    case OpLess => (rhs, lhs) => Bool(fp.less(lhs, rhs))
    case _ => (rhs, lhs) => Number(fp.sub(lhs, rhs))
  }

  /**
   * `OP_EQUAL`: different tags are unequal, nil equals nil, bools and numbers compare by value,
   * strings by content; comparing another object kind is `CLOX_UNREACHABLE`.
   */
  function OpEqualStep(m: Machine, fp: FloatOps): (r: Transition)
    requires Running(m)
    ensures Wf(r.m)
  {
    if m.top < 2 then TooFewOperands(m)
    else
      var lhs := Peek(m, 0);
      var rhs := Peek(m, 1);
      var m1 := Pop(Pop(m));
      if TypeOf(lhs) != TypeOf(rhs) then Transition(Push(m1, Bool(false)), Continue)
      else
        match lhs
        case Nil => Transition(Push(m1, Bool(true)), Continue)
        case Bool(b) => Transition(Push(m1, Bool(b == rhs.boolean)), Continue)
        case Number(n) => Transition(Push(m1, Bool(fp.equal(n, rhs.number))), Continue)
        case ObjectRef(h) =>
          if h >= |m1.heap.store| || !m1.heap.store[h].StringObj? then Transition(m, Undefined)
          else if rhs.handle >= |m1.heap.store| || !m1.heap.store[rhs.handle].StringObj? then Transition(m, Undefined)
          else Transition(Push(m1, Bool(Content(m1.heap.store[h]) == Content(m1.heap.store[rhs.handle]))), Continue)
  }

  /** `OP_PRINT` (its output aside) and `OP_POP`: one operand, discarded. */
  function DiscardStep(m: Machine): (r: Transition)
    requires Running(m)
    ensures Wf(r.m)
    ensures m.top < 1 ==> r == TooFewOperands(m)
    ensures m.top >= 1 ==> r.outcome == Continue && r.m == Pop(m)
  {
    if m.top < 1 then TooFewOperands(m) else Transition(Pop(m), Continue)
  }

  /** `READ_STRING`: the string constant named by the operand byte, with the instruction index moved past it. */
  function ReadString(m: Machine, chunk: Chunk): (r: Option<(Machine, Handle)>)
    requires Running(m)
    ensures r.Some? ==> && Wf(r.value.0) && r.value.0 == WithIp(m, Ip(m) + 1)
                        && r.value.1 < |m.heap.store| && m.heap.store[r.value.1].StringObj?
  {
    var ip := Ip(m);
    if ip >= |chunk.code| || (chunk.code[ip] as nat) >= |chunk.constants| then None
    else
      var c := chunk.constants[chunk.code[ip]];
      if c.ObjectRef? && c.handle < |m.heap.store| && m.heap.store[c.handle].StringObj?
      then Some((WithIp(m, ip + 1), c.handle))
      else None
  }

  /** `OP_DEFINE_GLOBAL`: pops the value and binds the name to it, whether bound before or not. */
  function OpDefineGlobalStep(m: Machine, chunk: Chunk): (r: Transition)
    requires Running(m)
    ensures Wf(r.m)
    ensures r.outcome != Undefined ==>
              && ReadString(m, chunk).Some? && m.top >= 1 && r.outcome == Continue
              && r.m.top == m.top - 1
              && r.m.globals == m.globals[ReadString(m, chunk).value.1 := Peek(m, 0)]
  {
    match ReadString(m, chunk)
    case None => Transition(m, Undefined)
    case Some((m1, name)) =>
      if m1.top < 1 then Transition(m, Undefined)
      else Transition(Pop(m1).(globals := m1.globals[name := Peek(m1, 0)]), Continue)
  }

  /** `OP_GET_GLOBAL`: pushes the bound value; an unbound name is a runtime error. */
  function OpGetGlobalStep(m: Machine, chunk: Chunk): (r: Transition)
    requires Running(m)
    ensures Wf(r.m)
  {
    match ReadString(m, chunk)
    case None => Transition(m, Undefined)
    case Some((m1, name)) =>
      if name !in m1.globals then RuntimeErrorHalt(m1)
      else if m1.top >= |m1.stack| then Transition(m, Undefined)
      else Transition(Push(m1, m1.globals[name]), Continue)
  }

  /**
   * `OP_SET_GLOBAL`: stores the top value without popping it. The table's set reports a new
   * key when the name was unbound; the entry just made is then removed again and the
   * instruction is a runtime error.
   */
  function OpSetGlobalStep(m: Machine, chunk: Chunk): (r: Transition)
    requires Running(m)
    ensures Wf(r.m)
  {
    match ReadString(m, chunk)
    case None => Transition(m, Undefined)
    case Some((m1, name)) =>
      if m1.top < 1 then Transition(m, Undefined)
      else
        var isNewKey := name !in m1.globals;
        var globals := m1.globals[name := Peek(m1, 0)];
        if isNewKey then RuntimeErrorHalt(m1.(globals := globals - {name}))
        else Transition(m1.(globals := globals), Continue)
  }

  /** `OP_GET_LOCAL`: pushes the frame's slot named by the operand byte. */
  function OpGetLocalStep(m: Machine, chunk: Chunk): (r: Transition)
    requires Running(m)
    ensures Wf(r.m)
    ensures r.outcome != Undefined ==>
              && r.outcome == Continue && Ip(m) < |chunk.code|
              && Active(m).base + chunk.code[Ip(m)] as nat < |m.stack|
              && r.m.top == m.top + 1 && Peek(r.m, 0) == m.stack[Active(m).base + chunk.code[Ip(m)] as nat]
  {
    var ip := Ip(m);
    if ip >= |chunk.code| then Transition(m, Undefined)
    else
      var slot := Active(m).base + chunk.code[ip] as nat;
      if slot >= |m.stack| || m.top >= |m.stack| then Transition(m, Undefined)
      else Transition(Push(WithIp(m, ip + 1), m.stack[slot]), Continue)
  }

  /** `OP_SET_LOCAL`: copies the top value (without popping) into the frame's slot. */
  function OpSetLocalStep(m: Machine, chunk: Chunk): (r: Transition)
    requires Running(m)
    ensures Wf(r.m)
    ensures r.outcome != Undefined ==>
              && r.outcome == Continue && Ip(m) < |chunk.code| && m.top >= 1
              && Active(m).base + chunk.code[Ip(m)] as nat < |m.stack|
              && r.m.top == m.top
              && r.m.stack == m.stack[Active(m).base + chunk.code[Ip(m)] as nat := Peek(m, 0)]
  {
    var ip := Ip(m);
    if ip >= |chunk.code| || m.top < 1 then Transition(m, Undefined)
    else
      var slot := Active(m).base + chunk.code[ip] as nat;
      if slot >= |m.stack| then Transition(m, Undefined)
      else Transition(WithIp(m, ip + 1).(stack := m.stack[slot := Peek(m, 0)]), Continue)
  }

  /** The upvalue object in slot `index` of the running closure, if there is one. */
  function FrameUpvalue(m: Machine, index: nat): (r: Option<Handle>)
    requires Running(m)
    ensures r.Some? ==> r.value < |m.heap.store| && m.heap.store[r.value].UpvalueObj?
  {
    var c := Active(m).closure;
    if c < |m.heap.store| && m.heap.store[c].ClosureObj? && index < |m.heap.store[c].upvalues|
       && m.heap.store[c].upvalues[index].Some?
    then
      var u := m.heap.store[c].upvalues[index].value;
      if u < |m.heap.store| && m.heap.store[u].UpvalueObj? then Some(u) else None
    else None
  }

  /** `*upvalue->location`: the stack slot of an open upvalue, the own copy of a closed one. */
  function UpvalueRead(m: Machine, u: Handle): Value
    requires Wf(m) && u < |m.heap.store| && m.heap.store[u].UpvalueObj?
  {
    match m.heap.store[u].state
    case Open(slot) => assert IsOpenUpvalue(m.heap, u); m.stack[slot]
    case Closed(v) => v
  }

  /** `OP_GET_UPVALUE`: pushes the value the running closure's upvalue currently refers to. */
  function OpGetUpvalueStep(m: Machine, chunk: Chunk): (r: Transition)
    requires Running(m)
    ensures Wf(r.m)
    ensures r.outcome != Undefined ==>
              && r.outcome == Continue && Ip(m) < |chunk.code|
              && FrameUpvalue(m, chunk.code[Ip(m)] as nat).Some?
              && r.m.top == m.top + 1
              && Peek(r.m, 0) == UpvalueRead(m, FrameUpvalue(m, chunk.code[Ip(m)] as nat).value)
  {
    var ip := Ip(m);
    if ip >= |chunk.code| then Transition(m, Undefined)
    else
      match FrameUpvalue(m, chunk.code[ip] as nat)
      case None => Transition(m, Undefined)
      case Some(u) =>
        if m.top >= |m.stack| then Transition(m, Undefined)
        else Transition(Push(WithIp(m, ip + 1), UpvalueRead(m, u)), Continue)
  }

  /** `OP_SET_UPVALUE`: writes the top value (without popping) through the upvalue's location. */
  function OpSetUpvalueStep(m: Machine, chunk: Chunk): (r: Transition)
    requires Running(m)
    ensures Wf(r.m)
  {
    var ip := Ip(m);
    if ip >= |chunk.code| || m.top < 1 then Transition(m, Undefined)
    else
      match FrameUpvalue(m, chunk.code[ip] as nat)
      case None => Transition(m, Undefined)
      case Some(u) =>
        var m1 := WithIp(m, ip + 1);
        match m.heap.store[u].state
        case Open(slot) =>
          assert IsOpenUpvalue(m.heap, u);
          Transition(m1.(stack := m.stack[slot := Peek(m, 0)]), Continue)
        case Closed(_) =>
          Transition(m1.(heap := WithUpvalueClosed(m.heap, u, Peek(m, 0))), Continue)
  }

  /**
   * `OP_SET_UPVALUE` writes through: the top value stays on the stack, and afterwards the
   * upvalue reads back that value, whether it is still open or already closed.
   */
  lemma SetUpvalueWritesThrough(m: Machine, chunk: Chunk)
    requires Running(m)
    ensures var r := OpSetUpvalueStep(m, chunk);
            r.outcome != Undefined ==>
              && r.outcome == Continue && Ip(m) < |chunk.code| && m.top >= 1
              && FrameUpvalue(m, chunk.code[Ip(m)] as nat).Some?
              && r.m.top == m.top && Ip(r.m) == Ip(m) + 1 && Peek(r.m, 0) == Peek(m, 0)
              && var u := FrameUpvalue(m, chunk.code[Ip(m)] as nat).value;
                 && u < |r.m.heap.store| && r.m.heap.store[u].UpvalueObj?
                 && UpvalueRead(r.m, u) == Peek(m, 0)
  {
    var ip := Ip(m);
    if ip < |chunk.code| && m.top >= 1 && FrameUpvalue(m, chunk.code[ip] as nat).Some? {
      var u := FrameUpvalue(m, chunk.code[ip] as nat).value;
      var r := OpSetUpvalueStep(m, chunk);
      match m.heap.store[u].state
      case Open(slot) =>
        assert IsOpenUpvalue(m.heap, u);
        assert r.m.heap == m.heap && r.m.stack == m.stack[slot := Peek(m, 0)];
      case Closed(_) =>
        assert r.m.heap == WithUpvalueClosed(m.heap, u, Peek(m, 0)) && r.m.stack == m.stack;
    }
  }

  /** `OP_JUMP`: skips forward by the big-endian 16-bit operand. */
  function OpJumpStep(m: Machine, chunk: Chunk): (r: Transition)
    requires Running(m)
    ensures Wf(r.m)
    ensures r.outcome != Undefined ==>
              && r.outcome == Continue && Ip(m) + 2 <= |chunk.code|
              && r.m == WithIp(m, Ip(m) + 2 + ReadShort(chunk.code[Ip(m)], chunk.code[Ip(m) + 1]))
  {
    var ip := Ip(m);
    if ip + 2 > |chunk.code| then Transition(m, Undefined)
    else Transition(WithIp(m, ip + 2 + ReadShort(chunk.code[ip], chunk.code[ip + 1])), Continue)
  }

  /** `OP_JUMP_IF_FALSE`: skips forward when the top value is falsy; the condition stays on the stack. */
  function OpJumpIfFalseStep(m: Machine, chunk: Chunk): (r: Transition)
    requires Running(m)
    ensures Wf(r.m)
    ensures r.outcome != Undefined ==>
              && r.outcome == Continue && Ip(m) + 2 <= |chunk.code| && m.top >= 1
              && r.m.top == m.top && r.m.stack == m.stack
              && r.m.frameCount == m.frameCount
              && Ip(r.m) == Ip(m) + 2 + (if IsFalsy(Peek(m, 0)) then ReadShort(chunk.code[Ip(m)], chunk.code[Ip(m) + 1]) else 0)
  {
    var ip := Ip(m);
    if ip + 2 > |chunk.code| || m.top < 1 then Transition(m, Undefined)
    else
      var offset := ReadShort(chunk.code[ip], chunk.code[ip + 1]);
      Transition(WithIp(m, if IsFalsy(Peek(m, 0)) then ip + 2 + offset else ip + 2), Continue)
  }

  /** `OP_LOOP`: jumps backward by the big-endian 16-bit operand. */
  function OpLoopStep(m: Machine, chunk: Chunk): (r: Transition)
    requires Running(m)
    ensures Wf(r.m)
    ensures r.outcome != Undefined ==>
              && r.outcome == Continue && Ip(m) + 2 <= |chunk.code|
              && r.m.frameCount == m.frameCount
              && Ip(r.m) + ReadShort(chunk.code[Ip(m)], chunk.code[Ip(m) + 1]) == Ip(m) + 2
  {
    var ip := Ip(m);
    if ip + 2 > |chunk.code| then Transition(m, Undefined)
    else
      var offset := ReadShort(chunk.code[ip], chunk.code[ip + 1]);
      if ip + 2 < offset then Transition(m, Undefined)
      else Transition(WithIp(m, ip + 2 - offset), Continue)
  }

  /**
   * `OP_CALL`: calls the value `argCount` slots below the top; a failed call goes through the
   * runtime-error path a second time.
   */
  function OpCallStep(m: Machine, chunk: Chunk, host: Host): (r: Transition)
    requires Running(m)
    ensures Wf(r.m)
  {
    var ip := Ip(m);
    if ip >= |chunk.code| then Transition(m, Undefined)
    else
      var argCount := chunk.code[ip] as nat;
      var m1 := WithIp(m, ip + 1);
      if argCount >= m1.top then Transition(m, Undefined)
      else
        match CallValue(m1, Peek(m1, argCount), argCount, host)
        case None => Transition(m, Undefined)
        case Some((m2, true)) => Transition(m2, Continue)
        case Some((m2, false)) => RuntimeErrorHalt(m2)
  }

  /**
   * What slot `j` of closure `c` holds once its operand pair (at `start + 2 * j`) has been
   * run: for a local pair an open upvalue on slot `base + index`, otherwise the enclosing
   * closure's upvalue `index` (which may be empty).
   */
  ghost predicate SlotFilled(heap: HeapState, chunk: Chunk, c: Handle, j: nat, start: nat,
                             base: nat, enclosing: seq<Option<Handle>>)
  {
    && start + 2 * j + 1 < |chunk.code|
    && c < |heap.store| && heap.store[c].ClosureObj? && j < |heap.store[c].upvalues|
    && var index := chunk.code[start + 2 * j + 1] as nat;
       var slot := heap.store[c].upvalues[j];
       if chunk.code[start + 2 * j] != 0 then
         slot.Some? && IsOpenUpvalue(heap, slot.value) && Loc(heap, slot.value) == base + index
       else
         index < |enclosing| && slot == enclosing[index]
  }

  /** Every slot of closure `c` is filled as its operand pair says. */
  ghost predicate AllSlotsFilled(heap: HeapState, chunk: Chunk, c: Handle, start: nat,
                                 base: nat, enclosing: seq<Option<Handle>>)
    requires c < |heap.store| && heap.store[c].ClosureObj?
  {
    forall j :: 0 <= j < |heap.store[c].upvalues| ==> SlotFilled(heap, chunk, c, j, start, base, enclosing)
  }

  /** The upvalue slots of the running frame's closure (empty when the frame's closure is not one). */
  function EnclosingUpvalues(m: Machine): seq<Option<Handle>>
    requires 1 <= m.frameCount <= |m.frames|
  {
    var e := Active(m).closure;
    if e < |m.heap.store| && m.heap.store[e].ClosureObj? then m.heap.store[e].upvalues else []
  }

  /**
   * The state after the operand pairs of closure `c` from slot `i` on (read from `start`):
   * those slots are filled as their pairs say, the earlier slots and every other
   * pre-existing object are untouched, the stack and globals are untouched, and the
   * instruction index has moved past all the pairs.
   */
  ghost predicate Filled(m: Machine, chunk: Chunk, c: Handle, i: nat, start: nat, r: Machine)
    requires Running(m) && c < |m.heap.store| && m.heap.store[c].ClosureObj?
    requires i <= |m.heap.store[c].upvalues|
  {
    && Running(r)
    && r.top == m.top && r.stack == m.stack && r.globals == m.globals
    && r.frameCount == m.frameCount
    && Active(r).base == Active(m).base && Active(r).closure == Active(m).closure
    && Ip(r) == start + 2 * |m.heap.store[c].upvalues|
    && |r.heap.store| >= |m.heap.store|
    && r.heap.store[c].ClosureObj? && r.heap.store[c].fn == m.heap.store[c].fn
    && |r.heap.store[c].upvalues| == |m.heap.store[c].upvalues|
    && (forall k :: 0 <= k < |m.heap.store| && k != c ==> r.heap.store[k] == m.heap.store[k])
    && (forall j :: 0 <= j < i ==> r.heap.store[c].upvalues[j] == m.heap.store[c].upvalues[j])
    && (forall j :: i <= j < |m.heap.store[c].upvalues| ==>
          SlotFilled(r.heap, chunk, c, j, start, Active(m).base, EnclosingUpvalues(m)))
  }

  /**
   * One operand pair of `OP_CLOSURE`, for slot `i` of closure `c`: a local pair captures the
   * running frame's slot `base + index`, any other pair copies the running closure's
   * upvalue `index`. `None` when the pair or the slot it names lies outside its array.
   */
  function FillOne(m: Machine, chunk: Chunk, c: Handle, i: nat): (r: Option<Machine>)
    requires Running(m) && c < |m.heap.store| && m.heap.store[c].ClosureObj?
    requires i < |m.heap.store[c].upvalues| && 2 * i <= Ip(m)
    requires Active(m).closure < |m.heap.store| && m.heap.store[Active(m).closure].ClosureObj?
    requires Active(m).closure != c
    ensures r.Some? ==> Running(r.value)
  {
    var ip := Ip(m);
    if ip + 2 > |chunk.code| then None
    else
      var isLocal := chunk.code[ip];
      var index := chunk.code[ip + 1] as nat;
      if isLocal != 0 then
        var slot := Active(m).base + index;
        if slot >= |m.stack| then None
        else Some(WithIp(m, ip + 2).(heap := CaptureInto(m.heap, c, i, slot)))
      else
        var enclosing := Active(m).closure;
        if index >= |m.heap.store[enclosing].upvalues| then None
        else Some(WithIp(m, ip + 2).(heap := WithClosureUpvalue(m.heap, c, i, m.heap.store[enclosing].upvalues[index])))
  }

  /**
   * What one operand pair does: it advances the frame by two bytes, fills slot `i` of `c` as
   * the pair says, and leaves the stack, the globals, the other slots of `c` and every other
   * object as they were.
   */
  lemma FillOneFills(m: Machine, chunk: Chunk, c: Handle, i: nat)
    requires Running(m) && c < |m.heap.store| && m.heap.store[c].ClosureObj?
    requires i < |m.heap.store[c].upvalues| && 2 * i <= Ip(m)
    requires Active(m).closure < |m.heap.store| && m.heap.store[Active(m).closure].ClosureObj?
    requires Active(m).closure != c
    ensures var r := FillOne(m, chunk, c, i);
            r.Some? ==>
              && r.value.frameCount == m.frameCount && Active(r.value) == Active(m).(ip := Ip(m) + 2)
              && |r.value.heap.store| >= |m.heap.store| && r.value.heap.store[c].ClosureObj?
              && |r.value.heap.store[c].upvalues| == |m.heap.store[c].upvalues|
              && Ip(m) + 2 <= |chunk.code|
              && r.value.top == m.top && r.value.stack == m.stack && r.value.globals == m.globals
              && r.value.heap.store[c].fn == m.heap.store[c].fn
              && r.value.heap.store[c].upvalues == m.heap.store[c].upvalues[i := r.value.heap.store[c].upvalues[i]]
              && (forall k :: 0 <= k < |m.heap.store| && k != c ==> r.value.heap.store[k] == m.heap.store[k])
              && SlotFilled(r.value.heap, chunk, c, i, Ip(m) - 2 * i, Active(m).base, EnclosingUpvalues(m))
  {
  }

  /** The local-capture case of `FillOne`, written out on the capture it performs. */
  lemma FillOneLocal(m: Machine, chunk: Chunk, c: Handle, i: nat, slot: nat)
    requires Running(m) && c < |m.heap.store| && m.heap.store[c].ClosureObj?
    requires i < |m.heap.store[c].upvalues| && 2 * i <= Ip(m)
    requires Active(m).closure < |m.heap.store| && m.heap.store[Active(m).closure].ClosureObj?
    requires Active(m).closure != c
    requires Ip(m) + 2 <= |chunk.code| && chunk.code[Ip(m)] != 0
    requires slot == Active(m).base + chunk.code[Ip(m) + 1] as nat && slot < |m.stack|
    ensures FillOne(m, chunk, c, i) == Some(WithIp(m, Ip(m) + 2).(heap := CaptureInto(m.heap, c, i, slot)))
  {
    var r := FillOne(m, chunk, c, i);
    assert r.Some?;
    assert r.value.frames == WithIp(m, Ip(m) + 2).frames;
    assert r.value.stack == m.stack && r.value.top == m.top;
    assert r.value.frameCount == m.frameCount && r.value.globals == m.globals;
    assert r.value.heap == CaptureInto(m.heap, c, i, slot);
  }

  /** The enclosing-copy case of `FillOne`, written out. */
  lemma FillOneEnclosing(m: Machine, chunk: Chunk, c: Handle, i: nat, index: nat)
    requires Running(m) && c < |m.heap.store| && m.heap.store[c].ClosureObj?
    requires i < |m.heap.store[c].upvalues| && 2 * i <= Ip(m)
    requires Active(m).closure < |m.heap.store| && m.heap.store[Active(m).closure].ClosureObj?
    requires Active(m).closure != c
    requires Ip(m) + 2 <= |chunk.code| && chunk.code[Ip(m)] == 0
    requires index == chunk.code[Ip(m) + 1] as nat && index < |m.heap.store[Active(m).closure].upvalues|
    ensures FillOne(m, chunk, c, i) ==
              Some(WithIp(m, Ip(m) + 2).(heap := WithClosureUpvalue(m.heap, c, i, m.heap.store[Active(m).closure].upvalues[index])))
  {
  }

  /** What the operand loop of `OP_CLOSURE` needs: a running frame whose closure is not `c`, and `c` a closure. */
  ghost predicate FillReady(m: Machine, c: Handle)
  {
    && Running(m) && c < |m.heap.store| && m.heap.store[c].ClosureObj?
    && Active(m).closure < |m.heap.store| && m.heap.store[Active(m).closure].ClosureObj?
    && Active(m).closure != c
  }

  /** The operand loop of `OP_CLOSURE`, from slot `i` to the closure's last slot. */
  function FillUpvalues(m: Machine, chunk: Chunk, c: Handle, i: nat): (r: Transition)
    requires Running(m) && c < |m.heap.store| && m.heap.store[c].ClosureObj?
    requires i <= |m.heap.store[c].upvalues| && 2 * i <= Ip(m)
    requires Active(m).closure < |m.heap.store| && m.heap.store[Active(m).closure].ClosureObj?
    requires Active(m).closure != c
    ensures Wf(r.m)
    ensures r.outcome == Continue || r.outcome == Undefined
    decreases |m.heap.store[c].upvalues| - i
  {
    if i == |m.heap.store[c].upvalues| then Transition(m, Continue)
    else
      match FillOne(m, chunk, c, i)
      case None => Transition(m, Undefined)
      case Some(m2) =>
        FillOneFills(m, chunk, c, i);
        FillUpvalues(m2, chunk, c, i + 1)
  }

  /**
   * A completed operand loop from slot `i` has filled slots `i` onwards as their pairs say and
   * left everything else alone.
   */
  lemma {:induction false} FillUpvaluesFills(m: Machine, chunk: Chunk, c: Handle, i: nat, start: nat, r: Transition)
    requires FillReady(m, c) && i <= |m.heap.store[c].upvalues| && start + 2 * i == Ip(m)
    requires r == FillUpvalues(m, chunk, c, i)
    ensures r.outcome == Continue ==> Filled(m, chunk, c, i, start, r.m)
    decreases |m.heap.store[c].upvalues| - i
  {
    if i == |m.heap.store[c].upvalues| {
      FillDone(m, chunk, c, i, start);
    } else {
      match FillOne(m, chunk, c, i)
      case None =>
      case Some(m2) =>
        FillOneReady(m, chunk, c, i);
        FillUpvaluesFills(m2, chunk, c, i + 1, start, r);
        FillStep(m, chunk, c, i, start, m2, r);
    }
  }

  /** After a pair fills its slot, the next slot of the same closure is ready to be filled. */
  lemma FillOneReady(m: Machine, chunk: Chunk, c: Handle, i: nat)
    requires FillReady(m, c) && i < |m.heap.store[c].upvalues| && 2 * i <= Ip(m)
    ensures var r := FillOne(m, chunk, c, i);
            r.Some? ==> && FillReady(r.value, c) && Ip(r.value) == Ip(m) + 2
                        && |r.value.heap.store[c].upvalues| == |m.heap.store[c].upvalues|
  {
    FillOneFills(m, chunk, c, i);
  }

  /** One iteration of the operand loop: a pair that fills its slot hands over to the next slot. */
  lemma FillUpvaluesUnfold(m: Machine, chunk: Chunk, c: Handle, i: nat)
    requires Running(m) && c < |m.heap.store| && m.heap.store[c].ClosureObj?
    requires i < |m.heap.store[c].upvalues| && 2 * i <= Ip(m)
    requires Active(m).closure < |m.heap.store| && m.heap.store[Active(m).closure].ClosureObj?
    requires Active(m).closure != c
    ensures FillOne(m, chunk, c, i).None? ==> FillUpvalues(m, chunk, c, i).outcome == Undefined
    ensures FillOne(m, chunk, c, i).Some? ==>
              FillUpvalues(m, chunk, c, i) == FillUpvalues(FillOne(m, chunk, c, i).value, chunk, c, i + 1)
  {
  }

  /** The operand loop ends once every slot has been filled. */
  lemma FillUpvaluesEnd(m: Machine, chunk: Chunk, c: Handle, i: nat)
    requires Running(m) && c < |m.heap.store| && m.heap.store[c].ClosureObj?
    requires i == |m.heap.store[c].upvalues| && 2 * i <= Ip(m)
    requires Active(m).closure < |m.heap.store| && m.heap.store[Active(m).closure].ClosureObj?
    requires Active(m).closure != c
    ensures FillUpvalues(m, chunk, c, i) == Transition(m, Continue)
  {
  }

  lemma FillDone(m: Machine, chunk: Chunk, c: Handle, i: nat, start: nat)
    requires Running(m) && c < |m.heap.store| && m.heap.store[c].ClosureObj?
    requires i == |m.heap.store[c].upvalues| && start + 2 * i == Ip(m)
    ensures Filled(m, chunk, c, i, start, m)
  {
  }

  /** One slot of `FillUpvalues`: slot `i` keeps what its pair put there while the later pairs run. */
  lemma FillStep(m: Machine, chunk: Chunk, c: Handle, i: nat, start: nat, m2: Machine, r: Transition)
    requires FillReady(m, c) && i < |m.heap.store[c].upvalues| && start + 2 * i == Ip(m)
    requires FillOne(m, chunk, c, i) == Some(m2)
    requires r.outcome == Continue ==> Filled(m2, chunk, c, i + 1, start, r.m)
    ensures r.outcome == Continue ==> Filled(m, chunk, c, i, start, r.m)
  {
    FillOneFills(m, chunk, c, i);
    if r.outcome == Continue {
      assert EnclosingUpvalues(m2) == EnclosingUpvalues(m);
      var u := m2.heap.store[c].upvalues[i];
      assert r.m.heap.store[c].upvalues[i] == u;
      if chunk.code[start + 2 * i] != 0 {
        assert r.m.heap.store[u.value] == m2.heap.store[u.value];
      }
      assert SlotFilled(r.m.heap, chunk, c, i, start, Active(m).base, EnclosingUpvalues(m));
    }
  }

  /**
   * `OP_CLOSURE`: creates a closure over the function constant, pushes it, then fills its
   * upvalues from the operand pairs that follow. Reading the constant goes through the
   * frame's closure, so that closure has to be a live closure over a function.
   */
  function OpClosureStep(m: Machine, chunk: Chunk): (r: Transition)
    requires Running(m)
    ensures Wf(r.m)
    ensures r.outcome == Continue || r.outcome == Undefined
  {
    var ip := Ip(m);
    if ip >= |chunk.code| || (chunk.code[ip] as nat) >= |chunk.constants| then Transition(m, Undefined)
    else if ClosureFunction(m.heap, Active(m).closure).None? then Transition(m, Undefined)
    else
      var f := chunk.constants[chunk.code[ip]];
      if !f.ObjectRef? || f.handle >= |m.heap.store| || !m.heap.store[f.handle].FunctionObj? then
        Transition(m, Undefined)
      else if m.top >= |m.stack| then Transition(m, Undefined)
      else
        var a := ClosureCreated(m.heap, f.handle);
        var m1 := Push(WithIp(m, ip + 1).(heap := a.heap), ObjectRef(a.handle));
        FillUpvalues(m1, chunk, a.handle, 0)
  }

  /**
   * A completed `OP_CLOSURE` has allocated a closure over the function constant, with one
   * slot per upvalue of that function, pushed it, and filled every slot as its operand pair
   * says: a captured slot of the running frame, or a copy of the running closure's upvalue.
   */
  lemma OpClosureStepFills(m: Machine, chunk: Chunk)
    requires Running(m)
    ensures var r := OpClosureStep(m, chunk);
            r.outcome == Continue ==>
              && Ip(m) < |chunk.code| && (chunk.code[Ip(m)] as nat) < |chunk.constants|
              && |m.heap.store| < |r.m.heap.store| && r.m.heap.store[|m.heap.store|].ClosureObj?
              && chunk.constants[chunk.code[Ip(m)]] == ObjectRef(r.m.heap.store[|m.heap.store|].fn)
              && r.m.top == m.top + 1 && Peek(r.m, 0) == ObjectRef(|m.heap.store|)
              && r.m.heap.store[|m.heap.store|].fn < |m.heap.store|
              && m.heap.store[r.m.heap.store[|m.heap.store|].fn].FunctionObj?
              && |r.m.heap.store[|m.heap.store|].upvalues| == m.heap.store[r.m.heap.store[|m.heap.store|].fn].upvalueCount
              && AllSlotsFilled(r.m.heap, chunk, |m.heap.store|, Ip(m) + 1, Active(m).base, EnclosingUpvalues(m))
  {
    var ip := Ip(m);
    if ip < |chunk.code| && (chunk.code[ip] as nat) < |chunk.constants|
       && ClosureFunction(m.heap, Active(m).closure).Some? {
      var f := chunk.constants[chunk.code[ip]];
      if f.ObjectRef? && f.handle < |m.heap.store| && m.heap.store[f.handle].FunctionObj? && m.top < |m.stack| {
        var a := ClosureCreated(m.heap, f.handle);
        var m1 := Push(WithIp(m, ip + 1).(heap := a.heap), ObjectRef(a.handle));
        OpClosureStepCreates(m, chunk, f.handle, m1, a.handle);
        FillUpvaluesFills(m1, chunk, a.handle, 0, Ip(m1), FillUpvalues(m1, chunk, a.handle, 0));
        assert a.handle == |m.heap.store|;
        assert EnclosingUpvalues(m1) == EnclosingUpvalues(m);
        assert Ip(m1) == ip + 1 && Active(m1).base == Active(m).base;
      }
    }
  }

  /** The successful path of `OP_CLOSURE` up to its operand loop, written out. */
  lemma OpClosureStepCreates(m: Machine, chunk: Chunk, f: Handle, m1: Machine, c: Handle)
    requires Running(m) && Ip(m) < |chunk.code| && (chunk.code[Ip(m)] as nat) < |chunk.constants|
    requires ClosureFunction(m.heap, Active(m).closure).Some?
    requires chunk.constants[chunk.code[Ip(m)]] == ObjectRef(f)
    requires f < |m.heap.store| && m.heap.store[f].FunctionObj? && m.top < |m.stack|
    requires c == ClosureCreated(m.heap, f).handle
    requires m1 == Push(WithIp(m, Ip(m) + 1).(heap := ClosureCreated(m.heap, f).heap), ObjectRef(c))
    ensures FillReady(m1, c) && OpClosureStep(m, chunk) == FillUpvalues(m1, chunk, c, 0)
  {
  }

  /** `OP_CLOSE_UPVALUE`: closes the upvalues at or above the top slot, then pops that slot. */
  function OpCloseUpvalueStep(m: Machine): (r: Transition)
    requires Running(m)
    ensures Wf(r.m)
    ensures r.outcome != Undefined ==>
              && r.outcome == Continue && m.top >= 1
              && r.m.heap == CloseUpvalues(m.heap, m.stack, m.top - 1)
              && r.m.top == m.top - 1 && r.m.stack == m.stack
  {
    if m.top < 1 then Transition(m, Undefined)
    else Transition(Pop(m.(heap := CloseUpvalues(m.heap, m.stack, m.top - 1))), Continue)
  }

  /** The switch's default branch: pops the top and returns it with a compile-error status. */
  function UnknownOpStep(m: Machine): (r: Transition)
    requires Running(m)
    ensures Wf(r.m)
    ensures r.outcome != Undefined ==>
              m.top >= 1 && r == Transition(Pop(m), Halt(InterpretResult(InterpretCompileError, Peek(m, 0))))
  {
    if m.top < 1 then Transition(m, Undefined)
    else Transition(Pop(m), Halt(InterpretResult(InterpretCompileError, Peek(m, 0))))
  }

  /** Runs one decoded instruction; `m` has its instruction index already past the opcode byte. */
  function Execute(m: Machine, chunk: Chunk, op: Option<OpCode>, fp: FloatOps, host: Host): (r: Transition)
    requires Running(m)
    ensures Wf(r.m)
  {
    match op
    case None => UnknownOpStep(m)
    case Some(code) => (
      match code
      case OpReturn => OpReturnStep(m)
      case OpConstant => OpConstantStep(m, chunk)
      case OpNil => PushLiteral(m, Nil)
      case OpTrue => PushLiteral(m, Bool(true))
      case OpFalse => PushLiteral(m, Bool(false))
      case OpArithmeticNegation => OpNegateStep(m, fp)
      case OpBooleanNegation => OpNotStep(m)
      case OpAdd => OpAddStep(m, fp)
      case OpSub => BinaryNumberStep(m, NumberResult(OpSub, fp))
      case OpMul => BinaryNumberStep(m, NumberResult(OpMul, fp))
      case OpDiv => BinaryNumberStep(m, NumberResult(OpDiv, fp))
      case OpEqual => OpEqualStep(m, fp)
      case OpGreater => BinaryNumberStep(m, NumberResult(OpGreater, fp))
      case OpLess => BinaryNumberStep(m, NumberResult(OpLess, fp))
      case OpPrint => DiscardStep(m)
      case OpPop => DiscardStep(m)
      case OpDefineGlobal => OpDefineGlobalStep(m, chunk)
      case OpGetGlobal => OpGetGlobalStep(m, chunk)
      case OpSetGlobal => OpSetGlobalStep(m, chunk)
      case OpGetLocal => OpGetLocalStep(m, chunk)
      case OpSetLocal => OpSetLocalStep(m, chunk)
      case OpGetUpvalue => OpGetUpvalueStep(m, chunk)
      case OpSetUpvalue => OpSetUpvalueStep(m, chunk)
      case OpJump => OpJumpStep(m, chunk)
      case OpJumpIfFalse => OpJumpIfFalseStep(m, chunk)
      case OpLoop => OpLoopStep(m, chunk)
      case OpCall => OpCallStep(m, chunk, host)
      case OpClosure => OpClosureStep(m, chunk)
      case OpCloseUpvalue => OpCloseUpvalueStep(m))
  }

  /** The chunk of the running closure's function, if the active frame's closure is one. */
  function ActiveChunk(m: Machine): Option<Chunk>
    requires 1 <= m.frameCount <= |m.frames|
  {
    match ClosureFunction(m.heap, Active(m).closure)
    case None => None
    case Some(f) => Some(f.chunk)
  }

  /**
   * One iteration of the dispatch loop of `Clox_VM_Interpret_Function`: read the opcode byte at
   * the active frame's instruction index, advance past it, and execute it. An undefined step
   * leaves the machine as it was.
   */
  function Step(m: Machine, fp: FloatOps, host: Host): (r: Transition)
    requires Wf(m)
    ensures Wf(r.m)
    ensures r.outcome == Undefined ==> r.m == m
  {
    if m.frameCount == 0 then Transition(m, Undefined)
    else
      match ActiveChunk(m)
      case None => Transition(m, Undefined)
      case Some(chunk) =>
        var ip := Ip(m);
        if ip >= |chunk.code| then Transition(m, Undefined)
        else
          var t := Execute(WithIp(m, ip + 1), chunk, Decode(chunk.code[ip]), fp, host);
          if t.outcome == Undefined then Transition(m, Undefined) else t
  }

  /** A step of a frame whose chunk has a byte left executes that byte's instruction. */
  lemma StepExecutes(m: Machine, fp: FloatOps, host: Host, chunk: Chunk, t: Transition)
    requires Running(m) && ActiveChunk(m) == Some(chunk) && Ip(m) < |chunk.code|
    requires t == Execute(WithIp(m, Ip(m) + 1), chunk, Decode(chunk.code[Ip(m)]), fp, host)
    ensures Step(m, fp, host) == if t.outcome == Undefined then Transition(m, Undefined) else t
  {
  }

  /** A frame that has run off the end of its chunk cannot step. */
  lemma StepOffEnd(m: Machine, fp: FloatOps, host: Host, chunk: Chunk)
    requires Running(m) && ActiveChunk(m) == Some(chunk) && Ip(m) >= |chunk.code|
    ensures Step(m, fp, host) == Transition(m, Undefined)
  {
  }

  /** `StepExecutes` on an executed instruction: the step reports and leaves what the instruction does. */
  lemma StepComposes(m: Machine, fp: FloatOps, host: Host, chunk: Chunk, m1: Machine, o: Outcome, m2: Machine)
    requires Running(m) && ActiveChunk(m) == Some(chunk) && Ip(m) < |chunk.code|
    requires m1 == WithIp(m, Ip(m) + 1)
    requires var t := Execute(m1, chunk, Decode(chunk.code[Ip(m)]), fp, host);
             o == t.outcome && (o != Undefined ==> m2 == t.m)
    ensures var s := Step(m, fp, host);
            o == s.outcome && (o != Undefined ==> m2 == s.m)
  {
    StepExecutes(m, fp, host, chunk, Execute(m1, chunk, Decode(chunk.code[Ip(m)]), fp, host));
  }

  /** How a bounded run of the dispatch loop ends. */
  datatype RunResult = Finished(result: InterpretResult) | Stuck | OutOfFuel

  /** `n` consecutive steps from `m` all continue, and the last of them leaves `last`. */
  ghost predicate ContinuesFor(m: Machine, fp: FloatOps, host: Host, n: nat, last: Machine)
    requires Wf(m)
    decreases n
  {
    if n == 0 then last == m
    else
      var t := Step(m, fp, host);
      t.outcome == Continue && ContinuesFor(t.m, fp, host, n - 1, last)
  }

  /**
   * The dispatch loop, run for at most `fuel` instructions: it ends when an instruction
   * returns a result, when an instruction's behaviour is undefined (the machine returned is
   * the one that cannot step), or when the fuel is spent.
   */
  function Run(m: Machine, fp: FloatOps, host: Host, fuel: nat): (r: (Machine, RunResult))
    requires Wf(m)
    ensures Wf(r.0)
    ensures r.1.Stuck? ==> Step(r.0, fp, host).outcome == Undefined
    ensures r.1.OutOfFuel? ==> ContinuesFor(m, fp, host, fuel, r.0)
    decreases fuel
  {
    if fuel == 0 then (m, OutOfFuel)
    else
      var t := Step(m, fp, host);
      match t.outcome
      case Continue => Run(t.m, fp, host, fuel - 1)
      case Halt(result) => (t.m, Finished(result))
      case Undefined => (m, Stuck)
  }

  /** One iteration of `Run`, by the outcome of its step. */
  lemma RunUnfold(m: Machine, fp: FloatOps, host: Host, fuel: nat)
    requires Wf(m)
    ensures fuel == 0 ==> Run(m, fp, host, fuel) == (m, OutOfFuel)
    ensures var t := Step(m, fp, host);
            && (fuel > 0 && t.outcome == Continue ==> Run(m, fp, host, fuel) == Run(t.m, fp, host, fuel - 1))
            && (fuel > 0 && t.outcome.Halt? ==> Run(m, fp, host, fuel) == (t.m, Finished(t.outcome.result)))
            && (fuel > 0 && t.outcome == Undefined ==> Run(m, fp, host, fuel).1 == Stuck)
  {
  }

  /**
   * `Clox_VM_Interpret_Source` after compilation: `compiled` is the compiler's top-level
   * function (`None` when compilation failed). The stack is reset, the function is wrapped
   * in a closure, pushed, called with no arguments (the call's result is ignored, as in the
   * source) and the dispatch loop runs.
   */
  function Interpret(m: Machine, compiled: Option<Handle>, fp: FloatOps, host: Host, fuel: nat): (r: (Machine, RunResult))
    requires Wf(m)
    ensures Wf(r.0)
    ensures compiled.None? ==> r == (ResetStack(m), Finished(CompileError))
  {
    var m0 := ResetStack(m);
    match compiled
    case None => (m0, Finished(CompileError))
    case Some(f) =>
      if f >= |m0.heap.store| || !m0.heap.store[f].FunctionObj? || |m0.stack| == 0 then (m0, Stuck)
      else
        var a := ClosureCreated(m0.heap, f);
        var m1 := Push(m0.(heap := a.heap), ObjectRef(a.handle));
        var m2 := Call(m1, a.handle, 0).0;
        Run(m2, fp, host, fuel)
  }

  /**
   * A compiled script of arity 0, on a machine with a stack slot and a frame, starts the
   * dispatch loop on a fresh closure over it that has only empty upvalue slots, is the only
   * value on the stack and is called in the only frame, at instruction 0 with base 0; the
   * globals and every existing object are kept. Any other compiled function cannot run.
   */
  lemma InterpretStartsScript(m: Machine, f: Handle, fp: FloatOps, host: Host, fuel: nat) returns (start: Machine)
    requires Wf(m)
    ensures var r := Interpret(m, Some(f), fp, host, fuel);
            var c := |m.heap.store|;
            if f < |m.heap.store| && m.heap.store[f].FunctionObj? && m.heap.store[f].arity == 0
               && |m.stack| >= 1 && |m.frames| >= 1
            then && Wf(start) && r == Run(start, fp, host, fuel)
                 && start.top == 1 && start.stack[0] == ObjectRef(c) && |start.stack| == |m.stack|
                 && start.frameCount == 1 && start.frames[0] == Frame(c, 0, 0) && |start.frames| == |m.frames|
                 && |start.heap.store| == c + 1
                 && start.heap.store[c] == ClosureObj(f, seq(m.heap.store[f].upvalueCount, _ => None))
                 && (forall k :: 0 <= k < c ==> start.heap.store[k] == m.heap.store[k])
                 && start.heap.objects == [c] + m.heap.objects && start.heap.strings == m.heap.strings
                 && start.heap.openUpvalues == [] && start.globals == m.globals
            else fuel > 0 ==> r.1 == Stuck
  {
    var m0 := ResetStack(m);
    start := m0;
    if f < |m0.heap.store| && m0.heap.store[f].FunctionObj? && |m0.stack| != 0 {
      var a := ClosureCreated(m0.heap, f);
      var m1 := Push(m0.(heap := a.heap), ObjectRef(a.handle));
      start := Call(m1, a.handle, 0).0;
      assert Interpret(m, Some(f), fp, host, fuel) == Run(start, fp, host, fuel);
      if m.heap.store[f].arity == 0 && |m.frames| >= 1 {
        assert a.heap.store[a.handle] == ClosureObj(f, seq(m.heap.store[f].upvalueCount, _ => None));
        assert start.stack[0] == ObjectRef(a.handle);
      } else if fuel > 0 {
        assert start.frameCount == 0;
        RunUnfold(start, fp, host, fuel);
      }
    }
  }

  /**
   * `Clox_VM_Define_Native`: interns the name and creates the native, pushing each, then
   * binds the value in stack slot 0 (taken as a string) to the value in slot 1 and pops
   * twice. `None` when slot 0 does not hold a string.
   */
  function DefinedNative(m: Machine, name: seq<Byte>, native: NativeId): (r: Option<Machine>)
    requires Wf(m) && m.top + 2 <= |m.stack|
    ensures r.Some? ==> && Wf(r.value) && r.value.top == m.top && r.value.frameCount == m.frameCount
                        && m.globals.Keys <= r.value.globals.Keys
  {
    var s := Interned(m.heap, name);
    var m1 := Push(m.(heap := s.heap), ObjectRef(s.handle));
    AllocatedPreservesWf(m1.heap, NativeObj(native), |m.stack|);
    var n := Allocated(m1.heap, NativeObj(native));
    var m2 := Push(m1.(heap := n.heap), ObjectRef(n.handle));
    var key := m2.stack[0];
    if !key.ObjectRef? || key.handle >= |m2.heap.store| || !m2.heap.store[key.handle].StringObj? then None
    else Some(Pop(Pop(m2.(globals := m2.globals[key.handle := m2.stack[1]]))))
  }

  /**
   * On an empty stack (its only caller, `Clox_VM_New_Empty`, runs right after a reset) the
   * two pushed values are slots 0 and 1, so the name's interned string becomes bound to the
   * new native object and no other binding changes.
   */
  lemma DefineNativeOnEmptyStack(m: Machine, name: seq<Byte>, native: NativeId)
    requires Wf(m) && m.top == 0 && 2 <= |m.stack|
    ensures var r := DefinedNative(m, name, native);
            && r.Some? && name in r.value.heap.strings
            && var key := r.value.heap.strings[name];
               && r.value.globals.Keys == m.globals.Keys + {key}
               && r.value.globals[key].ObjectRef? && r.value.globals[key].handle < |r.value.heap.store|
               && r.value.heap.store[r.value.globals[key].handle] == NativeObj(native)
               && forall k :: k in m.globals && k != key ==> r.value.globals[k] == m.globals[k]
  {
    var s := Interned(m.heap, name);
    var m1 := Push(m.(heap := s.heap), ObjectRef(s.handle));
    AllocatedPreservesWf(m1.heap, NativeObj(native), |m.stack|);
    var n := Allocated(m1.heap, NativeObj(native));
    var m2 := Push(m1.(heap := n.heap), ObjectRef(n.handle));
    assert m2.stack[0] == ObjectRef(s.handle) && m2.stack[1] == ObjectRef(n.handle);
    assert m2.heap.store[s.handle] == s.heap.store[s.handle];
    assert m2.heap.strings == s.heap.strings;
  }

  /**
   * The machine `Clox_VM_New_Empty` hands out: an empty stack, no frames, no open upvalues,
   * and a single global, binding the interned `name` to the native `native`.
   */
  ghost predicate Booted(m: Machine, name: seq<Byte>, native: NativeId)
  {
    && m.top == 0 && m.frameCount == 0 && m.heap.openUpvalues == []
    && name in m.heap.strings
    && var key := m.heap.strings[name];
       && m.globals.Keys == {key}
       && m.globals[key].ObjectRef? && m.globals[key].handle < |m.heap.store|
       && m.heap.store[m.globals[key].handle] == NativeObj(native)
  }

  /** `Clox_VM_New_Empty` on zeroed globals: resetting the stack and defining one native boots the machine. */
  lemma NewEmptyBoots(m: Machine, name: seq<Byte>, native: NativeId)
    requires Wf(m) && 2 <= |m.stack| && m.globals == map[]
    ensures var r := DefinedNative(ResetStack(m), name, native);
            r.Some? && Booted(r.value, name, native)
  {
    var m0 := ResetStack(m);
    DefineNativeOnEmptyStack(m0, name, native);
    var s := Interned(m0.heap, name);
    var n := Allocated(s.heap, NativeObj(native));
    assert n.heap.openUpvalues == [];
  }

  /** `Clox_VM_Delete`'s list walk: one deallocation per object, newest first. */
  function Teardown(heap: HeapState): (r: seq<Release>)
    requires HeapWf(heap)
    ensures |r| == |heap.objects|
  {
    seq(|heap.objects|, i requires 0 <= i < |heap.objects| => Deallocate(heap.objects[i], heap.store[heap.objects[i]]))
  }

  // ---------------------------------------------------------------------------------------
  // Properties

  /** Teardown releases every object exactly once, and frees a chunk exactly for the function objects. */
  lemma TeardownReleasesEachObjectOnce(heap: HeapState)
    requires HeapWf(heap)
    ensures var r := Teardown(heap);
            && |r| == |heap.store|
            && (forall i :: 0 <= i < |r| ==> r[i].handle == |heap.store| - 1 - i)
            && (forall i :: 0 <= i < |r| ==>
                  (r[i].releasesChunk <==> heap.store[|heap.store| - 1 - i].FunctionObj?))
  {
  }

  /** A native call replaces the callee and its arguments with the native's result; no frame is pushed. */
  lemma NativeCallReplacesCallee(m: Machine, argCount: nat, host: Host)
    requires Wf(m) && argCount < m.top
    requires Peek(m, argCount).ObjectRef? && Peek(m, argCount).handle < |m.heap.store|
    requires m.heap.store[Peek(m, argCount).handle].NativeObj?
    ensures var r := CallValue(m, Peek(m, argCount), argCount, host);
            && r.Some? && r.value.1
            && r.value.0.top == m.top - argCount
            && r.value.0.frameCount == m.frameCount && r.value.0.frames == m.frames
            && Peek(r.value.0, 0) == host(m.heap.store[Peek(m, argCount).handle].native, m.stack[m.top - argCount .. m.top])
            && forall d :: 1 <= d < r.value.0.top ==> Peek(r.value.0, d) == Peek(m, d + argCount)
  {
  }

  /** Calling anything but a closure or a native fails through the runtime-error path. */
  lemma NonCallableCalleeFails(m: Machine, callee: Value, argCount: nat, host: Host)
    requires Wf(m) && argCount < m.top
    requires !callee.ObjectRef?
             || (callee.handle < |m.heap.store| && !m.heap.store[callee.handle].ClosureObj?
                 && !m.heap.store[callee.handle].NativeObj?)
    ensures CallValue(m, callee, argCount, host) == Some((ResetStack(m), false))
  {
  }

  /**
   * A closure call that succeeds opens a frame at the callee's first instruction whose slot 0
   * holds the callee and whose slots 1 to argCount hold the arguments.
   */
  lemma ClosureCallFrame(m: Machine, argCount: nat, host: Host)
    requires Wf(m) && argCount < m.top && Peek(m, argCount).ObjectRef?
    requires ClosureFunction(m.heap, Peek(m, argCount).handle).Some?
    ensures var r := CallValue(m, Peek(m, argCount), argCount, host);
            && r.Some?
            && (!r.value.1 <==> argCount != ClosureFunction(m.heap, Peek(m, argCount).handle).value.arity
                                || m.frameCount == |m.frames|)
            && (r.value.1 ==>
                  && r.value.0.frameCount == m.frameCount + 1
                  && Active(r.value.0).ip == 0
                  && Active(r.value.0).closure == Peek(m, argCount).handle
                  && Active(r.value.0).base + argCount + 1 == r.value.0.top
                  && r.value.0.stack[Active(r.value.0).base] == Peek(m, argCount))
  {
  }

  /** A call that fails ends the dispatch loop with a runtime error and the reset state. */
  lemma FailedCallHaltsReset(m: Machine, chunk: Chunk, host: Host)
    requires Running(m)
    ensures var r := OpCallStep(m, chunk, host);
            r.outcome.Halt? ==>
              && r.outcome == Halt(RuntimeError)
              && r.m.top == 0 && r.m.frameCount == 0 && r.m.heap.openUpvalues == []
  {
  }

  /** The outermost return pops the result and the script's closure, and yields OK with the result. */
  lemma ReturnFromScript(m: Machine)
    requires Running(m) && m.frameCount == 1 && m.top >= 2
    ensures var r := OpReturnStep(m);
            && r.outcome == Halt(InterpretResult(InterpretOk, Peek(m, 0)))
            && r.m.top == m.top - 2 && r.m.frameCount == 0
            && r.m.heap == CloseUpvalues(m.heap, m.stack, Active(m).base)
  {
    var m1 := Pop(m);
    assert m1.heap == m.heap && m1.stack == m.stack && Active(m1) == Active(m);
    var heap := CloseUpvalues(m.heap, m.stack, Active(m).base);
    var m2 := m1.(heap := heap, frameCount := 0);
    assert m2.top == m.top - 1 >= 1;
    assert OpReturnStep(m) == Transition(Pop(m2), Halt(InterpretResult(InterpretOk, Peek(m, 0))));
  }

  /**
   * Any other return drops the frame, leaves the result alone on top of the caller's part of
   * the stack (at the returning frame's base), which is kept, closes every upvalue at or above
   * that base over its slot's value, so that no open upvalue is left there, and keeps the globals.
   */
  lemma ReturnToCaller(m: Machine)
    requires Running(m) && m.frameCount >= 2 && m.top >= 1 && Active(m).base < |m.stack|
    ensures var r := OpReturnStep(m);
            && r.outcome == Continue
            && r.m.frameCount == m.frameCount - 1 && r.m.frames == m.frames
            && r.m.top == Active(m).base + 1 && Peek(r.m, 0) == Peek(m, 0)
            && r.m.stack[..Active(m).base] == m.stack[..Active(m).base]
            && r.m.heap == CloseUpvalues(m.heap, m.stack, Active(m).base)
            && r.m.globals == m.globals
            && forall i :: 0 <= i < |r.m.heap.openUpvalues| ==>
                 Loc(r.m.heap, r.m.heap.openUpvalues[i]) < Active(m).base
  {
    var m1 := Pop(m);
    var heap := CloseUpvalues(m1.heap, m1.stack, Active(m1).base);
    CloseUpvaluesCloses(m1.heap, m1.stack, Active(m1).base, heap);
    var m2 := m1.(heap := heap, frameCount := m.frameCount - 1);
    assert OpReturnStep(m) == Transition(Push(m2.(top := Active(m).base), Peek(m, 0)), Continue);
  }

  /** `OP_BOOLEAN_NEGATION` pushes the falsiness of nil and bools, and rejects numbers and objects. */
  lemma NotIsFalsiness(m: Machine)
    requires Running(m) && m.top >= 1
    ensures var r := OpNotStep(m); var v := Peek(m, 0);
            && ((v.Nil? || v.Bool?) ==>
                  r.outcome == Continue && r.m.top == m.top && Peek(r.m, 0) == Bool(IsFalsy(v)))
            && ((v.Number? || v.ObjectRef?) ==>
                  r == Transition(Pop(m), Halt(InterpretResult(InterpretRuntimeError, v))))
  {
  }

  /** `OP_ADD` on operands of different tags, or on two nils or two bools, is a runtime error after both pops. */
  lemma AddRejectsMismatch(m: Machine, fp: FloatOps)
    requires Running(m) && m.top >= 2
    requires TypeOf(Peek(m, 0)) != TypeOf(Peek(m, 1)) || Peek(m, 1).Nil? || Peek(m, 1).Bool?
    ensures OpAddStep(m, fp) == Transition(Pop(Pop(m)), Halt(RuntimeError))
  {
  }

  /** `OP_ADD` on two objects of which one is not a string is a runtime error after both pops. */
  lemma AddRejectsNonStrings(m: Machine, fp: FloatOps)
    requires Running(m) && m.top >= 2 && Peek(m, 0).ObjectRef? && Peek(m, 1).ObjectRef?
    requires Peek(m, 0).handle < |m.heap.store| && Peek(m, 1).handle < |m.heap.store|
    requires !m.heap.store[Peek(m, 0).handle].StringObj? || !m.heap.store[Peek(m, 1).handle].StringObj?
    ensures OpAddStep(m, fp) == Transition(Pop(Pop(m)), Halt(RuntimeError))
  {
  }

  /**
   * String + string pushes the interned string of the left bytes followed by the right
   * bytes, whose length is the sum; when that content is already interned nothing is allocated.
   */
  lemma AddConcatenatesStrings(m: Machine, fp: FloatOps)
    requires Running(m) && m.top >= 2 && Peek(m, 0).ObjectRef? && Peek(m, 1).ObjectRef?
    requires Peek(m, 0).handle < |m.heap.store| && m.heap.store[Peek(m, 0).handle].StringObj?
    requires Peek(m, 1).handle < |m.heap.store| && m.heap.store[Peek(m, 1).handle].StringObj?
    ensures var r := OpAddStep(m, fp);
            var lhs := m.heap.store[Peek(m, 1).handle];
            var rhs := m.heap.store[Peek(m, 0).handle];
            && r.outcome == Continue && r.m.top == m.top - 1
            && Peek(r.m, 0).ObjectRef? && Peek(r.m, 0).handle < |r.m.heap.store|
            && r.m.heap.store[Peek(r.m, 0).handle].StringObj?
            && Content(r.m.heap.store[Peek(r.m, 0).handle]) == Content(lhs) + Content(rhs)
            && r.m.heap.store[Peek(r.m, 0).handle].length == lhs.length + rhs.length
            && (Content(lhs) + Content(rhs) in m.heap.strings ==> r.m.heap == m.heap)
  {
    var lhs := m.heap.store[Peek(m, 1).handle];
    var rhs := m.heap.store[Peek(m, 0).handle];
    assert StringWf(lhs) && StringWf(rhs);
  }

  /** Under interning, two string objects have the same content exactly when they are the same object. */
  lemma StringEqualityIsIdentity(heap: HeapState, a: Handle, b: Handle)
    requires HeapWf(heap)
    requires a < |heap.store| && heap.store[a].StringObj? && b < |heap.store| && heap.store[b].StringObj?
    ensures Content(heap.store[a]) == Content(heap.store[b]) <==> a == b
  {
    if Content(heap.store[a]) == Content(heap.store[b]) {
      assert heap.strings[Content(heap.store[a])] == a;
      assert heap.strings[Content(heap.store[b])] == b;
    }
  }

  /**
   * `OP_EQUAL` pushes one bool: false for different tags, true for two nils, equality for
   * bools, and for two strings whether they are the same interned object.
   */
  lemma EqualComparesByTag(m: Machine, fp: FloatOps)
    requires Running(m) && m.top >= 2
    ensures var r := OpEqualStep(m, fp); var lhs := Peek(m, 0); var rhs := Peek(m, 1);
            && (TypeOf(lhs) != TypeOf(rhs) ==> r.outcome == Continue && Peek(r.m, 0) == Bool(false))
            && (lhs.Nil? && rhs.Nil? ==> r.outcome == Continue && Peek(r.m, 0) == Bool(true))
            && (lhs.Bool? && rhs.Bool? ==> r.outcome == Continue && Peek(r.m, 0) == Bool(lhs == rhs))
            && (lhs.ObjectRef? && rhs.ObjectRef? && lhs.handle < |m.heap.store| && rhs.handle < |m.heap.store|
                && m.heap.store[lhs.handle].StringObj? && m.heap.store[rhs.handle].StringObj?
                ==> r.outcome == Continue && Peek(r.m, 0) == Bool(lhs == rhs))
            && (r.outcome == Continue ==> r.m.top == m.top - 1)
  {
    var lhs := Peek(m, 0);
    var rhs := Peek(m, 1);
    if lhs.ObjectRef? && rhs.ObjectRef? && lhs.handle < |m.heap.store| && rhs.handle < |m.heap.store|
       && m.heap.store[lhs.handle].StringObj? && m.heap.store[rhs.handle].StringObj? {
      StringEqualityIsIdentity(m.heap, lhs.handle, rhs.handle);
    }
  }

  /**
   * `OP_GET_GLOBAL` pushes a bound name's value (a push onto a full stack is undefined), and an
   * unbound name is a runtime error that leaves the globals alone, however full the stack is.
   */
  lemma GetGlobalLooksUp(m: Machine, chunk: Chunk)
    requires Running(m) && ReadString(m, chunk).Some?
    ensures var r := OpGetGlobalStep(m, chunk); var name := ReadString(m, chunk).value.1;
            && (name in m.globals && m.top < |m.stack| ==>
                  r.outcome == Continue && r.m.top == m.top + 1 && Peek(r.m, 0) == m.globals[name])
            && (name in m.globals && m.top == |m.stack| ==> r.outcome == Undefined)
            && (name !in m.globals ==> r.outcome == Halt(RuntimeError) && r.m.globals == m.globals && r.m.top == 0)
  {
  }

  /**
   * `OP_SET_GLOBAL` on a bound name rebinds it and leaves the value on the stack; on an
   * unbound name the table ends as it was and the result is a runtime error.
   */
  lemma SetGlobalRebindsOnly(m: Machine, chunk: Chunk)
    requires Running(m) && ReadString(m, chunk).Some? && m.top >= 1
    ensures var r := OpSetGlobalStep(m, chunk); var name := ReadString(m, chunk).value.1;
            && (name in m.globals ==>
                  && r.outcome == Continue && r.m.top == m.top && r.m.stack == m.stack
                  && r.m.globals == m.globals[name := Peek(m, 0)])
            && (name !in m.globals ==>
                  && r.outcome == Halt(RuntimeError) && r.m.globals == m.globals && r.m.top == 0)
  {
    var name := ReadString(m, chunk).value.1;
    if name !in m.globals {
      assert m.globals[name := Peek(m, 0)] - {name} == m.globals;
    }
  }

  /** Defining a global and then reading it back, at the next instruction, pushes the defined value. */
  lemma DefineThenGetGlobal(m: Machine, chunk: Chunk)
    requires Running(m) && ReadString(m, chunk).Some? && m.top >= 1
    requires var d := OpDefineGlobalStep(m, chunk).m;
             Ip(d) < |chunk.code| && chunk.code[Ip(m)] == chunk.code[Ip(d)]
    ensures var d := OpDefineGlobalStep(m, chunk);
            var g := OpGetGlobalStep(d.m, chunk);
            && d.outcome == Continue && g.outcome == Continue
            && g.m.top == m.top && Peek(g.m, 0) == Peek(m, 0)
  {
  }

  /** Closing at slot 0 closes every open upvalue. */
  lemma CloseAllAtZero(heap: HeapState, stack: seq<Value>)
    requires HeapWf(heap) && OpenSlotsWithin(heap, |stack|)
    ensures var r := CloseUpvalues(heap, stack, 0);
            && r.openUpvalues == []
            && forall i :: 0 <= i < |heap.openUpvalues| ==>
                 r.store[heap.openUpvalues[i]] == UpvalueObj(Closed(stack[Loc(heap, heap.openUpvalues[i])]))
  {
    var r := CloseUpvalues(heap, stack, 0);
    CloseUpvaluesCloses(heap, stack, 0, r);
  }

  /** The change in stack height of each opcode that neither calls nor returns, when it goes on. */
  function StackEffect(op: OpCode): int
  {
    match op
    case OpConstant | OpNil | OpTrue | OpFalse | OpGetLocal | OpGetGlobal | OpGetUpvalue | OpClosure => 1
    case OpArithmeticNegation | OpBooleanNegation | OpSetLocal | OpSetGlobal | OpSetUpvalue
       | OpJump | OpJumpIfFalse | OpLoop => 0
    case _ => -1
  }

  /** Stack-height accounting: every opcode other than call and return moves the top by its fixed effect. */
  lemma StackHeightAccounting(m: Machine, chunk: Chunk, op: OpCode, fp: FloatOps, host: Host)
    requires Running(m) && op != OpCall && op != OpReturn
    ensures var r := Execute(m, chunk, Some(op), fp, host);
            r.outcome == Continue ==> r.m.top == m.top + StackEffect(op)
  {
    var r := Execute(m, chunk, Some(op), fp, host);
    match op
    case OpClosure => OpClosureStepFills(m, chunk);
    case OpAdd =>
    case OpEqual =>
    case _ =>
  }
}
