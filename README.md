# clox runtime engine in Dafny

This project models the runtime core of a Lox bytecode virtual machine written in C: the tagged
value union (`src/value.h`), the object heap (`src/object.c`) and the interpreter
(`src/vm.c`). Each piece is stated in Dafny and proved.

- **`Value`** (value.dfy): `Clox_Value` becomes a datatype with four variants (`Nil`, `Bool`,
  `Number`, `ObjectRef`). Numbers are kept as opaque 64-bit patterns, and object pointers become
  handles.
- **`Fnv`** (fnv.dfy): the 32-bit FNV-1a hash. `Hash` is its specification as a left fold, and
  `Fnv1a` is the loop, proved equal to it.
- **`Object`** (object.dfy): the heap is a registry.
  - `store` maps a handle to its object.
  - `objects` is the allocation list, newest first.
  - `strings` is the intern table, keyed by content.
  - `openUpvalues` is the open-upvalue list, strictly descending by stack slot.

  The functions `Allocated`, `Interned`, `ClosureCreated` and `Captured` specify allocation,
  interning, closure creation and upvalue capture. Class `ObjectHeap` performs the same updates
  in place and is proved to agree with them.
- **`Semantics`** (semantics.dfy): the interpreter as functions on a `Machine`. A machine holds
  the stack, its top index, the call frames, the frame count, the heap and the globals. Each
  opcode of the dispatch loop of `Clox_VM_Interpret_Function` is one step function, and `Step`
  decodes and runs one instruction. `Run` is the dispatch loop bounded by fuel, and `Interpret`
  is `Clox_VM_Interpret_Source` after compilation.
- **`Vm`** (vm.dfy): class `VM` holds the value stack and the frames as fixed-size arrays, plus
  an `ObjectHeap` and the globals map. Every method updates these fields in place and is proved
  to leave the object in the state that the matching `Semantics` function describes. `Agrees`
  states this agreement, and `Snapshot` reads the fields back as a `Machine`.

Some C behaviour is undefined: an unchecked read or write past an array, a NULL dereference,
`CLOX_UNREACHABLE`, or an instruction index past the end of the code. There the step's outcome
is `Undefined` and the run stops as `Stuck`. The model never invents a behaviour the source
does not give.

The guards keep the source's exact statuses:
- Too few operands gives `INTERPRET_COMPILE_ERROR`.
- A type guard gives `INTERPRET_RUNTIME_ERROR` and leaves the stack as it is.
- `OP_BOOLEAN_NEGATION` on a number or an object pops the operand and returns it with
  `INTERPRET_RUNTIME_ERROR`.
- An unknown opcode pops and returns `INTERPRET_COMPILE_ERROR`.
- A failed call resets the stack inside `Clox_VM_Call` or `Clox_VM_Call_Value`, and
  `OP_CALL` resets it again. The two resets agree (`ResetStackIdempotent`).

The host supplies what the source leaves to the platform or to code outside this model:
- `FloatOps`: floating-point arithmetic and comparison.
- `Host`: the bodies of native functions.
- The compiler's result, given to `Interpret` as a parameter.

## Model

| member | source | states |
|---|---|---|
| Value.ConstructorsSetTagAndPayload | src/value.h:30-33 | `CLOX_VALUE_BOOL/NUMBER/OBJECT` each set exactly their own tag, and the payload reads back unchanged |
| Value.NilHasNilTag | src/value.h:25-31 | `CLOX_VALUE_NIL` satisfies `IS_NIL` and none of the other three predicates |
| Value.ExactlyOneTag | src/value.h:6-28 | every value satisfies exactly one of the four tag predicates |
| Value.PredicatesDependOnTagOnly | src/value.h:25-28 | two values with the same tag agree on all four predicates, whatever their payloads |
| Value.FalsyValues | src/vm.c:412-418 | a value is falsy exactly when it is nil or the boolean false |
| Fnv.HashOfEmpty | src/object.c:38-39 | the hash of no bytes is the offset basis 2166136261 |
| Fnv.HashOfA | src/object.c:38-45 | the hash of the single byte `a` is the published FNV-1a value 0xe40c292c |
| Fnv.FoldSnoc | src/object.c:40-43 | hashing one more byte is one more XOR-then-multiply round on the previous hash |
| Fnv.FoldAppend | src/object.c:40-43 | folding over `a + b` is folding over `b` from the result of folding over `a` |
| Fnv.HashAppend | src/object.c:38-45 | the hash of `a + b` continues from the hash of `a`, so the hash is a deterministic left fold |
| Fnv.Fnv1a | src/object.c:38-45 | the loop returns exactly `Hash(key)` |
| Object.EmptyHeapWf | src/vm.c:25-27 | the zeroed heap of a new VM is well formed, with no open upvalues |
| Object.Allocated | src/object.c:9-18 | the new object has the requested tag and becomes the head of the allocation list, with the old list as its tail; no existing object, intern entry or open upvalue changes |
| Object.AllocatedPreservesWf | src/object.c:9-18 | allocating a non-string object keeps the heap well formed and keeps open upvalues below the stack bound |
| Object.Deallocate | src/object.c:20-36 | releasing an object deletes a chunk exactly when the object is a function |
| Object.StringFor | src/object.c:56-60 | a fresh string has length `len`, hash `fnv_1a(bytes)`, the input bytes, and a NUL at index `len` |
| Object.StringDeterminedByContent | src/object.c:56-60 | a well-formed string object is the one `StringFor` builds from its content |
| Object.Interned | src/object.c:47-64 | an interned content returns the existing object and leaves the heap unchanged; otherwise one string is allocated and registered under its content; either way the result is in the table and carries that content |
| Object.InternedTwice | src/object.c:49-53 | creating the same string twice returns the same object and allocates nothing the second time |
| Object.InternedStringsAreUnique | src/object.c:49-61 | in a well-formed heap two string objects with equal content are the same object |
| Object.ClosureCreated | src/object.c:114-128 | the new closure refers to the function, has as many upvalue slots as the function's `upvalue_count`, and every slot is empty |
| Object.WithClosureUpvalue | src/vm.c:440-444 | storing into one upvalue slot of a closure changes that slot only |
| Object.InsertionPoint | src/object.c:132-137 | the walk stops at the first open upvalue whose slot is not above `slot`; every one passed is above it |
| Object.Captured | src/object.c:130-156 | the result is an open upvalue on `slot`; existing objects are unchanged and the heap stays well formed, so the open list stays strictly descending |
| Object.CapturedSharesOrSplices | src/object.c:132-155 | an open upvalue already on `slot` is returned and nothing changes; otherwise one upvalue is allocated and spliced into the open list, which grows by exactly one |
| Object.CapturedFreshWf | src/object.c:143-155 | splicing at the insertion point keeps the open list strictly descending and free of duplicates |
| Object.OpenUpvaluesUnique | src/object.c:134-141 | no two entries of the open list refer to the same stack slot |
| Object.CapturedTwice | src/object.c:139-141 | capturing the same slot twice returns the same upvalue and changes nothing the second time |
| Object.WithUpvalueClosed | src/vm.c:404-407 | writing a closed upvalue changes its own value and nothing else |
| Object.ObjectHeap.Allocate | src/object.c:9-18 | the in-place allocation leaves the heap that `Allocated` describes |
| Object.ObjectHeap.CreateString | src/object.c:47-64 | the in-place `Clox_String_Create` leaves the heap and returns the handle that `Interned` describes |
| Object.ObjectHeap.CreateFunctionEmpty | src/object.c:98-105 | allocates a function with arity 0, upvalue count 0, no name and an empty chunk |
| Object.ObjectHeap.CreateNative | src/object.c:107-112 | allocates a native object for the given native function |
| Object.ObjectHeap.CreateClosure | src/object.c:114-128 | the in-place closure creation agrees with `ClosureCreated` |
| Object.ObjectHeap.SetClosureUpvalue | src/vm.c:441-443 | the in-place slot store agrees with `WithClosureUpvalue` |
| Object.ObjectHeap.SetClosedValue | src/vm.c:406 | the in-place write agrees with `WithUpvalueClosed` |
| Object.ObjectHeap.CloseHead | src/vm.c:63-66 | the head of the open list becomes closed over the given value and leaves the list |
| Object.ObjectHeap.CaptureUpvalue | src/object.c:130-160 | the in-place walk-and-splice agrees with `Captured` |
| Object.ObjectHeap.CaptureIntoClosure | src/vm.c:441 | capturing a slot and storing it into a closure's upvalue slot agrees with `CaptureInto` |
| Semantics.Push | src/vm.c:46-48 | the top rises by one, the new top is the value, and every value below keeps its depth plus one |
| Semantics.Pop | src/vm.c:52-54 | the top falls by one and every remaining value moves one depth up |
| Semantics.PushThenPop | src/vm.c:46-54 | a push followed by a pop restores the machine, except that the slot above the top keeps the pushed value |
| Semantics.ResetStack | src/vm.c:12-16 | the stack is empty, there are no frames and no open upvalues; objects, intern table and globals are unchanged |
| Semantics.ResetStackIdempotent | src/vm.c:12-16 | resetting twice is resetting once, so the double reset after a failed call is harmless |
| Semantics.RuntimeErrorHalt | src/vm.c:77-98 | the runtime-error path always ends with the reset state and `INTERPRET_RUNTIME_ERROR` |
| Semantics.ReadShort | src/vm.c:153-155 | the operand is big-endian: the high byte is the quotient by 256 and the low byte the remainder |
| Semantics.ClosedHead | src/vm.c:62-66 | the head open upvalue now holds the stack value it referred to and leaves the open list; nothing else changes |
| Semantics.CloseUpvalues | src/vm.c:60-68 | closing keeps the heap well formed and changes no object count, list or intern entry; the walk stops with the list empty or its head below `last` |
| Semantics.CloseUpvaluesCloses | src/vm.c:60-68 | a prefix of the open list is removed; every removed upvalue referred to a slot at or above `last` and now holds that slot's value; every remaining one refers below `last`; no other object changes |
| Semantics.CloseAllAtZero | src/vm.c:60-68 | closing from slot 0 empties the open list, each former entry holding its slot's value |
| Semantics.Call | src/vm.c:100-115 | the call fails exactly when the argument count differs from the arity or the frame array is full, and failure resets the stack; otherwise one frame is pushed for the callee, with ip 0 and base `top - argCount - 1` |
| Semantics.CallValue | src/vm.c:117-136 | every failing call leaves the reset state |
| Semantics.NativeCallReplacesCallee | src/vm.c:123-128 | a native call replaces the callee and its arguments by the native's result; the height drops by `argCount`, no frame is pushed, and the values below are untouched |
| Semantics.NonCallableCalleeFails | src/vm.c:117-135 | a callee that is neither a closure nor a native fails with the reset state |
| Semantics.ClosureCallFrame | src/vm.c:120-122 | calling a closure on the stack pushes a frame whose base slot holds the callee and spans the arguments |
| Semantics.DecodeEncode | src/vm.c:178-180 | every opcode's byte decodes back to it, and exactly the bytes below 29 are opcodes |
| Semantics.ReturnFromScript | src/vm.c:181-190 | returning from the outermost frame yields `INTERPRET_OK` with the popped result, with no frames left |
| Semantics.ReturnToCaller | src/vm.c:181-194 | returning to a caller drops the frame and leaves `top = base + 1` with the result on top; the caller's stack below the base and the globals are kept; the heap is `CloseUpvalues` from the base, so each upvalue at or above it is closed over its slot's value and none is left open there |
| Semantics.OpConstantStep | src/vm.c:196-199 | `OP_CONSTANT` pushes the constant its operand names |
| Semantics.PushLiteral | src/vm.c:200-208 | `OP_NIL/TRUE/FALSE` push their literal |
| Semantics.OpNegateStep | src/vm.c:209-215 | too few operands is a compile error, a non-number a runtime error with the stack kept, otherwise the negation replaces the top |
| Semantics.NotIsFalsiness | src/vm.c:216-230 | nil becomes true and a boolean its negation; a number or object is popped and returned with `INTERPRET_RUNTIME_ERROR` |
| Semantics.Concatenation | src/vm.c:244-252 | the bytes are the left string's followed by the right string's, and the length is the sum |
| Semantics.AddRejectsMismatch | src/vm.c:232-238 | `OP_ADD` with different tags, or two nils or two booleans, pops both and returns `INTERPRET_RUNTIME_ERROR` |
| Semantics.AddRejectsNonStrings | src/vm.c:243-259 | `OP_ADD` of two objects that are not both strings returns `INTERPRET_RUNTIME_ERROR` |
| Semantics.AddConcatenatesStrings | src/vm.c:243-256 | string plus string pushes the interned string of the concatenated bytes, with length equal to the sum, and allocates nothing when that content is already interned |
| Semantics.BinaryNumberStep | src/vm.c:261-290 | `OP_SUB/MUL/DIV/GREATER/LESS` check the count, then both tags, then replace the two operands by the host's result |
| Semantics.StringEqualityIsIdentity | src/vm.c:311-329 | for interned strings, equal content and equal identity coincide, so comparing contents is comparing objects |
| Semantics.EqualComparesByTag | src/vm.c:291-338 | `OP_EQUAL` pushes false for different tags, true for two nils and boolean equality for booleans; for two strings it pushes whether they are the same interned object, which `StringEqualityIsIdentity` shows is content equality; the result sits one value lower than before |
| Semantics.DiscardStep | src/vm.c:359-369 | `OP_PRINT` and `OP_POP` need one operand and pop it |
| Semantics.ReadString | src/vm.c:157-160 | a string operand is a string object in the heap, read at the instruction index, which advances by one |
| Semantics.OpDefineGlobalStep | src/vm.c:370-374 | `OP_DEFINE_GLOBAL` pops the value and binds or rebinds the name to it |
| Semantics.GetGlobalLooksUp | src/vm.c:375-382 | a bound name pushes its value, and pushing it onto a full stack is undefined; an unbound name is a runtime error with the reset state and the globals unchanged, whatever the stack height |
| Semantics.SetGlobalRebindsOnly | src/vm.c:383-389 | a bound name is rebound to the top value, which is not popped; an unbound name's fresh entry is removed again and the step is a runtime error |
| Semantics.DefineThenGetGlobal | src/vm.c:370-382 | reading a global right after defining it yields the defined value at the same stack height |
| Semantics.OpGetLocalStep | src/vm.c:390-394 | `OP_GET_LOCAL` pushes the slot at frame base plus operand |
| Semantics.OpSetLocalStep | src/vm.c:395-399 | `OP_SET_LOCAL` writes the top value into that slot without popping |
| Semantics.OpGetUpvalueStep | src/vm.c:400-403 | `OP_GET_UPVALUE` pushes what the closure's upvalue refers to: a stack slot while open, its own value once closed |
| Semantics.SetUpvalueWritesThrough | src/vm.c:404-407 | after `OP_SET_UPVALUE` the upvalue reads back the top value, which stays on the stack |
| Semantics.OpJumpStep | src/vm.c:408-411 | `OP_JUMP` advances past its operand and then by the big-endian offset |
| Semantics.OpJumpIfFalseStep | src/vm.c:412-418 | the condition stays on the stack, and the offset is added exactly when it is falsy |
| Semantics.OpLoopStep | src/vm.c:419-422 | `OP_LOOP` moves back by the offset from past its operand |
| Semantics.FailedCallHaltsReset | src/vm.c:423-429 | a failing `OP_CALL` returns `INTERPRET_RUNTIME_ERROR` with an empty stack, no frames and no open upvalues |
| Semantics.FillOneFills | src/vm.c:437-445 | one operand pair fills exactly upvalue slot `i` of the new closure, advancing by two bytes and changing no other object |
| Semantics.FillUpvaluesFills | src/vm.c:435-446 | when filling finishes, every slot from `i` on holds what its operand pair names |
| Semantics.OpClosureStepFills | src/vm.c:430-448 | `OP_CLOSURE` pushes a new closure over the constant's function with `upvalue_count` slots, each filled from its operand pair |
| Semantics.OpCloseUpvalueStep | src/vm.c:449-452 | `OP_CLOSE_UPVALUE` closes from slot `top - 1` and pops exactly one value |
| Semantics.UnknownOpStep | src/vm.c:453-456 | an unknown opcode pops the top and returns it with `INTERPRET_COMPILE_ERROR` |
| Semantics.StackHeightAccounting | src/vm.c:196-456 | every opcode other than call and return that continues changes the stack height by its fixed effect |
| Semantics.Step | src/vm.c:162-180 | an undefined step leaves the machine as it was, and every step keeps the machine well formed |
| Semantics.Run | src/vm.c:162-458 | a stuck run ends on a machine that cannot step, and a run out of fuel reached its final machine through `fuel` consecutive continuing steps (`ContinuesFor`) |
| Semantics.Interpret | src/vm.c:463-473 | without a compiled function the result is `INTERPRET_COMPILE_ERROR` from the reset state |
| Semantics.InterpretStartsScript | src/vm.c:463-483 | a compiled script of arity 0 runs the dispatch loop from a machine whose only value is a fresh closure over it with empty upvalue slots, called in the only frame at instruction 0 and base 0, with existing objects, the intern table and the globals kept and no open upvalue; any other compiled function gets stuck |
| Semantics.DefinedNative | src/vm.c:138-144 | defining a native keeps the stack height and frames, and keeps every existing global name bound |
| Semantics.DefineNativeOnEmptyStack | src/vm.c:138-144 | on an empty stack the interned name is bound to the new native object, and no other binding changes |
| Semantics.NewEmptyBoots | src/vm.c:25-32 | a new VM has an empty stack, no frames, and exactly one global binding: the clock native |
| Semantics.Teardown | src/vm.c:33-44 | teardown releases one object per entry of the allocation list |
| Semantics.TeardownReleasesEachObjectOnce | src/vm.c:38-43 | teardown releases every object exactly once, newest first, deleting a chunk exactly for functions |
| Vm.VM.constructor | src/vm.c:25-32 | a new VM is valid and booted with the clock native |
| Vm.VM.DefineClock | src/vm.c:29 | binding the clock native into a VM without globals boots it |
| Vm.VM.ResetStack | src/vm.c:12-16 | the in-place reset agrees with `ResetStack` |
| Vm.VM.Push | src/vm.c:46-48 | the array write and top increment agree with `Push` |
| Vm.VM.Pop | src/vm.c:52-54 | returns the top value and agrees with `Pop` |
| Vm.VM.Peek | src/vm.c:56-58 | returns the value `depth` below the top |
| Vm.VM.SetIp | src/vm.c:151 | moves the active frame's instruction index and nothing else |
| Vm.VM.CloseUpvalues | src/vm.c:60-68 | the in-place loop leaves the heap that `CloseUpvalues` describes |
| Vm.VM.RaiseRuntimeError | src/vm.c:96-97 | resets the stack and returns `INTERPRET_RUNTIME_ERROR` |
| Vm.VM.Call | src/vm.c:100-115 | the in-place call agrees with `Call` |
| Vm.VM.CallValue | src/vm.c:117-136 | the in-place dispatch on the callee agrees with `CallValue` |
| Vm.VM.DefineNative | src/vm.c:138-144 | the in-place push-bind-pop agrees with `DefinedNative` |
| Vm.VM.Delete | src/vm.c:33-44 | destroys both tables and releases the allocation list in the order `Teardown` gives |
| Vm.VM.ExecReturn | src/vm.c:181-195 | agrees with `OpReturnStep` |
| Vm.VM.ExecConstant | src/vm.c:196-199 | agrees with `OpConstantStep` |
| Vm.VM.ExecLiteral | src/vm.c:200-208 | agrees with `PushLiteral` |
| Vm.VM.ExecNegate | src/vm.c:209-215 | agrees with `OpNegateStep` |
| Vm.VM.ExecNot | src/vm.c:216-230 | agrees with `OpNotStep` |
| Vm.VM.ExecAdd | src/vm.c:231-260 | agrees with `OpAddStep` |
| Vm.VM.ExecBinaryNumber | src/vm.c:261-290 | agrees with `BinaryNumberStep` |
| Vm.VM.ExecEqual | src/vm.c:291-338 | agrees with `OpEqualStep` |
| Vm.VM.ExecDiscard | src/vm.c:359-369 | agrees with `DiscardStep` |
| Vm.VM.StringOperand | src/vm.c:157-160 | reads the string operand as `ReadString` does |
| Vm.VM.ExecDefineGlobal | src/vm.c:370-374 | agrees with `OpDefineGlobalStep` |
| Vm.VM.ExecGetGlobal | src/vm.c:375-382 | agrees with `OpGetGlobalStep` |
| Vm.VM.ExecSetGlobal | src/vm.c:383-389 | agrees with `OpSetGlobalStep` |
| Vm.VM.ExecGetLocal | src/vm.c:390-394 | agrees with `OpGetLocalStep` |
| Vm.VM.ExecSetLocal | src/vm.c:395-399 | agrees with `OpSetLocalStep` |
| Vm.VM.FrameUpvalueAt | src/vm.c:402 | finds the running closure's upvalue as `FrameUpvalue` does |
| Vm.VM.ExecGetUpvalue | src/vm.c:400-403 | agrees with `OpGetUpvalueStep` |
| Vm.VM.ExecSetUpvalue | src/vm.c:404-407 | agrees with `OpSetUpvalueStep` |
| Vm.VM.ExecJump | src/vm.c:408-411 | agrees with `OpJumpStep` |
| Vm.VM.ExecJumpIfFalse | src/vm.c:412-418 | agrees with `OpJumpIfFalseStep` |
| Vm.VM.ExecLoop | src/vm.c:419-422 | agrees with `OpLoopStep` |
| Vm.VM.ExecCall | src/vm.c:423-429 | agrees with `OpCallStep` |
| Vm.VM.FillSlot | src/vm.c:438-444 | reads one operand pair and fills one slot as `FillOne` does |
| Vm.VM.CaptureLocal | src/vm.c:440-441 | the local case of `FillOne` |
| Vm.VM.CopyEnclosing | src/vm.c:442-443 | the enclosing case of `FillOne` |
| Vm.VM.FillNext | src/vm.c:437-445 | one loop iteration keeps the loop invariant `Filling`, or shows the whole fill undefined |
| Vm.VM.FillAll | src/vm.c:435-446 | the slot-filling loop agrees with `FillUpvalues` |
| Vm.VM.FillingDone | src/vm.c:437 | when the loop index reaches `upvalue_count`, the fill has continued to its end |
| Vm.VM.MakeClosure | src/vm.c:431-447 | creating, pushing and filling the closure agrees with `OpClosureStep` |
| Vm.VM.ExecClosure | src/vm.c:430-448 | agrees with `OpClosureStep` |
| Vm.VM.ExecCloseUpvalue | src/vm.c:449-452 | agrees with `OpCloseUpvalueStep` |
| Vm.VM.ExecUnknown | src/vm.c:453-456 | agrees with `UnknownOpStep` |
| Vm.VM.Execute | src/vm.c:180-457 | the switch runs the decoded opcode as `Execute` does |
| Vm.VM.Step | src/vm.c:162-180 | one iteration of the loop agrees with `Step` |
| Vm.VM.ExecuteNext | src/vm.c:178-180 | reading and running the next opcode agrees with `Step` |
| Vm.VM.Run | src/vm.c:162-458 | the in-place loop reports what `Run` reports, and ends in its state unless stuck |
| Vm.VM.Interpret | src/vm.c:463-483 | reset, wrap, push, call and run agree with `Interpret` |

## Left out

- Floating-point results: negation, number addition, `OP_SUB/MUL/DIV`, `OP_GREATER/LESS` and
  number equality come from a host `FloatOps` record. Only their operand counts and type
  guards are modelled.
- Printing: the traceback of `Clox_VM_Runtime_Error`, the output of `OP_PRINT`,
  `Clox_Object_Print` and the debug-trace blocks are I/O. `OP_PRINT` is modelled as its pop.
- `clock_native` and every native body are host functions, passed as a `Host` parameter. A
  native object carries only an identity.
- The hash-table implementation is not part of this model. The globals and the intern table
  are maps, and `TableSet` reports whether the key was new.
- `s8_compare` is not part of this model. String contents are compared as sequences.
- `reallocate`, `deallocate` and `Clox_Chunk_Delete` are not part of this model. Teardown is the
  sequence of releases it would perform, with a flag for the chunk deletion.
- The compiler is not part of this model. `Interpret` takes the compiled top-level function,
  or its absence, as a parameter.
- Byte sizes passed to `Clox_Object_Allocate`, and the `size >= sizeof(Clox_Object)` assertion,
  are not modelled. Objects are values in a registry.
- Concatenation: the `unsigned int` length of a concatenation could wrap past 2^32. The model
  uses unbounded lengths.
- A freshly created upvalue's `closed = NIL` field is not kept. An open upvalue carries only
  its slot, and closing it stores the slot's value.
- `CLOX_MAX_CALL_FRAMES` and the stack size are not part of this model. They are the capacities
  of the `frames` and `stack` arrays, fixed when a `VM` is constructed.
- Opcode numbering: the opcode header is not part of this model. Bytes are numbered in the
  order of the `switch` in `Clox_VM_Interpret_Function`.
- `Clox_Value_Is_Falsy` is not part of this model. It is taken to hold exactly for nil and
  false.
- Semantics.Run: the dispatch loop is bounded by a fuel count, so a non-terminating program is
  seen only as `OutOfFuel`.
- Vm.VM.Run: when the run is `Stuck`, the final field values are not stated. The C behaviour is
  undefined there.
- Vm.VM.Interpret: when the run is `Stuck`, the final field values are not stated, for the
  same reason.
- Vm.VM.Delete: it states the releases and the emptied tables, but not the arrays or the
  registry afterwards. The C code leaves them dangling.
- Semantics.Step: an `Undefined` outcome leaves the machine unchanged, although the C code
  may have written partial state before reaching undefined behaviour.
- The `message` field of `Clox_Interpret_Result` is not modelled. `InterpretResult` holds only
  the status and the return value, so the text "Unknown instruction." of the default branch is
  not kept.
- `Clox_VM_Define_Native`: it binds `stack[0]` to `stack[1]`, not the two values it pushed.
  The model keeps this. Its only caller runs on an empty stack, where the two coincide
  (`DefineNativeOnEmptyStack`).
- The frame pointer cached in the dispatch loop is not modelled. The model reads the active
  frame afresh at each step; the C code refreshes its pointer after every call and return.
