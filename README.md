# Starlight core and its Lisp example, modelled in Dafny

Starlight is a JavaScript engine written in Rust. This project models four
pieces of its repository and proves properties about them.

- **The tiny Lisp interpreter of `examples/lisp.js`.** It covers the tokenizer,
  the number regular expression and `atom`, the recursive reader `readFrom`,
  environments (`Env`, `Env.prototype.get`, `global_env`) and `eval` with every
  special form and application.
  - A pure, fuel-bounded evaluator over an explicit store of frames is the
    specification (`LispEval`).
  - The imperative interpreter (`LispInterp.Interpreter`) keeps a mutable
    store and runs `begin` and application as loops. Each of its methods is
    proved to compute exactly what the specification computes.
- **The bytecode compiler's bookkeeping** (`crates/starlight/src/bytecompiler.rs`).
  It covers compile-time scopes and slot allocation, interning of names and
  literals, variable access resolution, scope push/pop, instruction emission,
  and the jump-patching closures. Jump offsets are read back the way the
  interpreter decodes them: the four little-endian bytes as an `i32`, added to
  the address after the operand.
- **Runtime environments** (`crates/starlight/src/vm/environment.rs`). An
  environment is a parent link and a block of variable slots. The model covers
  how a heap snapshot writes it out and reads it back.
- **The VM** (`crates/starlight/src/vm.rs`). It covers the value stack with its
  overflow check, the unchecked push and pop, the prototype-chain search
  `try_cache`, and `description` of a symbol.

Numbers in the Lisp model stay as their token text, so the model has no
floating point. Builtins installed by `initCore` are a parameter `prims`.
Integer widths are written out: `u16`/`u32` of `Bytes`, with `TruncU16` and
`WrapU32` for the casts.

Where the behaviour of the code differs from what a reader would expect, the
model follows the code:
- A closure call binds missing arguments to undefined and drops extra ones.
- `(begin)` yields undefined.
- `set!` and `define` yield undefined.
- `set!` looks up the owning frame before it evaluates the new value. An
  unbound name therefore throws without evaluating it.
- A number is falsy exactly when its mantissa is all zeros (`0`, `-0.0`,
  `.0e7`): every nonzero digit of the token comes after its exponent marker.

## Model

| member | source | states |
|---|---|---|
| LispSyntax.TokensAreWellFormed | examples/lisp.js:2-4 | no token is empty or contains a space, and every `(` or `)` is a token by itself |
| LispSyntax.TokensConcat | examples/lisp.js:2-4 | the tokens concatenated give back the input with every space removed |
| LispSyntax.IsNumberMatchesFloatRe | examples/lisp.js:6-8 | the executable number test accepts exactly the strings the regular expression `^[-+]?[0-9]*\.?[0-9]+([eE][-+]?[0-9]+)?$` matches |
| LispSyntax.AtomClassifies | examples/lisp.js:6-11 | `atom` gives a number exactly when the token matches the regular expression, and otherwise the token text unchanged as a symbol |
| LispSyntax.TrailingDotIsSymbol | examples/lisp.js:6-11 | `1.` does not match, so it reads as a symbol |
| LispReader.ReadLeavesSuffix | examples/lisp.js:14-30 | reading leaves a suffix of the token list: the tokens after the expression, untouched |
| LispReader.ReadUnread | examples/lisp.js:14-30 | reading the tokens of an expression, followed by anything, gives back that expression and exactly what followed |
| LispReader.ReadInverse | examples/lisp.js:14-30 | whenever reading succeeds, the input is the tokens of the expression read followed by the rest |
| LispReader.ReadFailures | examples/lisp.js:14-27 | an empty list throws "Unexpected EOF"; a leading `)` throws "unexpected" and consumes only it; an unclosed `(` throws "Unexpected EOF" |
| LispReader.UnclosedListFails | examples/lisp.js:19-23 | the list loop fails with "Unexpected EOF" on any tokens without a `)` |
| LispReader.Reader.ReadFrom | examples/lisp.js:14-30 | the mutating reader (shift, loop until `)`) returns what `Read` returns and leaves the tokens `Read` leaves |
| LispEnv.RootStore | examples/lisp.js:56 | `global_env` is a single frame with no outer environment |
| LispEnv.Chain | examples/lisp.js:43-54 | the frames `get` visits start at the current one, follow `outer` links, and end at a frame without one |
| LispEnv.FindFrameNearest | examples/lisp.js:43-54 | `get` finds nothing exactly when no frame of the chain binds the name; otherwise it returns the nearest frame that does |
| LispEnv.FindFrameExtend | examples/lisp.js:36-41 | creating a new frame changes no lookup from an existing frame |
| LispEnv.BindKeys | examples/lisp.js:36-41 | a new frame's bindings are exactly its parameter names |
| LispEnv.BindLastWins | examples/lisp.js:36-41 | parameter i is bound to argument i, or to undefined when missing, unless a later parameter has the same name |
| LispEnv.NewEnv | examples/lisp.js:36-41 | the constructor loop builds the frame `Bind(params, args)` with the given outer link |
| LispEval.Message | examples/lisp.js:51-53 | an unbound name reports "Variable '<name>' not found" |
| LispEval.ParamNames | examples/lisp.js:79-84 | a list gives its names, one per element in order, exactly when every element is a symbol; a bare symbol gives its characters one by one, as JavaScript indexes a string; a number binds nothing; a missing parameter list is an error |
| LispEval.Assign | examples/lisp.js:70-77 | writing one binding keeps the store well formed, its size and every outer link |
| LispEval.Eval | examples/lisp.js:57-103 | evaluation only ever adds frames and never changes an existing frame's outer link |
| LispEval.EvalAll | examples/lisp.js:95-98 | evaluating a list left to right yields one value per element |
| LispEvalProps.SymbolReadsNearestBinding | examples/lisp.js:59-60 | a symbol evaluates to its binding in the nearest binding frame and changes nothing |
| LispEvalProps.SymbolUnbound | examples/lisp.js:59-60 | a symbol throws "not found" exactly when no frame of the chain binds it |
| LispEvalProps.NumberSelfEvaluates | examples/lisp.js:61-62 | a number evaluates to itself and changes nothing |
| LispEvalProps.QuoteIgnoresEnvironment | examples/lisp.js:63-64 | `quote` returns its argument as data, whatever the environment |
| LispEvalProps.IfEvaluatesOneBranch | examples/lisp.js:65-69 | `if` evaluates the test, then exactly one branch; the other branch has no effect; a failing test fails the `if` |
| LispEvalProps.IfWithoutAlternative | examples/lisp.js:65-69 | a falsy test with no alternative yields undefined |
| LispEvalProps.NumberFalsyIffZeroDigits | examples/lisp.js:69 | for every number token, the test treats it as false exactly when each nonzero digit in it comes after the exponent marker |
| LispEvalProps.ZeroIsFalsy | examples/lisp.js:69 | examples: `0`, `-0.0` and `.0e7` are false; `0.5`, `-3` and `1e-2` are true; the empty symbol and undefined are false; a non-empty symbol and a list are true |
| LispEvalProps.SetUnboundThrowsFirst | examples/lisp.js:70-73 | `set!` of an unbound name throws before the value is evaluated and changes nothing |
| LispEvalProps.SetWritesOwningFrame | examples/lisp.js:70-73 | `set!` yields undefined and overwrites the binding in the owning frame only; every other frame and every outer link is unchanged |
| LispEvalProps.DefineBindsLocally | examples/lisp.js:74-77 | `define` yields undefined and binds in the current frame only, which now shadows any outer binding; every other frame is unchanged |
| LispEvalProps.LambdaCapturesFrame | examples/lisp.js:78-87 | `lambda` yields a closure over the current frame and evaluates nothing |
| LispEvalProps.ClosureCallIsLexical | examples/lisp.js:82-87 | a call evaluates the body in a new frame whose outer link is the captured frame; a parameter resolves to the new frame and any other name as in the captured frame |
| LispEvalProps.ClosureCallBindsArguments | examples/lisp.js:36-41 | with distinct parameter names, parameter i is bound to argument i, or to undefined when arguments run out |
| LispEvalProps.EvalAllAppend | examples/lisp.js:95-98 | evaluating `xs + ys` evaluates all of `xs`, then all of `ys` in the resulting store |
| LispEvalProps.BeginEmpty | examples/lisp.js:88-93 | an empty `begin` yields undefined and leaves every frame as it was |
| LispEvalProps.BeginYieldsLast | examples/lisp.js:88-93 | `begin` yields the value of its last element, evaluated in the frames the earlier elements left after they ran in order |
| LispEvalProps.ApplicationEvaluatesAllThenCalls | examples/lisp.js:94-101 | an application evaluates every element left to right, then calls the first value on the rest |
| LispEvalProps.EmptyListNotCallable | examples/lisp.js:100-101 | applying an empty list fails: there is no procedure to call |
| LispEvalProps.EvalFuelMonotone | examples/lisp.js:57-103 | once evaluation finishes with some fuel, more fuel gives the same result and store |
| LispInterp.Interpreter.constructor | examples/lisp.js:56 | the interpreter starts with `global_env` holding the builtins |
| LispInterp.Interpreter.Eval | examples/lisp.js:57-103 | the mutating interpreter computes what `LispEval.Eval` defines, result and store |
| LispInterp.Interpreter.EvalOpt | examples/lisp.js:66-69 | evaluating a missing element gives undefined, otherwise as `Eval` |
| LispInterp.Interpreter.If | examples/lisp.js:65-69 | `if` as the specification defines it |
| LispInterp.Interpreter.Set | examples/lisp.js:70-73 | `set!` as the specification defines it |
| LispInterp.Interpreter.Define | examples/lisp.js:74-77 | `define` as the specification defines it |
| LispInterp.Interpreter.Begin | examples/lisp.js:88-93 | the `begin` loop keeps the last value and computes what the specification defines |
| LispInterp.Interpreter.Application | examples/lisp.js:95-101 | the `exprs[i] = eval(x[i])` loop, then the call, as the specification defines them |
| LispInterp.Interpreter.Apply | examples/lisp.js:82-87 | a closure call appends `Env(vars, args, env)` to the store and evaluates the body there, as the specification defines it |
| Bytes.TruncU16 | crates/starlight/src/bytecompiler.rs:35-38 | `len as u16` is the identity below 2^16 |
| Bytes.WrapU32 | crates/starlight/src/bytecompiler.rs:1326-1328 | `as u32` is the identity on u32 and otherwise congruent modulo 2^32 |
| Bytes.LE16RoundTrip | crates/starlight/src/bytecompiler.rs:1414-1417 | the two little-endian bytes of a u16 read back as that u16 |
| Bytes.LE32RoundTrip | crates/starlight/src/bytecompiler.rs:1419-1421 | the four little-endian bytes of a u32 read back as that u32 |
| Bytes.AsI32 | crates/starlight/src/vm/interpreter.rs:223 | reading four bytes as `i32` gives a value in the i32 range with the same bits |
| Bytes.AsI32Wrap | crates/starlight/src/vm/interpreter.rs:221-226 | an i32 written as its u32 bits decodes to the same i32 |
| Bytes.DecodeEncodeOperands | crates/starlight/src/bytecompiler.rs:1394-1400 | decoding the four-byte operands gives back the operands, whatever follows |
| ByteCompiler.Scope.constructor | crates/starlight/src/bytecompiler.rs:447-451 | a new scope has the given parent and depth and no variables |
| ByteCompiler.Scope.Chain | crates/starlight/src/bytecompiler.rs:102-116 | the scopes `lookup_scope` visits: the current one, then its parents, with depth falling by one per hop down to the root |
| ByteCompiler.Scope.LookupInnermost | crates/starlight/src/bytecompiler.rs:102-116 | lookup finds nothing exactly when no scope of the chain declares the name; otherwise it returns the innermost declaring scope and that scope's slot |
| ByteCompiler.Scope.AddVar | crates/starlight/src/bytecompiler.rs:28-39 | returns the map size before insertion as `u16` and records the name with that index, replacing an earlier entry |
| ByteCompiler.Scope.AddVarDistinct | crates/starlight/src/bytecompiler.rs:28-39 | the corrected `add_var`: a new name gets the next slot; a declared name keeps its slot; slots stay distinct and dense |
| ByteCompiler.RedeclaredNamesShareSlot | crates/starlight/src/bytecompiler.rs:350-400 | declaring `x`, `x` again, then `y` leaves `x` and `y` both in slot 1 |
| ByteCompiler.RedeclaredNamesKeepSlots | crates/starlight/src/bytecompiler.rs:28-39 | with the corrected `add_var` the same declarations give `x` slot 0 and `y` slot 1 |
| ByteCompiler.Compiler.constructor | crates/starlight/src/bytecompiler.rs:317-392 | a compiler starts with an empty code block and empty intern maps; with no parent (`compile_script`, lines 317-335) its scope is a root of depth 0, and for a nested function (lines 377-392) it is a fresh empty child of the enclosing scope, one level deeper |
| ByteCompiler.Compiler.GetSym | crates/starlight/src/bytecompiler.rs:93-101 | an interned name returns its stored index and changes nothing; a new name is appended and gets the old length; afterwards `names[ix]` is the name |
| ByteCompiler.Compiler.GetVal | crates/starlight/src/bytecompiler.rs:79-92 | a known literal returns its index and changes nothing; a new one is appended and gets the old length; afterwards `literals[ix]` is the literal and the index is below the pool length |
| ByteCompiler.Compiler.LookupScope | crates/starlight/src/bytecompiler.rs:102-116 | the loop over the current scope and its parents returns what `Lookup` defines: the innermost declaring scope and slot |
| ByteCompiler.Compiler.AccessVar | crates/starlight/src/bytecompiler.rs:118-126 | `Global` exactly when no scope declares the name; otherwise the owner's slot, with the depth difference equal to the number of parent hops to the owner |
| ByteCompiler.Compiler.PushScope | crates/starlight/src/bytecompiler.rs:445-454 | returns the previous depth and installs a fresh empty child one level deeper |
| ByteCompiler.Compiler.PopScope | crates/starlight/src/bytecompiler.rs:455-458 | restores the parent scope; at the root it panics with "No scopes left" |
| ByteCompiler.Compiler.PushThenPop | crates/starlight/src/bytecompiler.rs:445-458 | pushing then popping a scope leaves the current scope unchanged |
| ByteCompiler.Compiler.Emit | crates/starlight/src/bytecompiler.rs:1394-1408 | appends the opcode, then each operand in four little-endian bytes, then with feedback the old feedback length and one `None` feedback; the operands decode back |
| ByteCompiler.Compiler.EmitU8 | crates/starlight/src/bytecompiler.rs:1410-1412 | appends the byte |
| ByteCompiler.Compiler.EmitU16 | crates/starlight/src/bytecompiler.rs:1414-1417 | appends two little-endian bytes that read back as the value |
| ByteCompiler.Compiler.EmitU32 | crates/starlight/src/bytecompiler.rs:1419-1421 | appends four little-endian bytes that read back as the value |
| ByteCompiler.Compiler.Jmp | crates/starlight/src/bytecompiler.rs:1360-1375 | reserves a 5-byte `OP_JMP` placeholder and returns the patch that will rewrite it as `OP_JMP` |
| ByteCompiler.Compiler.Cjmp | crates/starlight/src/bytecompiler.rs:1336-1355 | reserves a 5-byte placeholder; the patch writes `OP_JMP_IF_TRUE` when `cond` holds, else `OP_JMP_IF_FALSE` |
| ByteCompiler.Compiler.JmpCustom | crates/starlight/src/bytecompiler.rs:1377-1392 | reserves a 5-byte placeholder with the given opcode; the patch rewrites it with that opcode |
| ByteCompiler.Compiler.Try | crates/starlight/src/bytecompiler.rs:1321-1335 | reserves a 5-byte `OP_PUSH_CATCH` placeholder; the patch rewrites it as `OP_PUSH_CATCH` |
| ByteCompiler.Compiler.ApplyPatch | crates/starlight/src/bytecompiler.rs:1325-1334 | rewrites only the five placeholder bytes: the opcode and the LE offset `len - (p + 5)`; the code length and all other bytes stay; the decoded jump lands at the current end of the code |
| ByteCompiler.Compiler.Goto | crates/starlight/src/bytecompiler.rs:1356-1359 | appends `OP_JMP` with offset `to - (len + 5)` as u32 bits; when the offset fits an i32 the decoded jump lands at `to` |
| JsValues.EncodeUndefined | crates/starlight/src/vm/value.rs:112-114 | undefined is the word 0xFFFA_0000_0000_0000: the extended tag `0xfffa * 2` shifted to just below the 48 data bits |
| JsValues.UndefinedIsNotZero | crates/starlight/src/vm/value.rs:80-82 | the boxed undefined differs from the all-zero word |
| Environments.EnvItems | crates/starlight/src/vm/environment.rs:109-116 | a serialized environment is two header items and two per slot |
| Environments.DecodeEnv | crates/starlight/src/vm/environment.rs:78-94 | a successful read consumes the header and two items per slot read |
| Environments.SnapshotRoundTrip | crates/starlight/src/vm/environment.rs:78-116 | reading what `serialize` wrote gives back the parent, every (value, mutable) pair in order and the count, and leaves what follows |
| Environments.Environment.constructor | crates/starlight/src/vm/environment.rs:23-40 | no parent, `values_count == cap`, every slot undefined and mutable |
| Environments.Environment.AsSlice | crates/starlight/src/vm/environment.rs:42-44 | exposes exactly `values_count` variables |
| Environments.Environment.AsSliceMut | crates/starlight/src/vm/environment.rs:46-48 | exposes the slot block itself, of length `values_count` |
| Environments.Environment.Serialize | crates/starlight/src/vm/environment.rs:109-116 | appends the parent reference, the count, then each slot's value and mutable flag in order |
| Environments.DeserializeInPlace | crates/starlight/src/vm/environment.rs:78-94 | reads the fields in the same order into a fresh environment with exactly the decoded parent and slots, and advances past them; it fails only when the items are not an environment or the parent is unresolved |
| Environments.ReadSlots | crates/starlight/src/vm/environment.rs:80-86 | fills a fresh block of exactly `cap` slots with the value/flag pairs in order, and reports failure exactly when the items there are not `cap` such pairs |
| Environments.SerializeThenDeserialize | crates/starlight/src/vm/environment.rs:78-116 | serializing then deserializing reproduces the parent, the count and every slot |
| Vm.Decimal | crates/starlight/src/vm.rs:249-254 | the text of an index is a non-empty string of digits without a leading zero |
| Vm.ParseDecimalInverse | crates/starlight/src/vm.rs:249-254 | the decimal text reads back as the index it was made from |
| Vm.DecimalInjective | crates/starlight/src/vm.rs:249-254 | distinct indexes have distinct descriptions |
| Vm.Description | crates/starlight/src/vm.rs:249-254 | a key describes as its own text; an index describes as its decimal digits, which denote it |
| Vm.TryCache | crates/starlight/src/vm.rs:256-273 | yields the first object of the chain `obj`, then its prototypes, whose structure is `s`; `None` exactly when none has it |
| Vm.VirtualMachine.constructor | crates/starlight/src/vm.rs:348-371 | a stack of 16*1024 zeroed slots with the cursor at the start |
| Vm.VirtualMachine.Push | crates/starlight/src/vm.rs:311-320 | a full stack panics with "Stack overflow" and changes nothing; otherwise the value is written at the cursor, the cursor advances by one, and nothing else changes |
| Vm.VirtualMachine.UPush | crates/starlight/src/vm.rs:329-334 | given room, the value is written at the cursor and the cursor advances |
| Vm.VirtualMachine.UPop | crates/starlight/src/vm.rs:322-327 | given a value, returns the top value and moves the cursor back over it |
| Vm.VirtualMachine.Pop | crates/starlight/src/vm.rs:335-343 | an empty stack yields `None` and keeps the cursor; otherwise the top value, removed |
| Vm.VirtualMachine.PushThenPop | crates/starlight/src/vm.rs:311-343 | a pop after a push returns the pushed value and restores the stack |

## Left out

- The REPL, `print`, `readLine`, `Exit` and the import of `lisp_core.js`/`initCore` are I/O or code outside this model. The builtins `initCore` installs are an oracle parameter `prims` of type `(id, args)` to an optional value, where `None` means the builtin threw.
- `atom` returns `parseFloat(token)`. The model keeps the matched token text instead, so it has no floating point and no rounding. Truthiness of a number is decided on its text, and a literal that underflows to 0 (`1e-400`) is treated as truthy.
- Objects used as environments keep the JavaScript quirks out of the model:
  - names inherited from `Object.prototype` (`constructor`, `toString`) and the `get` method are not bound;
  - the `outer` property is not visible as a variable;
  - a non-symbol `set!`/`define` name or parameter is not converted to a property key. It is an error (`BadName`/`BadParams`).
- `proc` in the application branch is assigned without a declaration, so it leaks into JavaScript's global object. That leaked global is not modelled.
- Recursion depth: `LispEval.Eval` takes a fuel bound and fails with `OutOfFuel` when fuel runs out. JavaScript's own stack overflow is not modelled. `EvalFuelMonotone` shows that fuel never changes a finished result.
- A closure over a frame that is not in the store fails with `DanglingFrame`. Only a builtin could forge one; JavaScript has no such case.
- The AST-driven compilation in `bytecompiler.rs` (statements, expressions, functions, the analyzer, loop control, `finish`) is not part of this model. Only the bookkeeping functions listed above are.
- Opcode numbers: the opcode enum that `bytecompiler.rs` emits is not part of this model. The byte of each opcode is a value of `OpcodeTable`.
- The values of the literal pool: `get_val` stores a `JsValue` made from a float or a heap string. The model stores the `Val` key itself, because heap allocation of strings is not modelled.
- A `Symbol` is modelled by its text. Interning, and the known-symbol table of `intern_or_known_symbol`, are left out.
- ByteCompiler.Scope.AddVar: `len as u16` is modelled as truncation. The resulting wrap past 65536 variables is stated, not prevented.
- ByteCompiler.Compiler.Goto: `to as i32 - at` panics on overflow in debug builds. Here it wraps as in release builds, and the jump target is proved only when the offset fits an `i32`.
- ByteCompiler.Compiler.ApplyPatch: the proved jump target requires an offset below 2^31. Longer forward jumps wrap, as `to as u32` does.
- Scopes: `Rc<RefCell<Scope>>` sharing is modelled by object identity. A scope's parent and depth never change after creation; the source never changes them either.
- Environments.DeserializeInPlace: the snapshot's byte format, reference table and allocation callbacks (`deserialize`, `allocate`, `deser_pair`) are not modelled. A snapshot is a sequence of typed items; a parent is a reference id resolved through a map. An id missing from that map, or an item of the wrong kind, is an error result. In the source the same cases are undefined behaviour.
- `Drop for Environment` and `Trace for Environment` belong to memory management and garbage collection. They are not modelled.
- Vm.VirtualMachine.UPush and Vm.VirtualMachine.UPop: the source has no checks there, and running out of room is undefined behaviour. The model states room, or a value, as a precondition.
- Vm.TryCache: the source reads the structure with `unwrap_unchecked`. The model assumes every object has a structure, and that the prototype chain is finite; the engine keeps it acyclic, and an infinite chain would loop forever in the source.
- Everything else `VirtualMachine::new` sets up is out of this model: the heap, the interner, global data, the global object and the current frame.
- `crates/starlight/src/vm/value.rs` has two encodings of a value, chosen by cargo features; a build with neither stops at the `compile_error!` of line 480. `JsValues` models only the `val-as-u64` branch (value.rs:45-258). The `val-as-f64` branch (from line 259) is not modelled, and neither are the other tags, number boxing and the value accessors.
- LispEval.Message: only the `Unbound` text comes from the source. The other texts name the error cases of the model. In JavaScript those cases throw a `TypeError` with the engine's own message, or they do not throw at all (a non-symbol parameter or name becomes a property key).
- `crates/starlight/src/vm/interpreter.rs`, `object.rs`, `error.rs` and `opcodes_v2.rs` are context only. Of them, the model uses only the jump decoding at `interpreter.rs:221-241`, `interpreter.rs:786-791` and the structure and prototype accessors of objects.

## Findings

| source | as written | input that shows it | evidently intended | confidence | as-written member | corrected member |
|---|---|---|---|---|---|---|
| crates/starlight/src/bytecompiler.rs:28-39 | `add_var` always inserts with index `variables.len()`, even when the name is already declared. The insert replaces the entry, so the count does not grow. | In a function `f(x) { var x; var y; }`, the parameter `x` is added (slot 0), then the body's `var x` (slot 1, count stays 1), then `y` (slot 1). `x` and `y` now share slot 1, and the argument in slot 0 is lost. | A redeclared name keeps its slot, and slots stay distinct. | not executed; whether the analyzer lists a parameter among a body's vars is outside this model | ByteCompiler.Scope.AddVar, ByteCompiler.RedeclaredNamesShareSlot | ByteCompiler.Scope.AddVarDistinct, ByteCompiler.RedeclaredNamesKeepSlots |
