# tinysol core, modelled in Dafny

tinysol compiles a small subset of Solidity to a toy stack machine and then
executes contract calls on that machine. This project models the core of
`src/tinyvm.rs`:

- **The stack** (`Stacks.Stack`). It is a fixed array of 1024 256-bit words
  with a `top` cursor. A push onto a full stack is silently dropped. A pop of
  an empty stack yields nothing. SWAP exchanges the two topmost cells. Its
  abstract behaviour is the sequence functions in `Words`.
- **The virtual machine** (`Vm`). `Step` and `Exec` give the meaning of a
  single opcode and of a program run from a program counter. `Vm.VM` is the
  imperative machine: a class with a stack, a program and a `pc`. Its `Run`
  loop is proved to compute exactly `Exec`. An `unwrap` of an empty pop, or a
  storage index outside the slot vector, is a Rust panic; here it is the
  `Fault` outcome (`StackUnderflow`, `StorageOutOfRange`).
- **Contracts and calls** (`Contracts`). A contract maps selectors to
  compiled functions and owns its storage slots. `Contract.Call` runs the
  selected function's code on a fresh VM. It then pops one stack word per
  declared return parameter, turning a bool parameter into a literal. The new
  storage is committed unless the function is `view` or `pure`. An unknown
  selector leaves the contract as it is and returns nothing.
- **The code generator** (`Codegen`). It allocates one storage slot per state
  variable, in definition order. It lowers statements and expressions to
  opcodes and resolves function attributes, where the last visibility and the
  last mutability win. It builds the canonical signature `name(bool,...)`.
  The selector (`Selector.GetFuncSig`) is the lower-case hex of the first four
  bytes of the Keccak-256 digest of that signature.
- **Compiler correctness** (`LoweringCorrect`). Running the lowered code of a
  variable read or a `!`-expression pushes that expression's value. The code
  for `x = e;` stores it into `x`'s slot. The code for `return e;` leaves it
  on top of the stack and stops.
- **The flipper contract** (`Flipper`). These lemmas follow a reconstruction
  of the flipper contract that the test in `src/main.rs` compiles. They go
  from compilation, through a call of `flip()`, to a call of `get()`, which
  answers `true`.

The Keccak-256 hash is a parameter of type `Selector.Keccak` (a function from
strings to 32-byte digests). Every result that depends on it holds for any
such function. Where two selectors must differ, the lemma requires it
explicitly.

The Solidity AST (`Grammar`) transcribes the enums of `src/solidity.rs`,
every variant of each. It drops only the unit `()` fields that stand for
keywords and punctuation. `Expression::Type` is called `TypeName`, because
`type` is a Dafny keyword. The attribute variants `Visibility` and
`Mutability` are called `VisibilityAttr` and `MutabilityAttr`, so that they
do not clash with the enums of the same names.

## Model

| member | source | states |
|---|---|---|
| Words.AsUsize | src/tinyvm.rs:105-116 | A storage key is cut to a 64-bit machine word. The cut is the identity on keys below 2^64. |
| Words.TruncateToByte | src/tinyvm.rs:340-346 | A slot index cast to `u8` keeps its value when it is below 256. |
| Words.SwapTop | src/tinyvm.rs:39-41 | Swapping the top two cells exchanges exactly the last two elements and keeps the rest and the depth. |
| Words.PushPopRoundTrip | src/tinyvm.rs:19-37 | Popping right after a push onto a non-full stack returns the pushed word and the original stack. |
| Words.PushFullIsDropped | src/tinyvm.rs:19-24 | A push onto a stack holding 1024 words leaves it unchanged. |
| Words.DepthStaysBounded | src/tinyvm.rs:19-37 | A push never takes the depth past 1024 and grows it by one exactly when there was room. A successful pop shrinks it by one. |
| Words.SwapTopInvolution | src/tinyvm.rs:39-41 | Swapping twice restores the stack. |
| Stacks.Stack.constructor | src/tinyvm.rs:12-17 | A new stack is empty, with a 1024-cell array. |
| Stacks.Stack.Push32 | src/tinyvm.rs:19-24 | The stack's contents become `Push(old contents, w)`: appended when below capacity, unchanged when full. |
| Stacks.Stack.Push1 | src/tinyvm.rs:26-28 | A byte push is the word push of the same value. |
| Stacks.Stack.Pop | src/tinyvm.rs:30-37 | An empty stack yields None and is unchanged. Otherwise the top word is returned and the contents lose their last element, matching `Words.Pop`. |
| Stacks.Stack.Swap | src/tinyvm.rs:39-41 | With at least two words, the contents become `SwapTop` of the old contents. |
| Vm.Step | src/tinyvm.rs:82-130 | One opcode never changes the length of storage, and changes its contents only through SSTORE. It keeps the stack within 1024 words. It halts exactly on RETURN. It underflows exactly when DUP1, SLOAD or ISZERO meet an empty stack, or SWAP1 or SSTORE meet fewer than two words. It is out of range exactly when SLOAD or SSTORE has its operands and the truncated key is not below the slot count. |
| Vm.Exec | src/tinyvm.rs:79-133 | A run that finishes stops at a pc between the start and the program's end. It keeps the number of storage slots and the stack bound. |
| Vm.IsZeroStep | src/tinyvm.rs:121-129 | ISZERO replaces the top word with 1 if it was 0 and with 0 otherwise. |
| Vm.IsZeroTwice | src/tinyvm.rs:121-129 | Two ISZEROs normalise the top word to a boolean (1 iff it was non-zero). |
| Vm.Dup1Step | src/tinyvm.rs:95-100 | DUP1 duplicates the top word when there is room. |
| Vm.SstoreStep | src/tinyvm.rs:111-116 | SSTORE pops key then value and writes the value at that slot alone. It faults for a key outside the slots. |
| Vm.SloadStep | src/tinyvm.rs:105-110 | SLOAD replaces the key on top with the stored word. It faults for a key outside the slots. |
| Vm.ReturnCutsOff | src/tinyvm.rs:117-120 | Code after a RETURN that is reached is never executed: appending to the program changes nothing. |
| Vm.StopsAtFirstReturn | src/tinyvm.rs:79-133 | A run ends at the first RETURN, whatever follows it. |
| Vm.ExecAppend | src/tinyvm.rs:79-133 | A RETURN-free prefix either faults or runs to its end, and the rest of the program continues from the state it left. |
| Vm.NoReturnRunsAll | src/tinyvm.rs:79-133 | A program without RETURN is the straight-line composition of its steps and finishes at its end. |
| Vm.VM.constructor | src/tinyvm.rs:70-77 | A new VM holds the program, an empty fresh stack and pc 0. |
| Vm.VM.Execute | src/tinyvm.rs:82-130 | Executing one opcode on the stack and slots does exactly what `Step` says: it continues, halts or aborts with the matching fault and contents. |
| Vm.VM.Run | src/tinyvm.rs:79-133 | The loop returns the final storage, and leaves the stack and pc, exactly as `Exec` from the current pc and stack predicts. A panic is a `Panicked` fault. |
| Contracts.PopReturns | src/tinyvm.rs:158-172 | The values read back are `DecodeReturns` of the stack: one pop per declared return, with a literal only for bool returns. |
| Contracts.DecodeReturnsShape | src/tinyvm.rs:158-172 | At most one value per declared return, every value is a bool literal, and an empty stack yields none. |
| Contracts.DecodeReturnsBools | src/tinyvm.rs:158-172 | With only bool returns and enough words, the i-th value is `word == 1` for the i-th word from the top. |
| Contracts.Contract.Call | src/tinyvm.rs:152-190 | The imperative call (fresh VM, run, pop returns) yields exactly `CallOutcome`. |
| Contracts.CallUnknownSelector | src/tinyvm.rs:188 | An unknown selector returns the contract unchanged with no values. |
| Contracts.CallKeepsShape | src/tinyvm.rs:174-186 | A call never changes the name, function table, variable map or storage size. All its values are bool literals. |
| Contracts.CallStorage | src/tinyvm.rs:174-186 | A finished run commits its storage, except for view and pure functions, which keep the old storage. |
| Selector.DigitValue | src/tinyvm.rs:404 | A character has a hex value exactly when it is a lower-case hex digit, and that value renders back to it. |
| Selector.HexEncode | src/tinyvm.rs:401-405 | `{:02x}` formatting gives two lower-case hex digits per byte. |
| Selector.HexRoundTrip | src/tinyvm.rs:400-406 | The hex rendering of bytes decodes back to the same bytes. |
| Selector.SelectorShape | src/tinyvm.rs:400-406 | Every selector is eight lower-case hex digits. |
| Selector.SelectorsEqualIff | src/tinyvm.rs:400-406 | Two signatures get the same selector if and only if their digests agree on the first four bytes. |
| Codegen.ExpressionHasNoReturn | src/tinyvm.rs:348-377 | Lowering an expression never emits RETURN. |
| Codegen.StatementReturnsLast | src/tinyvm.rs:330-338 | A `return` statement's code ends with its only RETURN. An expression statement's code has none. |
| Codegen.ResolveVisibilityPicksLast | src/tinyvm.rs:300-328 | The visibility is the last visibility attribute's, or Internal when there is none. |
| Codegen.ResolveMutabilityPicksLast | src/tinyvm.rs:300-328 | The mutability is the last mutability attribute's, or Nonpayable when there is none. |
| Codegen.HandleAttrs | src/tinyvm.rs:300-328 | The loop over the attribute list computes `ResolveAttrs`. |
| Codegen.CollectAllMissing | src/tinyvm.rs:388 | Collecting the keywords fails as soon as one parameter has no keyword. |
| Codegen.SignatureForm | src/tinyvm.rs:379-396 | With only bool parameters the signature is `name(bool,...,bool)`. With no list, or any other parameter type, it is `name()`. |
| Codegen.CreateContractsLayout | src/tinyvm.rs:220-298 | One contract per contract definition, in order. Each has the definition's name, one zero slot per state-variable definition, exactly the defined variables, and exactly the selectors of its function definitions that have a body. |
| Codegen.SelectorsOfDefined | src/tinyvm.rs:258-283 | A selector is among the collected ones exactly when some part is a function definition with a body and that selector. |
| Codegen.FunctionTableKeys | src/tinyvm.rs:246-298 | After a contract's parts are handled, the function table's keys are exactly the selectors of the function definitions with a body. Definitions without a body, variables and constructors add none. |
| Codegen.FunctionTableEntry | src/tinyvm.rs:258-283 | A selector holds its last definition, compiled against the contract as it stood before that definition: its resolved attributes, its return list and its lowered body. |
| Codegen.SlotAllocation | src/tinyvm.rs:285-290 | After a contract's parts are handled, storage holds one zero word per variable definition. The variable map's keys are exactly the defined names. Each name maps to the slot of its last definition. |
| Codegen.VariableSlot | src/tinyvm.rs:340-346 | A defined name resolves to its slot cut to 8 bits. An undefined name resolves to slot 0. |
| LoweringCorrect.LowerValuedCorrect | src/tinyvm.rs:348-377 | The code for a variable read or a `!`-expression runs to its end and pushes exactly that expression's value. |
| LoweringCorrect.LowerAssignCorrect | src/tinyvm.rs:357-368 | The code for `x = e;` runs to its end, leaves the stack as it was and stores e's value at x's slot. |
| LoweringCorrect.StoreTail | src/tinyvm.rs:360-363 | The trailing `PUSH1 slot; SSTORE` stores the value below it at that slot. |
| LoweringCorrect.LowerReturnCorrect | src/tinyvm.rs:333-336 | The code for `return e;` halts with e's value pushed. |
| LoweringCorrect.LiteralAssignmentFaults | src/tinyvm.rs:350-352 | A literal lowers to no code, so `x = true;` on an empty stack faults in SSTORE. |
| LoweringCorrect.CallCommitsAssignment | src/tinyvm.rs:152-190 | Calling a compiled `x = e;` commits `x := e` unless the function is view or pure, and returns no values. |
| LoweringCorrect.CallReturnsValue | src/tinyvm.rs:152-190 | Calling a compiled `return e;` keeps the contract. A single bool return gives `[e == 1]`. |
| Flipper.FlipperAttrs | src/main.rs:52-81 | `public` resolves to (Public, Nonpayable) and `public view` to (Public, View). |
| Flipper.FlipperParts | src/tinyvm.rs:246-298 | Each flipper part updates the contract as expected. The variable gets slot 0, the constructor adds nothing, and `flip` and `get` are compiled under their selectors. |
| Flipper.CompiledFlipper | src/tinyvm.rs:233-244 | The flipper contract compiles to `flip: PUSH1 0; SLOAD; ISZERO; PUSH1 0; SSTORE` and `get: PUSH1 0; SLOAD; RETURN`. |
| Flipper.CreateFlipper | src/tinyvm.rs:220-231 | The source unit yields exactly that one contract, with storage [0]. |
| Flipper.GetReadsValue | src/main.rs:69-76 | `get()` returns `value == 1` and keeps the contract. |
| Flipper.FlipNegatesValue | src/main.rs:66-67 | `flip()` stores the negation of the flag and returns nothing, given distinct selectors. |
| Flipper.FlipThenGet | src/main.rs:52-81 | End to end, and given distinct selectors: a fresh flipper reads false, `flip()` sets the flag to 1, and `get()` then answers `true`. |

## Left out

- Keccak-256 is a parameter, not an implementation. That the input string is hashed as its UTF-8 bytes is not modelled.
- The parser (`src/solidity.rs`'s grammar actions), file reading and printing in `src/main.rs` are outside the core. The flipper AST is written out by hand because `contracts/flipper.sol` is not part of this model.
- The VM's `calldata` field is stored by `VM::new` but never read, so it is not modelled.
- `HashMap` iteration order and hashing are not modelled. Maps are Dafny `map`s.
- The `&mut Contract` that the code generator threads through is modelled as a value passed in and returned. It is an exclusive borrow, so no aliasing is lost.
- Constructor bodies are lowered and the code is discarded (`src/tinyvm.rs:291-296`), so a state variable's initial value is always 0. The model does the same: the constructor's `value = false;` never runs.
- Words.AsUsize: assumes a 64-bit `usize`. A key at or above 2^64 wraps modulo 2^64, exactly as the source does on a 64-bit target, so key 2^64 reads and writes slot 0. Only a narrower `usize` would behave differently.
- `handle_source_unit_part`'s fallback arm is unreachable in this grammar, which has only contract definitions, so `HandleSourceUnitPart` always returns a contract.
- Array cells above `top` keep stale values. The model never reads them, and `Contents()` is only `arr[..top]`.
- Vm.Step: a `POP` on an empty stack is not a fault (the `Option` is discarded), as in the source. DUP1, SWAP1, SLOAD, SSTORE and ISZERO fault on too short a stack. For SWAP1 that is the Rust index underflow panic.
- Function parameters and the expression kinds the source ignores (literals, type names, assignments to non-variables) lower to no code, exactly as written. Correctness lemmas cover only expressions that produce a value.
