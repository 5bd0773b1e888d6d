/**
 * The opcode set and the interpreter of `src/tinyvm.rs`.
 *
 * `Step` and `Exec` are the small-step semantics on values (an abstract
 * stack and a storage snapshot); the class `VM` is the interpreter itself,
 * a fetch-execute loop over `pc` that updates a `Stack` object in place, and
 * `VM.Run` is proved to compute exactly what `Exec` says.
 *
 * A panic of the source (an `unwrap` of an empty pop, a `swap` below two
 * words, an out-of-range storage index) is a `Fault` here.
 */
module Vm {
  import opened Wrappers
  import opened Words
  import opened Stacks

  datatype Op =
    | PUSH32(word: Word)
    | PUSH1(byte: Byte)
    | POP
    | DUP1
    | SWAP1
    | SLOAD
    | SSTORE
    | ISZERO
    | RETURN

  /** Why a run was aborted. */
  datatype Fault = StackUnderflow | StorageOutOfRange

  /** The observable state of a run: operand stack (top last) and storage slots. */
  datatype Machine = Machine(stack: seq<Word>, storage: seq<Word>)

  datatype StepResult = Next(m: Machine) | Halt(m: Machine) | Trap(fault: Fault)

  /** A run either ends (program exhausted or RETURN) with a state and a pc, or faults. */
  datatype RunResult = Finished(m: Machine, pc: nat) | Faulted(fault: Fault)

  /** What `VM.Run` hands back: the storage it ends with, or the fault that aborted it. */
  datatype RunOutcome = Completed(storage: seq<Word>) | Panicked(fault: Fault)

  /** What one iteration of the interpreter loop tells the loop. */
  datatype Status = Continue | Stop | Abort(fault: Fault)

  function IsZero(w: Word): Word
  {
    if w == 0 then 1 else 0
  }

  /** One instruction. Only SSTORE writes storage and only RETURN halts. */
  function Step(op: Op, m: Machine): (r: StepResult)
    ensures !r.Trap? ==> |r.m.storage| == |m.storage|
    ensures !r.Trap? && op != SSTORE ==> r.m.storage == m.storage
    ensures !r.Trap? && |m.stack| <= Capacity ==> |r.m.stack| <= Capacity
    ensures r.Halt? <==> op == RETURN
    ensures r == Trap(StackUnderflow) <==>
      (op in {DUP1, SLOAD, ISZERO} && |m.stack| == 0) || (op in {SWAP1, SSTORE} && |m.stack| < 2)
    ensures r == Trap(StorageOutOfRange) <==>
      ((op == SLOAD && |m.stack| >= 1) || (op == SSTORE && |m.stack| >= 2))
      && AsUsize(m.stack[|m.stack| - 1]) >= |m.storage|
  {
    var s := m.stack;
    match op
    case PUSH32(w) => Next(m.(stack := Push(s, w)))
    case PUSH1(b) => Next(m.(stack := Push(s, b)))
    case POP => Next(m.(stack := if |s| == 0 then s else s[..|s| - 1]))
    case DUP1 =>
      if |s| == 0 then Trap(StackUnderflow)
      else
        var w := s[|s| - 1];
        Next(m.(stack := Push(Push(s[..|s| - 1], w), w)))
    case SWAP1 =>
      if |s| < 2 then Trap(StackUnderflow)
      else Next(m.(stack := SwapTop(s)))
    case SLOAD =>
      if |s| == 0 then Trap(StackUnderflow)
      else
        var key := AsUsize(s[|s| - 1]);
        if key >= |m.storage| then Trap(StorageOutOfRange)
        else Next(m.(stack := Push(s[..|s| - 1], m.storage[key])))
    case SSTORE =>
      if |s| < 2 then Trap(StackUnderflow)
      else
        var key := AsUsize(s[|s| - 1]);
        var value := s[|s| - 2];
        if key >= |m.storage| then Trap(StorageOutOfRange)
        else Next(Machine(s[..|s| - 2], m.storage[key := value]))
    case ISZERO =>
      if |s| == 0 then Trap(StackUnderflow)
      else Next(m.(stack := Push(s[..|s| - 1], IsZero(s[|s| - 1]))))
    case RETURN => Halt(m)
  }

  /** The fetch-execute loop from `pc`: stops when the program is exhausted or right after a RETURN. */
  function Exec(program: seq<Op>, pc: nat, m: Machine): (r: RunResult)
    requires pc <= |program|
    ensures r.Finished? ==> pc <= r.pc <= |program|
    ensures r.Finished? ==> |r.m.storage| == |m.storage|
    ensures r.Finished? && |m.stack| <= Capacity ==> |r.m.stack| <= Capacity
    decreases |program| - pc
  {
    if pc == |program| then Finished(m, pc)
    else
      match Step(program[pc], m)
      case Next(m') => Exec(program, pc + 1, m')
      case Halt(m') => Finished(m', pc + 1)
      case Trap(f) => Faulted(f)
  }

  /** A whole run from the first instruction. */
  function Run(program: seq<Op>, storage: seq<Word>): RunResult
  {
    Exec(program, 0, Machine([], storage))
  }

  /** Straight-line semantics: every opcode of `ops` applied once, in order. */
  function RunAll(ops: seq<Op>, m: Machine): RunResult
  {
    if ops == [] then Finished(m, 0)
    else
      match RunAll(ops[..|ops| - 1], m)
      case Faulted(f) => Faulted(f)
      case Finished(m1, k) =>
        match Step(ops[|ops| - 1], m1)
        case Next(m2) => Finished(m2, k + 1)
        case Halt(m2) => Finished(m2, k + 1)
        case Trap(f) => Faulted(f)
  }

  // ---------------------------------------------------------------------
  // Per-opcode facts

  /** ISZERO maps 0 to 1 and every non-zero word to 0, keeping the depth. */
  lemma IsZeroStep(s: seq<Word>, w: Word, storage: seq<Word>)
    requires |s| < Capacity
    ensures Step(ISZERO, Machine(s + [w], storage))
         == Next(Machine(s + [if w == 0 then 1 else 0], storage))
  {
    assert (s + [w])[..|s|] == s;
  }

  /** Two ISZEROs normalise a word to the two-valued domain {0, 1}. */
  lemma IsZeroTwice(s: seq<Word>, w: Word, storage: seq<Word>)
    requires |s| < Capacity
    ensures
      var once := Step(ISZERO, Machine(s + [w], storage));
      once.Next? && Step(ISZERO, once.m) == Next(Machine(s + [if w == 0 then 0 else 1], storage))
  {
    IsZeroStep(s, w, storage);
    IsZeroStep(s, if w == 0 then 1 else 0, storage);
  }

  /** DUP1 below capacity leaves two copies of the former top: depth grows by one. */
  lemma Dup1Step(s: seq<Word>, w: Word, storage: seq<Word>)
    requires |s| + 1 < Capacity
    ensures Step(DUP1, Machine(s + [w], storage)) == Next(Machine(s + [w, w], storage))
  {
    assert (s + [w])[..|s|] == s;
  }

  /** SSTORE pops the key, then the value, and writes only that slot. */
  lemma SstoreStep(s: seq<Word>, value: Word, key: Word, storage: seq<Word>)
    ensures
      var r := Step(SSTORE, Machine(s + [value, key], storage));
      if AsUsize(key) < |storage| then
        r == Next(Machine(s, storage[AsUsize(key) := value]))
        && |r.m.storage| == |storage|
        && r.m.storage[AsUsize(key)] == value
        && (forall i :: 0 <= i < |storage| && i != AsUsize(key) ==> r.m.storage[i] == storage[i])
      else r == Trap(StorageOutOfRange)
  {
    assert (s + [value, key])[..|s|] == s;
  }

  /** SLOAD replaces the key on top by the slot it names and leaves storage alone. */
  lemma SloadStep(s: seq<Word>, key: Word, storage: seq<Word>)
    requires |s| < Capacity
    ensures
      var r := Step(SLOAD, Machine(s + [key], storage));
      if AsUsize(key) < |storage| then r == Next(Machine(s + [storage[AsUsize(key)]], storage))
      else r == Trap(StorageOutOfRange)
  {
    assert (s + [key])[..|s|] == s;
  }

  // ---------------------------------------------------------------------
  // Whole-run facts

  /** Once a RETURN lies ahead of `pc`, opcodes appended after the program are never reached. */
  lemma {:induction false} ReturnCutsOff(p: seq<Op>, q: seq<Op>, pc: nat, m: Machine)
    requires pc <= |p|
    requires exists i :: pc <= i < |p| && p[i] == RETURN
    ensures Exec(p + q, pc, m) == Exec(p, pc, m)
    decreases |p| - pc
  {
    assert (p + q)[pc] == p[pc];
    match Step(p[pc], m)
    case Next(m') =>
      assert p[pc] != RETURN;
      var i :| pc <= i < |p| && p[i] == RETURN;
      assert pc + 1 <= i;
      ReturnCutsOff(p, q, pc + 1, m');
    case Halt(m') =>
    case Trap(f) =>
  }

  /** A run stops right after its first RETURN: whatever follows it has no effect. */
  lemma StopsAtFirstReturn(p: seq<Op>, k: nat, q: seq<Op>, storage: seq<Word>)
    requires k < |p| && p[k] == RETURN
    ensures Run(p[..k + 1] + q, storage) == Run(p[..k + 1], storage)
    ensures Run(p, storage) == Run(p[..k + 1], storage)
  {
    ReturnCutsOff(p[..k + 1], q, 0, Machine([], storage));
    ReturnCutsOff(p[..k + 1], p[k + 1..], 0, Machine([], storage));
    assert p[..k + 1] + p[k + 1..] == p;
  }

  /** Running a RETURN-free prefix and then the rest is the same as running both. */
  lemma {:induction false} ExecAppend(p: seq<Op>, q: seq<Op>, pc: nat, m: Machine)
    requires pc <= |p|
    requires forall i :: pc <= i < |p| ==> p[i] != RETURN
    ensures Exec(p, pc, m).Finished? ==> Exec(p, pc, m).pc == |p|
    ensures Exec(p + q, pc, m) ==
      match Exec(p, pc, m)
      case Finished(m', _) => Exec(p + q, |p|, m')
      case Faulted(f) => Faulted(f)
    decreases |p| - pc
  {
    if pc < |p| {
      assert (p + q)[pc] == p[pc];
      match Step(p[pc], m)
      case Next(m') => ExecAppend(p, q, pc + 1, m');
      case Halt(m') => assert false;
      case Trap(f) =>
    }
  }

  /** A program without RETURN runs every opcode exactly once, in order, and ends at its length. */
  lemma {:induction false} NoReturnRunsAll(p: seq<Op>, m: Machine)
    requires RETURN !in p
    ensures Exec(p, 0, m) == match RunAll(p, m)
      case Finished(m', k) => Finished(m', |p|)
      case Faulted(f) => Faulted(f)
    ensures RunAll(p, m).Finished? ==> RunAll(p, m).pc == |p|
    decreases |p|
  {
    if p != [] {
      var init, last := p[..|p| - 1], p[|p| - 1];
      assert p == init + [last];
      assert RETURN !in init by {
        forall i | 0 <= i < |init| ensures init[i] != RETURN { assert init[i] == p[i]; }
      }
      NoReturnRunsAll(init, m);
      ExecAppend(init, [last], 0, m);
    }
  }

  // ---------------------------------------------------------------------
  // The interpreter

  class VM {
    const stack: Stack
    const program: seq<Op>
    var pc: nat

    ghost predicate Valid()
      reads this, stack
    {
      stack.Valid() && pc <= |program|
    }

    /** `VM::new`: an empty stack and pc at the first instruction. */
    constructor (program: seq<Op>)
      ensures Valid() && fresh(stack) && fresh(stack.arr)
      ensures this.program == program && pc == 0 && stack.Contents() == []
    {
      stack := new Stack();
      this.program := program;
      pc := 0;
    }

    /**
     * One iteration of the fetch-execute loop of `VM::run`: performs `op` on the
     * stack and on the storage snapshot `slots`, and tells the loop whether to go
     * on, stop (RETURN) or abort.
     */
    method Execute(op: Op, slots: seq<Word>) returns (status: Status, slots': seq<Word>)
      requires stack.Valid()
      modifies stack, stack.arr
      ensures stack.Valid()
      ensures
        match Step(op, Machine(old(stack.Contents()), slots))
        case Next(m) => status == Continue && stack.Contents() == m.stack && slots' == m.storage
        case Halt(m) => status == Stop && stack.Contents() == m.stack && slots' == m.storage
        case Trap(f) => status == Abort(f)
    {
      slots' := slots;
      status := Continue;
      match op
      case PUSH32(w) =>
        stack.Push32(w);
      case PUSH1(b) =>
        stack.Push1(b);
      case POP =>
        var _ := stack.Pop();
      case DUP1 =>
        var v := stack.Pop();
        if v.None? {
          return Abort(StackUnderflow), slots;
        }
        stack.Push32(v.value);
        stack.Push32(v.value);
      case SWAP1 =>
        if stack.top < 2 {
          return Abort(StackUnderflow), slots;
        }
        stack.Swap();
      case SLOAD =>
        var key := stack.Pop();
        if key.None? {
          return Abort(StackUnderflow), slots;
        }
        var index := AsUsize(key.value);
        if index >= |slots| {
          return Abort(StorageOutOfRange), slots;
        }
        stack.Push32(slots[index]);
      case SSTORE =>
        var key := stack.Pop();
        if key.None? {
          return Abort(StackUnderflow), slots;
        }
        var value := stack.Pop();
        if value.None? {
          return Abort(StackUnderflow), slots;
        }
        var index := AsUsize(key.value);
        if index >= |slots| {
          return Abort(StorageOutOfRange), slots;
        }
        slots' := slots[index := value.value];
      case RETURN =>
        status := Stop;
      case ISZERO =>
        var top := stack.Pop();
        if top.None? {
          return Abort(StackUnderflow), slots;
        }
        if top.value == 0 {
          stack.Push32(1);
        } else {
          stack.Push32(0);
        }
    }

    /** `VM::run`: executes from the current pc over a storage snapshot and returns the final storage. */
    method Run(storage: seq<Word>) returns (r: RunOutcome)
      requires Valid()
      modifies this, stack, stack.arr
      ensures Valid()
      ensures
        var e := Exec(program, old(pc), Machine(old(stack.Contents()), storage));
        match e
        case Finished(m, pc') => r == Completed(m.storage) && stack.Contents() == m.stack && pc == pc'
        case Faulted(f) => r == Panicked(f)
    {
      ghost var e := Exec(program, pc, Machine(stack.Contents(), storage));
      var slots := storage;
      while pc < |program|
        invariant Valid()
        invariant Exec(program, pc, Machine(stack.Contents(), slots)) == e
        decreases |program| - pc
      {
        var status;
        status, slots := Execute(program[pc], slots);
        pc := pc + 1;
        match status
        case Continue =>
        case Stop =>
          break;
        case Abort(f) =>
          return Panicked(f);
      }
      r := Completed(slots);
    }
  }
}
