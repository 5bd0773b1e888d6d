/**
 * Compiled contracts and the call protocol (`Contract::call`).
 *
 * A contract is a value: `call` never changes its receiver and hands back a
 * new contract whose storage is the VM's result storage, or the old storage
 * when the function is `view` or `pure`.
 */
module Contracts {
  import opened Wrappers
  import opened Words
  import opened Vm
  import opened Grammar
  import opened Stacks

  datatype FuncVisibility = Public | Private | Internal | External

  datatype FuncMutability = Constant | Nonpayable | Payable | View | Pure

  /** A compiled function: its code, attributes and declared return parameters. */
  datatype Function = Function(
    program: seq<Op>,
    visibility: FuncVisibility,
    mutability: FuncMutability,
    returnParams: seq<Parameter>)

  datatype CallResult = Called(contract: Contract, values: seq<Expression>) | Aborted(fault: Fault)

  predicate IsViewOrPure(m: FuncMutability)
  {
    m == FuncMutability.View || m == FuncMutability.Pure
  }

  /** Only `Type(Bool)` parameters are decoded. */
  predicate IsBoolParam(p: Parameter)
  {
    p.ty == TypeName(Bool)
  }

  /**
   * Return decoding: one pop per declared return parameter, in declared order;
   * a popped word becomes `BoolLiteral(word == 1)` when the parameter is
   * boolean and is dropped otherwise; a pop on an empty stack yields nothing.
   */
  function DecodeReturns(stack: seq<Word>, params: seq<Parameter>): seq<Expression>
    decreases |params|
  {
    if params == [] then []
    else
      match Words.Pop(stack)
      case None => DecodeReturns(stack, params[1..])
      case Some((w, rest)) =>
        (if IsBoolParam(params[0]) then [BoolLiteral(w == 1)] else []) + DecodeReturns(rest, params[1..])
  }

  /** The return-reading loop of `call`: pops the VM's stack once per declared return parameter. */
  method PopReturns(stack: Stack, params: seq<Parameter>) returns (ret: seq<Expression>)
    requires stack.Valid()
    modifies stack
    ensures stack.Valid()
    ensures ret == DecodeReturns(old(stack.Contents()), params)
  {
    ret := [];
    var i := 0;
    while i < |params|
      invariant 0 <= i <= |params|
      invariant stack.Valid()
      invariant ret + DecodeReturns(stack.Contents(), params[i..]) == DecodeReturns(old(stack.Contents()), params)
    {
      var popped := stack.Pop();
      assert params[i..][1..] == params[i + 1..];
      if popped.Some? && IsBoolParam(params[i]) {
        ret := ret + [BoolLiteral(popped.value == 1)];
      }
      i := i + 1;
    }
  }

  datatype Contract = Contract(
    name: string,
    functions: map<string, Function>,
    variableMap: map<string, nat>,
    storage: seq<Word>)
  {
    /** What `call` returns for `calldata` (a selector). */
    function CallOutcome(calldata: string): CallResult
    {
      if calldata !in functions then Called(this, [])
      else
        var f := functions[calldata];
        match Run(f.program, storage)
        case Faulted(e) => Aborted(e)
        case Finished(m, _) =>
          Called(
            this.(storage := if IsViewOrPure(f.mutability) then storage else m.storage),
            DecodeReturns(m.stack, f.returnParams))
    }

    /** `Contract::call`: look the selector up, run its code on a copy of storage, decode the stack. */
    method Call(calldata: string) returns (r: CallResult)
      ensures r == CallOutcome(calldata)
    {
      if calldata !in functions {
        return Called(this, []);
      }
      var f := functions[calldata];
      var vm := new VM(f.program);
      var out := vm.Run(storage);
      if out.Panicked? {
        return Aborted(out.fault);
      }
      var ret := PopReturns(vm.stack, f.returnParams);
      var newStorage := if IsViewOrPure(f.mutability) then storage else out.storage;
      r := Called(this.(storage := newStorage), ret);
    }
  }

  // ---------------------------------------------------------------------
  // Properties of the call protocol

  /** Decoding yields at most one value per declared return parameter, each a boolean literal. */
  lemma {:induction false} DecodeReturnsShape(stack: seq<Word>, params: seq<Parameter>)
    ensures |DecodeReturns(stack, params)| <= |params|
    ensures forall v :: v in DecodeReturns(stack, params) ==> v.BoolLiteral?
    ensures stack == [] ==> DecodeReturns(stack, params) == []
    decreases |params|
  {
    if params != [] {
      match Words.Pop(stack)
      case None => DecodeReturnsShape(stack, params[1..]);
      case Some((w, rest)) => DecodeReturnsShape(rest, params[1..]);
    }
  }

  /**
   * When every declared return is boolean and the stack holds enough words,
   * the i-th value is decoded from the i-th word below the top: true exactly when it is 1.
   */
  lemma {:induction false} DecodeReturnsBools(stack: seq<Word>, params: seq<Parameter>)
    requires forall p :: p in params ==> IsBoolParam(p)
    requires |params| <= |stack|
    ensures |DecodeReturns(stack, params)| == |params|
    ensures forall i :: 0 <= i < |params| ==>
      DecodeReturns(stack, params)[i] == BoolLiteral(stack[|stack| - 1 - i] == 1)
    decreases |params|
  {
    if params != [] {
      var rest := stack[..|stack| - 1];
      assert params[0] in params;
      assert forall p :: p in params[1..] ==> p in params;
      DecodeReturnsBools(rest, params[1..]);
      var d := DecodeReturns(stack, params);
      assert d == [BoolLiteral(stack[|stack| - 1] == 1)] + DecodeReturns(rest, params[1..]);
      forall i | 1 <= i < |params|
        ensures d[i] == BoolLiteral(stack[|stack| - 1 - i] == 1)
      {
        assert d[i] == DecodeReturns(rest, params[1..])[i - 1];
        assert rest[|rest| - 1 - (i - 1)] == stack[|stack| - 1 - i];
      }
    }
  }

  /** An unknown selector is a no-op: the contract comes back unchanged with no values. */
  lemma CallUnknownSelector(c: Contract, calldata: string)
    requires calldata !in c.functions
    ensures c.CallOutcome(calldata) == Called(c, [])
  {
  }

  /**
   * A call that completes keeps the contract's name, functions and variable map,
   * keeps the number of storage slots, and returns at most one boolean per declared return.
   */
  lemma CallKeepsShape(c: Contract, calldata: string)
    requires c.CallOutcome(calldata).Called?
    ensures
      var c' := c.CallOutcome(calldata).contract;
      c'.name == c.name && c'.functions == c.functions && c'.variableMap == c.variableMap
      && |c'.storage| == |c.storage|
    ensures calldata in c.functions ==>
      |c.CallOutcome(calldata).values| <= |c.functions[calldata].returnParams|
    ensures forall v :: v in c.CallOutcome(calldata).values ==> v.BoolLiteral?
  {
    if calldata in c.functions {
      var f := c.functions[calldata];
      DecodeReturnsShape(Run(f.program, c.storage).m.stack, f.returnParams);
    }
  }

  /**
   * Commit or discard: a view or pure function leaves storage exactly as it was,
   * whatever its code writes; any other function commits the VM's final storage.
   */
  lemma CallStorage(c: Contract, calldata: string)
    requires calldata in c.functions
    requires Run(c.functions[calldata].program, c.storage).Finished?
    ensures c.CallOutcome(calldata).Called?
    ensures
      var f := c.functions[calldata];
      c.CallOutcome(calldata).contract.storage ==
        if IsViewOrPure(f.mutability) then c.storage else Run(f.program, c.storage).m.storage
  {
  }
}
