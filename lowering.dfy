/**
 * What lowered code does when it runs. A variable read or a chain of `!`
 * over one leaves exactly its value on top of the stack; `x = e` stores the
 * value of `e` into the slot of `x`, which needs SSTORE to find the slot on
 * top and the value beneath it; `return e;` leaves the value on the stack
 * for the caller to decode.
 *
 * Boolean literals and type names lower to no code at all, so they leave no
 * value behind; the theorems are stated for the expressions that do.
 */
module LoweringCorrect {
  import opened Wrappers
  import opened Words
  import opened Vm
  import opened Grammar
  import opened Contracts
  import opened Codegen

  /** Expressions whose code pushes exactly one word: variable reads and their negations. */
  predicate Valued(e: Expression)
  {
    match e
    case Variable(_) => true
    case Not(operand) => Valued(operand)
    case _ => false
  }

  /** Every slot the expression's code touches lies inside a storage of `size` slots. */
  predicate SlotsInRange(e: Expression, c: Contract, size: nat)
  {
    match e
    case Variable(id) => GetVariableSlot(id.name, c) < size
    case Not(operand) => SlotsInRange(operand, c, size)
    case Assign(left, right) =>
      (left.Variable? ==> GetVariableSlot(left.id.name, c) < size) && SlotsInRange(right, c, size)
    case _ => true
  }

  /** Meaning of a valued expression: a variable is its slot's word, `!` turns 0 into 1 and anything else into 0. */
  function Eval(e: Expression, c: Contract, storage: seq<Word>): Word
    requires Valued(e) && SlotsInRange(e, c, |storage|)
  {
    match e
    case Variable(id) => storage[GetVariableSlot(id.name, c)]
    case Not(operand) => IsZero(Eval(operand, c, storage))
  }

  /** Running the code of a valued expression pushes its value and leaves storage alone. */
  lemma {:induction false} LowerValuedCorrect(e: Expression, c: Contract, stack: seq<Word>, storage: seq<Word>)
    requires Valued(e) && SlotsInRange(e, c, |storage|)
    requires |stack| < Capacity
    ensures
      var code := HandleExpression(e, c);
      Exec(code, 0, Machine(stack, storage)) == Finished(Machine(stack + [Eval(e, c, storage)], storage), |code|)
  {
    var code := HandleExpression(e, c);
    match e
    case Variable(id) =>
      var k := GetVariableSlot(id.name, c);
      assert code == [PUSH1(k), SLOAD];
      assert Exec(code, 0, Machine(stack, storage)) == Exec(code, 1, Machine(stack + [k], storage));
      SloadStep(stack, k, storage);
      assert Exec(code, 1, Machine(stack + [k], storage)) == Exec(code, 2, Machine(stack + [storage[k]], storage));
    case Not(operand) =>
      var inner := HandleExpression(operand, c);
      assert code == inner + [ISZERO];
      ExpressionHasNoReturn(operand, c);
      LowerValuedCorrect(operand, c, stack, storage);
      ExecAppend(inner, [ISZERO], 0, Machine(stack, storage));
      var v := Eval(operand, c, storage);
      assert code[|inner|] == ISZERO;
      IsZeroStep(stack, v, storage);
      assert Exec(code, |inner|, Machine(stack + [v], storage))
          == Exec(code, |inner| + 1, Machine(stack + [IsZero(v)], storage));
  }

  /** `x = e;` writes the value of `e` into the slot of `x`, touches no other slot and leaves the stack as it was. */
  lemma LowerAssignCorrect(x: Identifier, e: Expression, c: Contract, stack: seq<Word>, storage: seq<Word>)
    requires Valued(e) && SlotsInRange(e, c, |storage|) && GetVariableSlot(x.name, c) < |storage|
    requires |stack| + 2 <= Capacity
    ensures
      var code := HandleStatement(ExpressionStatement(Assign(Variable(x), e)), c);
      var k := GetVariableSlot(x.name, c);
      Exec(code, 0, Machine(stack, storage)) == Finished(Machine(stack, storage[k := Eval(e, c, storage)]), |code|)
  {
    var code := HandleStatement(ExpressionStatement(Assign(Variable(x), e)), c);
    var inner := HandleExpression(e, c);
    var k := GetVariableSlot(x.name, c);
    var v := Eval(e, c, storage);
    assert code == inner + [PUSH1(k), SSTORE];
    ExpressionHasNoReturn(e, c);
    LowerValuedCorrect(e, c, stack, storage);
    ExecAppend(inner, [PUSH1(k), SSTORE], 0, Machine(stack, storage));
    StoreTail(code, |inner|, stack, v, k, storage);
  }

  /** The `PUSH1 k; SSTORE` that ends an assignment moves the value under it into slot `k`. */
  lemma StoreTail(code: seq<Op>, at: nat, stack: seq<Word>, v: Word, k: Byte, storage: seq<Word>)
    requires at + 2 == |code| && code[at] == PUSH1(k) && code[at + 1] == SSTORE
    requires k < |storage| && |stack| + 2 <= Capacity
    ensures Exec(code, at, Machine(stack + [v], storage)) == Finished(Machine(stack, storage[k := v]), |code|)
  {
    assert Exec(code, at, Machine(stack + [v], storage))
        == Exec(code, at + 1, Machine(stack + [v] + [k], storage));
    assert stack + [v] + [k] == stack + [v, k];
    SstoreStep(stack, v, k, storage);
  }

  /** `return e;` halts with the value of `e` on top of the stack and storage unchanged. */
  lemma LowerReturnCorrect(e: Expression, c: Contract, stack: seq<Word>, storage: seq<Word>)
    requires Valued(e) && SlotsInRange(e, c, |storage|)
    requires |stack| < Capacity
    ensures
      var code := HandleStatement(Return(Some(e)), c);
      Exec(code, 0, Machine(stack, storage)) == Finished(Machine(stack + [Eval(e, c, storage)], storage), |code|)
  {
    var code := HandleStatement(Return(Some(e)), c);
    var inner := HandleExpression(e, c);
    assert code == inner + [RETURN];
    ExpressionHasNoReturn(e, c);
    LowerValuedCorrect(e, c, stack, storage);
    ExecAppend(inner, [RETURN], 0, Machine(stack, storage));
    assert code[|inner|] == RETURN;
  }

  /**
   * Boolean literals are not materialised: `x = true;` lowers to the slot push
   * and SSTORE alone, so run on an empty stack SSTORE finds no value beneath
   * the slot and the run faults.
   */
  lemma LiteralAssignmentFaults(x: Identifier, b: bool, c: Contract, storage: seq<Word>)
    ensures HandleStatement(ExpressionStatement(Assign(Variable(x), BoolLiteral(b))), c)
         == [PUSH1(GetVariableSlot(x.name, c)), SSTORE]
    ensures Exec(HandleStatement(ExpressionStatement(Assign(Variable(x), BoolLiteral(b))), c), 0, Machine([], storage))
         == Faulted(StackUnderflow)
  {
    var code := HandleStatement(ExpressionStatement(Assign(Variable(x), BoolLiteral(b))), c);
    var k := GetVariableSlot(x.name, c);
    assert HandleExpression(BoolLiteral(b), c) == [];
    assert code == [] + [PUSH1(k), SSTORE];
    assert Exec(code, 0, Machine([], storage)) == Exec(code, 1, Machine([k], storage));
  }

  /**
   * Calling a compiled `x = e;` commits the new value of `x`'s slot, and only
   * that slot, unless the function is view or pure; it returns nothing.
   */
  lemma CallCommitsAssignment(c: Contract, selector: string, x: Identifier, e: Expression, compiledIn: Contract)
    requires selector in c.functions
    requires c.functions[selector].program == HandleStatement(ExpressionStatement(Assign(Variable(x), e)), compiledIn)
    requires Valued(e) && SlotsInRange(e, compiledIn, |c.storage|) && GetVariableSlot(x.name, compiledIn) < |c.storage|
    ensures
      var f := c.functions[selector];
      var k := GetVariableSlot(x.name, compiledIn);
      c.CallOutcome(selector) == Called(
        c.(storage := if IsViewOrPure(f.mutability) then c.storage else c.storage[k := Eval(e, compiledIn, c.storage)]),
        [])
  {
    LowerAssignCorrect(x, e, compiledIn, [], c.storage);
    DecodeReturnsShape([], c.functions[selector].returnParams);
  }

  /**
   * Calling a compiled `return e;` leaves storage unchanged and decodes the
   * value of `e`: a single boolean return is true exactly when that value is 1.
   */
  lemma CallReturnsValue(c: Contract, selector: string, e: Expression, compiledIn: Contract)
    requires selector in c.functions
    requires c.functions[selector].program == HandleStatement(Return(Some(e)), compiledIn)
    requires Valued(e) && SlotsInRange(e, compiledIn, |c.storage|)
    ensures
      var f := c.functions[selector];
      c.CallOutcome(selector) == Called(c, DecodeReturns([Eval(e, compiledIn, c.storage)], f.returnParams))
    ensures
      var f := c.functions[selector];
      |f.returnParams| == 1 && IsBoolParam(f.returnParams[0]) ==>
        c.CallOutcome(selector).values == [BoolLiteral(Eval(e, compiledIn, c.storage) == 1)]
  {
    var f := c.functions[selector];
    var v := Eval(e, compiledIn, c.storage);
    LowerReturnCorrect(e, compiledIn, [], c.storage);
    assert c.(storage := c.storage) == c;
    assert c.CallOutcome(selector) == Called(c, DecodeReturns([v], f.returnParams));
    if |f.returnParams| == 1 && IsBoolParam(f.returnParams[0]) {
      DecodeReturnsBools([v], f.returnParams);
    }
  }
}
