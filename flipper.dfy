/**
 * A reconstruction of the flipper contract that the repository's flip-then-get
 * test compiles (`src/main.rs:52-81`), as a syntax tree:
 *
 *   contract Flipper {
 *     bool value;
 *     constructor() public { value = false; }
 *     function flip() public { value = !value; }
 *     function get() public view returns (bool) { return value; }
 *   }
 *
 * Compiling it, calling `flip()` and then `get()` on the resulting contract
 * yields `[true]`; `get()` on the freshly compiled contract yields `[false]`.
 */
module Flipper {
  import opened Wrappers
  import opened Words
  import opened Vm
  import opened Grammar
  import opened Selector
  import opened Contracts
  import opened Codegen
  import opened LoweringCorrect

  const PublicAttr: Option<FunctionAttribute> := Some(VisibilityAttr(Visibility.Public))

  const ViewAttr: Option<FunctionAttribute> := Some(MutabilityAttr(Mutability.View))

  const Value: Identifier := Identifier("value")

  const FlipBody: Statement := ExpressionStatement(Assign(Variable(Value), Not(Variable(Value))))

  const GetBody: Statement := Return(Some(Variable(Value)))

  const GetReturns: seq<Parameter> := [Parameter(TypeName(Bool), None)]

  const Parts: seq<ContractPart> := [
    VariableDefinition(Bool, None, "value"),
    ConstructorDefinition(ParameterList(None), [PublicAttr], Some(ExpressionStatement(Assign(Variable(Value), BoolLiteral(false))))),
    FunctionDefinition("flip", ParameterList(None), [PublicAttr], None, Some(FlipBody)),
    FunctionDefinition("get", ParameterList(None), [PublicAttr, ViewAttr],
      Some(Returns(ParameterList(Some(Params(GetReturns))))), Some(GetBody))
  ]

  const Source: SourceUnit := SourceUnit([ContractDefinition("Flipper", Parts)])

  /** The contract right after `bool value;`: one zero slot, `value` bound to slot 0. */
  const AtVar: Contract := Contract("Flipper", map[], map["value" := 0], [0])

  function FlipFunction(): Function
  {
    Function(HandleStatement(FlipBody, AtVar), FuncVisibility.Public, FuncMutability.Nonpayable, [])
  }

  function GetFunction(): Function
  {
    Function(HandleStatement(GetBody, AtVar), FuncVisibility.Public, FuncMutability.View, GetReturns)
  }

  lemma FlipperAttrs()
    ensures ResolveAttrs([PublicAttr]) == (FuncVisibility.Public, FuncMutability.Nonpayable)
    ensures ResolveAttrs([PublicAttr, ViewAttr]) == (FuncVisibility.Public, FuncMutability.View)
  {
    assert [PublicAttr][..0] == [];
    assert [PublicAttr, ViewAttr][..1] == [PublicAttr];
  }

  lemma FlipperParts(keccak: Keccak)
    ensures HandleContractPart(Parts[0], NewContract("Flipper"), keccak) == AtVar
    ensures HandleContractPart(Parts[1], AtVar, keccak) == AtVar
    ensures HandleContractPart(Parts[2], AtVar, keccak)
         == AtVar.(functions := map[GetFuncSig(keccak, "flip()") := FlipFunction()])
    ensures HandleContractPart(Parts[3], AtVar.(functions := map[GetFuncSig(keccak, "flip()") := FlipFunction()]), keccak)
         == AtVar.(functions := map[GetFuncSig(keccak, "flip()") := FlipFunction()][GetFuncSig(keccak, "get()") := GetFunction()])
  {
    FlipperAttrs();
    assert CanonicalSignature("flip", ParameterList(None)) == "flip()";
    assert CanonicalSignature("get", ParameterList(None)) == "get()";
    assert ReturnParams(Parts[3].returnParams) == GetReturns;
  }

  /** The contract the generator produces: one zero slot for `value`, and `flip`/`get` keyed by their selectors. */
  lemma CompiledFlipper(keccak: Keccak)
    ensures HandleSourceUnitPart(Source.parts[0], keccak)
         == AtVar.(functions := map[GetFuncSig(keccak, "flip()") := FlipFunction()][GetFuncSig(keccak, "get()") := GetFunction()])
    ensures FlipFunction().program == [PUSH1(0), SLOAD, ISZERO, PUSH1(0), SSTORE]
    ensures GetFunction().program == [PUSH1(0), SLOAD, RETURN]
  {
    assert GetVariableSlot("value", AtVar) == 0;
    var c0 := NewContract("Flipper");
    FlipperParts(keccak);
    assert Parts[..1] == [Parts[0]] && Parts[..1][..0] == [];
    assert Parts[..2][..1] == Parts[..1] && Parts[..3][..2] == Parts[..2] && Parts[..4][..3] == Parts[..3];
    assert Parts[..4] == Parts;
    var withFlip := AtVar.(functions := map[GetFuncSig(keccak, "flip()") := FlipFunction()]);
    assert HandleParts(Parts[..1], c0, keccak) == AtVar;
    assert Parts[..2][1] == Parts[1];
    assert HandleParts(Parts[..2], c0, keccak) == AtVar;
    assert Parts[..3][2] == Parts[2];
    assert HandleParts(Parts[..3], c0, keccak) == withFlip;
    assert Parts[3] == Parts[|Parts| - 1] && Parts[..|Parts| - 1] == Parts[..3];
    assert HandleParts(Parts, c0, keccak) == HandleContractPart(Parts[3], withFlip, keccak);
  }

  /** The compiled flipper with the given storage. */
  function FlipperWith(keccak: Keccak, storage: seq<Word>): Contract
  {
    Contract("Flipper",
      map[GetFuncSig(keccak, "flip()") := FlipFunction()][GetFuncSig(keccak, "get()") := GetFunction()],
      map["value" := 0], storage)
  }

  /** Compiling the source unit gives exactly one contract, the flipper with its slot at zero. */
  lemma CreateFlipper(keccak: Keccak)
    ensures CreateContracts(Source, keccak) == [FlipperWith(keccak, [0])]
  {
    CompiledFlipper(keccak);
  }

  /** `get()` returns the boolean held in slot 0 and changes nothing. */
  lemma GetReadsValue(keccak: Keccak, w: Word)
    ensures FlipperWith(keccak, [w]).CallOutcome(GetFuncSig(keccak, "get()"))
         == Called(FlipperWith(keccak, [w]), [BoolLiteral(w == 1)])
  {
    var c := FlipperWith(keccak, [w]);
    var getSel := GetFuncSig(keccak, "get()");
    assert c.functions[getSel] == GetFunction();
    assert GetVariableSlot("value", AtVar) == 0;
    CallReturnsValue(c, getSel, Variable(Value), AtVar);
  }

  /** `flip()` negates slot 0 and commits it, returning nothing. */
  lemma FlipNegatesValue(keccak: Keccak, w: Word)
    requires keccak("flip()")[..4] != keccak("get()")[..4]
    ensures FlipperWith(keccak, [w]).CallOutcome(GetFuncSig(keccak, "flip()"))
         == Called(FlipperWith(keccak, [IsZero(w)]), [])
  {
    var c := FlipperWith(keccak, [w]);
    var flipSel := GetFuncSig(keccak, "flip()");
    SelectorsEqualIff(keccak, "flip()", "get()");
    assert c.functions[flipSel] == FlipFunction();
    assert GetVariableSlot("value", AtVar) == 0;
    CallCommitsAssignment(c, flipSel, Value, Not(Variable(Value)), AtVar);
    assert [w][0 := IsZero(w)] == [IsZero(w)];
  }

  /**
   * The end-to-end scenario. The only assumption is that the two selectors do
   * not collide (their digests differ in the first four bytes); with a
   * collision `get` would replace `flip` in the function table.
   */
  lemma FlipThenGet(keccak: Keccak)
    requires keccak("flip()")[..4] != keccak("get()")[..4]
    ensures CreateContracts(Source, keccak) == [FlipperWith(keccak, [0])]
    ensures FlipperWith(keccak, [0]).CallOutcome(GetFuncSig(keccak, "get()"))
         == Called(FlipperWith(keccak, [0]), [BoolLiteral(false)])
    ensures FlipperWith(keccak, [0]).CallOutcome(GetFuncSig(keccak, "flip()"))
         == Called(FlipperWith(keccak, [1]), [])
    ensures FlipperWith(keccak, [1]).CallOutcome(GetFuncSig(keccak, "get()"))
         == Called(FlipperWith(keccak, [1]), [BoolLiteral(true)])
  {
    CreateFlipper(keccak);
    GetReadsValue(keccak, 0);
    FlipNegatesValue(keccak, 0);
    GetReadsValue(keccak, 1);
  }
}
