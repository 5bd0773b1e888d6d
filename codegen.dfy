/**
 * The code generator: from the syntax tree of a source unit to compiled
 * contracts. It lowers the single statement of each function body to
 * opcodes, gives each state variable the next storage slot, resolves
 * function attributes and keys every function by its selector.
 *
 * `handle_contract_part` updates a contract through an exclusive `&mut`
 * borrow; here the contract is passed in and the updated one handed back.
 */
module Codegen {
  import opened Wrappers
  import opened Words
  import opened Vm
  import opened Grammar
  import opened Selector
  import opened Contracts

  /** `Contract::new`: a named contract with no functions, variables or storage. */
  function NewContract(name: string): Contract
  {
    Contract(name, map[], map[], [])
  }

  // ---------------------------------------------------------------------
  // Lowering

  /** `get_variable_slot`: the slot recorded for `name`, 0 when there is none, cut to 8 bits. */
  function GetVariableSlot(name: string, c: Contract): Byte
  {
    TruncateToByte(if name in c.variableMap then c.variableMap[name] else 0)
  }

  /** `handle_expression` */
  function HandleExpression(e: Expression, c: Contract): seq<Op>
  {
    match e
    case BoolLiteral(_) => []
    case Variable(id) => [PUSH1(GetVariableSlot(id.name, c)), SLOAD]
    case Assign(left, right) =>
      if left.Variable? then HandleExpression(right, c) + [PUSH1(GetVariableSlot(left.id.name, c)), SSTORE]
      else []
    case Not(operand) => HandleExpression(operand, c) + [ISZERO]
    case TypeName(_) => []
  }

  /** `handle_statement` */
  function HandleStatement(s: Statement, c: Contract): seq<Op>
  {
    match s
    case ExpressionStatement(e) => HandleExpression(e, c)
    case Return(None) => [RETURN]
    case Return(Some(e)) => HandleExpression(e, c) + [RETURN]
  }

  /** No expression lowers to a RETURN. */
  lemma {:induction false} ExpressionHasNoReturn(e: Expression, c: Contract)
    ensures RETURN !in HandleExpression(e, c)
  {
    match e
    case Assign(left, right) => ExpressionHasNoReturn(right, c);
    case Not(operand) => ExpressionHasNoReturn(operand, c);
    case _ =>
  }

  /** A statement's code holds a RETURN exactly when it is a return statement, and only as its last opcode. */
  lemma StatementReturnsLast(s: Statement, c: Contract)
    ensures var code := HandleStatement(s, c);
      (RETURN in code <==> s.Return?)
      && (s.Return? ==> code[|code| - 1] == RETURN && RETURN !in code[..|code| - 1])
  {
    match s
    case ExpressionStatement(e) => ExpressionHasNoReturn(e, c);
    case Return(None) =>
    case Return(Some(e)) =>
      ExpressionHasNoReturn(e, c);
      var code := HandleStatement(s, c);
      assert code[..|code| - 1] == HandleExpression(e, c);
  }

  // ---------------------------------------------------------------------
  // Attributes

  function ToFuncVisibility(v: Visibility): FuncVisibility
  {
    match v
    case Public => FuncVisibility.Public
    case Private => FuncVisibility.Private
    case Internal => FuncVisibility.Internal
    case External => FuncVisibility.External
  }

  function ToFuncMutability(m: Mutability): FuncMutability
  {
    match m
    case Constant => FuncMutability.Constant
    case Payable => FuncMutability.Payable
    case View => FuncMutability.View
    case Pure => FuncMutability.Pure
  }

  /** The attributes after scanning `attrs` left to right; a later attribute of a kind overrides an earlier one. */
  function ResolveAttrs(attrs: seq<Option<FunctionAttribute>>): (FuncVisibility, FuncMutability)
  {
    if attrs == [] then (FuncVisibility.Internal, FuncMutability.Nonpayable)
    else
      var (v, m) := ResolveAttrs(attrs[..|attrs| - 1]);
      match attrs[|attrs| - 1]
      case None => (v, m)
      case Some(VisibilityAttr(x)) => (ToFuncVisibility(x), m)
      case Some(MutabilityAttr(x)) => (v, ToFuncMutability(x))
  }

  predicate IsVisibilityAt(attrs: seq<Option<FunctionAttribute>>, i: int)
  {
    0 <= i < |attrs| && attrs[i].Some? && attrs[i].value.VisibilityAttr?
  }

  predicate IsMutabilityAt(attrs: seq<Option<FunctionAttribute>>, i: int)
  {
    0 <= i < |attrs| && attrs[i].Some? && attrs[i].value.MutabilityAttr?
  }

  /** The resolved visibility is that of the last visibility attribute, Internal when there is none. */
  lemma {:induction false} ResolveVisibilityPicksLast(attrs: seq<Option<FunctionAttribute>>)
    ensures (forall i :: !IsVisibilityAt(attrs, i)) ==> ResolveAttrs(attrs).0 == FuncVisibility.Internal
    ensures forall i :: IsVisibilityAt(attrs, i) && (forall j :: i < j ==> !IsVisibilityAt(attrs, j)) ==>
      ResolveAttrs(attrs).0 == ToFuncVisibility(attrs[i].value.visibility)
  {
    if attrs != [] {
      var n := |attrs| - 1;
      var init := attrs[..n];
      ResolveVisibilityPicksLast(init);
      assert forall i :: IsVisibilityAt(init, i) <==> i < n && IsVisibilityAt(attrs, i);
      if IsVisibilityAt(attrs, n) {
        assert ResolveAttrs(attrs).0 == ToFuncVisibility(attrs[n].value.visibility);
      } else {
        assert ResolveAttrs(attrs).0 == ResolveAttrs(init).0;
      }
    }
  }

  /** The resolved mutability is that of the last mutability attribute, Nonpayable when there is none. */
  lemma {:induction false} ResolveMutabilityPicksLast(attrs: seq<Option<FunctionAttribute>>)
    ensures (forall i :: !IsMutabilityAt(attrs, i)) ==> ResolveAttrs(attrs).1 == FuncMutability.Nonpayable
    ensures forall i :: IsMutabilityAt(attrs, i) && (forall j :: i < j ==> !IsMutabilityAt(attrs, j)) ==>
      ResolveAttrs(attrs).1 == ToFuncMutability(attrs[i].value.mutability)
  {
    if attrs != [] {
      var n := |attrs| - 1;
      var init := attrs[..n];
      ResolveMutabilityPicksLast(init);
      assert forall i :: IsMutabilityAt(init, i) <==> i < n && IsMutabilityAt(attrs, i);
      if IsMutabilityAt(attrs, n) {
        assert ResolveAttrs(attrs).1 == ToFuncMutability(attrs[n].value.mutability);
      } else {
        assert ResolveAttrs(attrs).1 == ResolveAttrs(init).1;
      }
    }
  }

  /** `handle_attrs`: one pass over the attribute list, updating the two results as it goes. */
  method HandleAttrs(attrs: seq<Option<FunctionAttribute>>) returns (visibility: FuncVisibility, mutability: FuncMutability)
    ensures (visibility, mutability) == ResolveAttrs(attrs)
  {
    visibility := FuncVisibility.Internal;
    mutability := FuncMutability.Nonpayable;
    for i := 0 to |attrs|
      invariant (visibility, mutability) == ResolveAttrs(attrs[..i])
    {
      assert attrs[..i + 1][..i] == attrs[..i];
      match attrs[i]
      case None =>
      case Some(VisibilityAttr(v)) => visibility := ToFuncVisibility(v);
      case Some(MutabilityAttr(m)) => mutability := ToFuncMutability(m);
    }
    assert attrs[..|attrs|] == attrs;
  }

  // ---------------------------------------------------------------------
  // Signatures

  /** The type keyword of a parameter in a signature; only `bool` is known. */
  function ParamTypeKeyword(p: Parameter): Option<string>
  {
    if IsBoolParam(p) then Some("bool") else None
  }

  /** The keyword of each parameter, in order. */
  function TypeKeywords(ps: seq<Parameter>): (ks: seq<Option<string>>)
    ensures |ks| == |ps| && forall i :: 0 <= i < |ps| ==> ks[i] == ParamTypeKeyword(ps[i])
  {
    seq(|ps|, i requires 0 <= i < |ps| => ParamTypeKeyword(ps[i]))
  }

  /** `collect::<Option<Vec<_>>>()`: all the values, or `None` as soon as one is missing. */
  function CollectAll(xs: seq<Option<string>>): Option<seq<string>>
  {
    if xs == [] then Some([])
    else if xs[0].None? then None
    else match CollectAll(xs[1..])
      case None => None
      case Some(rest) => Some([xs[0].value] + rest)
  }

  function Join(parts: seq<string>, sep: string): string
  {
    if parts == [] then ""
    else if |parts| == 1 then parts[0]
    else parts[0] + sep + Join(parts[1..], sep)
  }

  /** `name(` + the comma-joined parameter types + `)`, or `name()` when some type is unknown. */
  function CanonicalSignature(name: string, params: ParameterList): string
  {
    match params.params
    case None => name + "()"
    case Some(p) =>
      var joined := match CollectAll(TypeKeywords(p.params))
        case Some(v) => Join(v, ",")
        case None => "";
      name + "(" + joined + ")"
  }

  /** `find_function_signature`: the selector of the canonical signature. */
  function FindFunctionSignature(name: string, params: ParameterList, keccak: Keccak): string
  {
    GetFuncSig(keccak, CanonicalSignature(name, params))
  }

  /** Reference form: `bool,bool,...,bool` with `n` entries. */
  function BoolList(n: nat): string
  {
    if n == 0 then "" else if n == 1 then "bool" else "bool," + BoolList(n - 1)
  }

  lemma {:induction false} CollectAllBools(ps: seq<Parameter>)
    requires forall p :: p in ps ==> IsBoolParam(p)
    ensures CollectAll(TypeKeywords(ps)).Some? && Join(CollectAll(TypeKeywords(ps)).value, ",") == BoolList(|ps|)
  {
    var keywords := TypeKeywords(ps);
    if ps != [] {
      assert ps[0] in ps;
      assert forall p :: p in ps[1..] ==> p in ps;
      CollectAllBools(ps[1..]);
      var tail := TypeKeywords(ps[1..]);
      assert keywords[1..] == tail;
      assert |CollectAll(tail).value| == |ps| - 1 by { CollectAllLength(tail); }
    }
  }

  lemma {:induction false} CollectAllLength(xs: seq<Option<string>>)
    requires CollectAll(xs).Some?
    ensures |CollectAll(xs).value| == |xs|
  {
    if xs != [] {
      CollectAllLength(xs[1..]);
    }
  }

  lemma {:induction false} CollectAllMissing(xs: seq<Option<string>>, k: nat)
    requires k < |xs| && xs[k].None?
    ensures CollectAll(xs).None?
  {
    if k > 0 {
      CollectAllMissing(xs[1..], k - 1);
    }
  }

  /**
   * The canonical signature is `name(bool,...,bool)`, one `bool` per parameter,
   * when every parameter is `bool`; it collapses to `name()` when there is no
   * parameter list or when any parameter has another type.
   */
  lemma SignatureForm(name: string, params: ParameterList)
    ensures params.params.Some? && (forall p :: p in params.params.value.params ==> IsBoolParam(p)) ==>
      CanonicalSignature(name, params) == name + "(" + BoolList(|params.params.value.params|) + ")"
    ensures params.params.None? || (exists p :: p in params.params.value.params && !IsBoolParam(p)) ==>
      CanonicalSignature(name, params) == name + "()"
  {
    if params.params.Some? {
      var ps := params.params.value.params;
      var keywords := TypeKeywords(ps);
      if forall p :: p in ps ==> IsBoolParam(p) {
        CollectAllBools(ps);
      } else {
        var p :| p in ps && !IsBoolParam(p);
        var k :| 0 <= k < |ps| && ps[k] == p;
        CollectAllMissing(keywords, k);
        assert name + "(" + "" + ")" == name + "()";
      }
    }
  }

  // ---------------------------------------------------------------------
  // Contracts

  /** The declared return parameters: the list inside `returns ( ... )`, empty when absent. */
  function ReturnParams(r: Option<FunctionReturnParams>): seq<Parameter>
  {
    match r
    case Some(Returns(ParameterList(Some(p)))) => p.params
    case _ => []
  }

  /** A function definition with a body, compiled against the contract built so far. */
  function CompileFunction(part: ContractPart, c: Contract): Function
    requires part.FunctionDefinition? && part.body.Some?
  {
    var (visibility, mutability) := ResolveAttrs(part.attrs);
    Function(HandleStatement(part.body.value, c), visibility, mutability, ReturnParams(part.returnParams))
  }

  /** `handle_contract_part`: the contract after one part has been processed. */
  function HandleContractPart(part: ContractPart, c: Contract, keccak: Keccak): Contract
  {
    match part
    case FunctionDefinition(name, params, _, _, body) =>
      if body.None? then c
      else c.(functions := c.functions[FindFunctionSignature(name, params, keccak) := CompileFunction(part, c)])
    case VariableDefinition(_, _, name) =>
      c.(variableMap := c.variableMap[name := |c.storage|], storage := c.storage + [0])
    case ConstructorDefinition(_, _, _) =>
      // The body is lowered and the code thrown away: nothing of it is kept.
      c
  }

  /** The parts of a contract processed in source order. */
  function HandleParts(parts: seq<ContractPart>, c: Contract, keccak: Keccak): Contract
  {
    if parts == [] then c
    else HandleContractPart(parts[|parts| - 1], HandleParts(parts[..|parts| - 1], c, keccak), keccak)
  }

  /** `handle_source_unit_part`: a contract definition compiled from an empty contract of that name. */
  function HandleSourceUnitPart(part: SourceUnitPart, keccak: Keccak): Contract
  {
    HandleParts(part.parts, NewContract(part.name), keccak)
  }

  /** `create_contracts`: one contract per contract definition, in source order. */
  function CreateContracts(unit: SourceUnit, keccak: Keccak): (cs: seq<Contract>)
    ensures |cs| == |unit.parts|
    ensures forall i :: 0 <= i < |cs| ==> cs[i] == HandleSourceUnitPart(unit.parts[i], keccak)
  {
    seq(|unit.parts|, i requires 0 <= i < |unit.parts| => HandleSourceUnitPart(unit.parts[i], keccak))
  }

  /** Names of the state variables defined in `parts`, in source order (duplicates kept). */
  function VarNames(parts: seq<ContractPart>): seq<string>
  {
    if parts == [] then []
    else
      var last := parts[|parts| - 1];
      VarNames(parts[..|parts| - 1]) + if last.VariableDefinition? then [last.name] else []
  }

  /** `x` is bound to slot `k` when the k-th definition is of `x` and no later one is. */
  predicate IsLastDefinition(names: seq<string>, x: string, k: nat)
  {
    k < |names| && names[k] == x && forall j :: k < j < |names| ==> names[j] != x
  }

  /**
   * Slot allocation: each state-variable definition appends one zero word, in
   * source order, so there is one zero slot per definition; a name is mapped to
   * the slot of its last definition, and only defined names are mapped.
   */
  lemma {:induction false} SlotAllocation(parts: seq<ContractPart>, name: string, keccak: Keccak)
    ensures
      var c := HandleParts(parts, NewContract(name), keccak);
      var names := VarNames(parts);
      && c.name == name
      && c.storage == seq(|names|, _ => 0)
      && (forall x :: x in c.variableMap <==> x in names)
      && (forall x :: x in c.variableMap ==> IsLastDefinition(names, x, c.variableMap[x]))
  {
    if parts != [] {
      var init, last := parts[..|parts| - 1], parts[|parts| - 1];
      SlotAllocation(init, name, keccak);
      var c0 := HandleParts(init, NewContract(name), keccak);
      var names0 := VarNames(init);
      var names := VarNames(parts);
      assert names == names0 + if last.VariableDefinition? then [last.name] else [];
      if last.VariableDefinition? {
        assert forall x :: x in names <==> x in names0 || x == last.name;
        forall x | x in names0 && x != last.name
          ensures x in c0.variableMap && IsLastDefinition(names, x, c0.variableMap[x])
        {
        }
      }
    }
  }

  /** The selector a part registers: that of a function definition with a body, none otherwise. */
  function PartSelector(part: ContractPart, keccak: Keccak): Option<string>
  {
    if part.FunctionDefinition? && part.body.Some? then Some(FindFunctionSignature(part.name, part.params, keccak)) else None
  }

  /** The k-th part is a function definition with a body whose selector is `s`. */
  predicate DefinesSelector(parts: seq<ContractPart>, keccak: Keccak, k: int, s: string)
  {
    0 <= k < |parts| && PartSelector(parts[k], keccak) == Some(s)
  }

  /** The selectors of the function definitions with a body, in source order. */
  function SelectorsOf(parts: seq<ContractPart>, keccak: Keccak): set<string>
  {
    if parts == [] then {}
    else
      var p := PartSelector(parts[|parts| - 1], keccak);
      SelectorsOf(parts[..|parts| - 1], keccak) + if p.Some? then {p.value} else {}
  }

  /** A selector is collected exactly when some part defines it. */
  lemma {:induction false} SelectorsOfDefined(parts: seq<ContractPart>, keccak: Keccak, s: string)
    ensures s in SelectorsOf(parts, keccak) <==> exists k :: DefinesSelector(parts, keccak, k, s)
  {
    if parts != [] {
      var n := |parts| - 1;
      var init := parts[..n];
      var p := PartSelector(parts[n], keccak);
      assert SelectorsOf(parts, keccak) == SelectorsOf(init, keccak) + if p.Some? then {p.value} else {};
      SelectorsOfDefined(init, keccak, s);
      if s in SelectorsOf(init, keccak) {
        var k :| DefinesSelector(init, keccak, k, s);
        assert DefinesSelector(parts, keccak, k, s);
      } else if p == Some(s) {
        assert DefinesSelector(parts, keccak, n, s);
      } else {
        forall k | DefinesSelector(parts, keccak, k, s)
          ensures false
        {
          assert k < n && DefinesSelector(init, keccak, k, s);
        }
      }
    }
  }

  /** The function table is keyed by exactly the selectors of the defined functions. */
  lemma {:induction false} FunctionTableKeys(parts: seq<ContractPart>, name: string, keccak: Keccak)
    ensures HandleParts(parts, NewContract(name), keccak).functions.Keys == SelectorsOf(parts, keccak)
  {
    if parts != [] {
      FunctionTableKeys(parts[..|parts| - 1], name, keccak);
    }
  }

  /**
   * The entry under a selector is its last definition, compiled against the
   * contract as it stood just before that definition: a variable defined later
   * is not yet in that contract's variable map.
   */
  lemma {:induction false} FunctionTableEntry(parts: seq<ContractPart>, name: string, keccak: Keccak, k: nat, s: string)
    requires DefinesSelector(parts, keccak, k, s)
    requires forall j :: k < j ==> !DefinesSelector(parts, keccak, j, s)
    ensures s in HandleParts(parts, NewContract(name), keccak).functions
    ensures HandleParts(parts, NewContract(name), keccak).functions[s]
         == CompileFunction(parts[k], HandleParts(parts[..k], NewContract(name), keccak))
  {
    var n := |parts| - 1;
    var init := parts[..n];
    if k < n {
      assert DefinesSelector(init, keccak, k, s);
      assert !DefinesSelector(parts, keccak, n, s);
      forall j | k < j
        ensures !DefinesSelector(init, keccak, j, s)
      {
        assert !DefinesSelector(parts, keccak, j, s);
      }
      FunctionTableEntry(init, name, keccak, k, s);
      assert init[..k] == parts[..k];
    } else {
      assert parts[..k] == init;
    }
  }

  /**
   * `create_contracts` builds, for each contract definition in order, a
   * contract of that name whose storage is one zero word per state variable,
   * whose variables are exactly the defined ones and whose selectors are exactly
   * those of its function definitions with a body (`SelectorsOf`).
   */
  lemma CreateContractsLayout(unit: SourceUnit, keccak: Keccak)
    ensures var cs := CreateContracts(unit, keccak);
      && |cs| == |unit.parts|
      && forall i :: 0 <= i < |cs| ==>
        && cs[i].name == unit.parts[i].name
        && cs[i].storage == seq(|VarNames(unit.parts[i].parts)|, _ => 0)
        && (forall x :: x in cs[i].variableMap <==> x in VarNames(unit.parts[i].parts))
        && cs[i].functions.Keys == SelectorsOf(unit.parts[i].parts, keccak)
  {
    forall i | 0 <= i < |unit.parts|
      ensures var c := CreateContracts(unit, keccak)[i];
        && c.name == unit.parts[i].name
        && c.storage == seq(|VarNames(unit.parts[i].parts)|, _ => 0)
        && (forall x :: x in c.variableMap <==> x in VarNames(unit.parts[i].parts))
        && c.functions.Keys == SelectorsOf(unit.parts[i].parts, keccak)
    {
      SlotAllocation(unit.parts[i].parts, unit.parts[i].name, keccak);
      FunctionTableKeys(unit.parts[i].parts, unit.parts[i].name, keccak);
    }
  }

  /**
   * A defined variable resolves to its slot cut to 8 bits (the slot itself below
   * 256); a name that was never defined resolves to slot 0, the first variable's.
   */
  lemma VariableSlot(name: string, c: Contract)
    ensures name in c.variableMap ==> GetVariableSlot(name, c) == c.variableMap[name] % 256
    ensures name in c.variableMap && c.variableMap[name] < 256 ==> GetVariableSlot(name, c) == c.variableMap[name]
    ensures name !in c.variableMap ==> GetVariableSlot(name, c) == 0
  {
  }
}
