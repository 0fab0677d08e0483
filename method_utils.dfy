/**
 * Call-site argument matching: does an observed call site fit a declared
 * parameter list? On 64-bit targets the arguments sit in registers; on
 * 32-bit targets they sit on the analysis' evaluation stack, where a struct
 * argument may have been passed field by field.
 */
module MethodUtils {
  import opened Types

  /** The raw value of an analysed constant. */
  datatype ConstValue = ULongValue(n: u64) | BoolValue(b: bool) | OtherValue(repr: string)

  /** An analysed operand: a constant, a local (whose type may be unknown) or anything else. */
  datatype Operand =
    | Constant(typeName: string, value: ConstValue)
    | Local(id: nat, localType: Option<TypeRef>)
    | OtherOperand(id: nat)

  datatype Register = Rcx | Rdx | R8 | R9 | Xmm0 | Xmm1 | Xmm2 | Xmm3

  /** The integer and floating-point argument registers, pair by pair. */
  const IntArgRegisters: seq<Register> := [Rcx, Rdx, R8, R9]
  const XmmArgRegisters: seq<Register> := [Xmm0, Xmm1, Xmm2, Xmm3]

  datatype StructField = StructField(name: string, fieldType: TypeRef, isStatic: bool)

  /** A resolved value type: its own type and its declared fields. */
  datatype StructDef = StructDef(defType: TypeRef, fields: seq<StructField>)

  /** The analysis actions that argument matching may append. */
  datatype Action =
    | AllocateInstance(structDef: StructDef, instance: Operand)
    | LocalToField(field: StructField, instance: Operand, source: Operand)

  /**
   * What the matching code asks of collaborators it does not own: type
   * assignability, resolution of a type reference to its definition,
   * whether the analysis considers a register argument empty, and how a
   * method reference is instantiated over generic arguments.
   */
  datatype Oracle = Oracle(
    assignable: (TypeRef, TypeRef) -> bool,
    resolve: TypeRef -> Option<StructDef>,
    isEmptyRegArg: Operand -> bool,
    makeGeneric: (MethodSig, seq<TypeRef>) -> MethodSig)

  datatype MethodSig = MethodSig(declaringTypeHasGenericParams: bool, parameters: seq<TypeRef>)

  // =====================================================================
  // The single-operand rule

  /** The boolean a widened machine word stands for. */
  function AsBoolean(op: Operand): Operand
    requires op.Constant? && op.value.ULongValue?
  {
    Constant(BooleanName, BoolValue(op.value.n == 1))
  }

  /** A mismatched constant may be read as a boolean. */
  predicate Reinterpretable(op: Operand, expected: TypeRef)
  {
    op.Constant? && op.typeName != FullName(expected)
    && FullName(expected) == BooleanName && op.value.ULongValue?
  }

  /**
   * Checks one operand against an expected type. Returns the verdict and
   * the operand as the check leaves it: a `ulong` constant offered for a
   * `System.Boolean` is rewritten in place into a boolean.
   */
  function CheckSingleParameter(op: Operand, expected: TypeRef, oracle: Oracle): (r: (bool, Operand))
    ensures op.Constant? ==> (r.0 <==> op.typeName == FullName(expected) || Reinterpretable(op, expected))
    ensures op.Local? ==> (r.0 <==> op.localType.Some? && oracle.assignable(expected, op.localType.value))
    ensures op.OtherOperand? ==> r.0
    ensures r.1 == if Reinterpretable(op, expected) then AsBoolean(op) else op
  {
    match op
    case Constant(typeName, value) =>
      if typeName != FullName(expected) then
        if FullName(expected) == BooleanName && value.ULongValue? then
          (true, Constant(BooleanName, BoolValue(value.n == 1)))
        else
          (false, op)
      else
        (true, op)
    case Local(_, localType) =>
      if localType.None? || !oracle.assignable(expected, localType.value) then (false, op) else (true, op)
    case OtherOperand(_) =>
      (true, op)
  }

  /** A rejected operand is never rewritten. */
  lemma RejectedOperandUnchanged(op: Operand, expected: TypeRef, oracle: Oracle)
    ensures !CheckSingleParameter(op, expected, oracle).0 ==> CheckSingleParameter(op, expected, oracle).1 == op
  {
  }

  /**
   * Acceptance is stable: checking the operand that an accepting check
   * left behind accepts again and changes nothing more.
   */
  lemma AcceptedOperandIsStable(op: Operand, expected: TypeRef, oracle: Oracle)
    requires CheckSingleParameter(op, expected, oracle).0
    ensures CheckSingleParameter(CheckSingleParameter(op, expected, oracle).1, expected, oracle)
            == (true, CheckSingleParameter(op, expected, oracle).1)
  {
  }

  /** The operand after a check is the original or its boolean reading. */
  ghost predicate SameUpToReinterpretation(before: Operand, after: Operand)
  {
    after == before || (before.Constant? && before.value.ULongValue? && after == AsBoolean(before))
  }

  ghost predicate Pointwise(before: seq<Operand>, after: seq<Operand>)
  {
    |before| == |after| && forall i | 0 <= i < |before| :: SameUpToReinterpretation(before[i], after[i])
  }

  lemma PointwiseTransitive(a: seq<Operand>, b: seq<Operand>, c: seq<Operand>)
    requires Pointwise(a, b) && Pointwise(b, c)
    ensures Pointwise(a, c)
  {
  }

  /** Entries kept on either side do not disturb a pointwise match. */
  lemma PointwiseFramed(pre: seq<Operand>, a: seq<Operand>, b: seq<Operand>, post: seq<Operand>)
    requires Pointwise(a, b)
    ensures Pointwise(pre + a + post, pre + b + post)
  {
    forall i | 0 <= i < |pre + a + post|
      ensures SameUpToReinterpretation((pre + a + post)[i], (pre + b + post)[i])
    {
      if |pre| <= i < |pre| + |a| {
        assert (pre + a + post)[i] == a[i - |pre|] && (pre + b + post)[i] == b[i - |pre|];
      }
    }
  }

  // =====================================================================
  // 64-bit: register passing

  /** `GetOperandInRegister(intReg) ?? GetOperandInRegister(xmmReg)` */
  function RegisterPairOperand(registers: map<Register, Operand>, intReg: Register, xmmReg: Register): Option<Operand>
  {
    if intReg in registers then Some(registers[intReg])
    else if xmmReg in registers then Some(registers[xmmReg])
    else None
  }

  /**
   * The candidate arguments of a call, in calling-convention order: the
   * first register pair only for a non-instance call, then the other three
   * pairs, the integer register of each pair taking precedence.
   */
  function CandidateArguments(registers: map<Register, Operand>, isInstance: bool): (r: seq<Option<Operand>>)
    ensures |r| == if isInstance then 3 else 4
  {
    (if isInstance then [] else [RegisterPairOperand(registers, Rcx, Xmm0)])
    + [RegisterPairOperand(registers, Rdx, Xmm1)]
    + [RegisterPairOperand(registers, R8, Xmm2)]
    + [RegisterPairOperand(registers, R9, Xmm3)]
  }

  /**
   * Candidate `k` comes from register pair `k`, counted from the second
   * pair for an instance call, and is the integer register's operand when
   * there is one.
   */
  lemma CandidateOrder(registers: map<Register, Operand>, isInstance: bool, k: nat)
    requires k < |CandidateArguments(registers, isInstance)|
    ensures var pair := if isInstance then k + 1 else k;
            CandidateArguments(registers, isInstance)[k]
            == (if IntArgRegisters[pair] in registers then Some(registers[IntArgRegisters[pair]])
                else if XmmArgRegisters[pair] in registers then Some(registers[XmmArgRegisters[pair]])
                else None)
  {
  }

  /**
   * The 64-bit per-argument rule: a constant must carry exactly the
   * parameter's type name (no boolean reading here); a local must have a
   * known type assignable to the parameter, unless both types are
   * primitive; anything else, including an absent operand, is accepted.
   */
  predicate Accepts64(candidate: Option<Operand>, parameterType: TypeRef, oracle: Oracle)
  {
    match candidate
    case None => true
    case Some(Constant(typeName, _)) => typeName == FullName(parameterType)
    case Some(Local(_, localType)) =>
      (localType.Some? && oracle.assignable(parameterType, localType.value))
      || (parameterType.IsPrimitive() && localType.Some? && localType.value.IsPrimitive())
    case Some(OtherOperand(_)) => true
  }

  /** A leftover candidate that counts as a real argument. */
  predicate IsRealArgument(candidate: Option<Operand>, oracle: Oracle)
  {
    candidate.Some? && !oracle.isEmptyRegArg(candidate.value)
  }

  /**
   * When the 64-bit matcher accepts: some present candidate remains when
   * the last parameter is taken, every parameter accepts the candidate in
   * its position, and, when leftovers are not allowed, no real argument is
   * left over.
   */
  predicate Matches64(parameters: seq<TypeRef>, candidates: seq<Option<Operand>>, oracle: Oracle, failOnLeftoverArgs: bool)
  {
    && |parameters| <= |candidates|
    && (|parameters| > 0 ==> exists j | |parameters| - 1 <= j < |candidates| :: candidates[j].Some?)
    && (forall i | 0 <= i < |parameters| :: Accepts64(candidates[i], parameters[i], oracle))
    && (failOnLeftoverArgs ==> forall j | |parameters| <= j < |candidates| :: !IsRealArgument(candidates[j], oracle))
  }

  /** `list.Count(a => a != null)` */
  function PresentCount(xs: seq<Option<Operand>>): (r: nat)
    ensures r == 0 <==> forall j | 0 <= j < |xs| :: xs[j].None?
  {
    if xs == [] then 0 else (if xs[0].Some? then 1 else 0) + PresentCount(xs[1..])
  }

  /** `list.Any(a => a != null && !context.IsEmptyRegArg(a))` */
  function AnyRealArgument(xs: seq<Option<Operand>>, oracle: Oracle): (r: bool)
    ensures r <==> exists j | 0 <= j < |xs| :: IsRealArgument(xs[j], oracle)
  {
    if xs == [] then false else IsRealArgument(xs[0], oracle) || AnyRealArgument(xs[1..], oracle)
  }

  /**
   * Matches a parameter list against the argument registers. Reads the
   * register file only; on success the arguments are the candidates taken,
   * one per parameter and in order (an absent register included).
   */
  method CheckParameters64(m: MethodSig, registers: map<Register, Operand>, oracle: Oracle, isInstance: bool, failOnLeftoverArgs: bool)
    returns (ok: bool, arguments: Option<seq<Option<Operand>>>)
    ensures ok <==> Matches64(m.parameters, CandidateArguments(registers, isInstance), oracle, failOnLeftoverArgs)
    ensures ok ==> arguments == Some(CandidateArguments(registers, isInstance)[..|m.parameters|])
    ensures !ok ==> arguments.None?
  {
    ghost var candidates := CandidateArguments(registers, isInstance);
    ghost var ps := m.parameters;
    arguments := None;
    var actualArgs := CandidateArguments(registers, isInstance);
    var tempArgs: seq<Option<Operand>> := [];
    ghost var present: int := -1;
    var i := 0;
    while i < |m.parameters|
      invariant 0 <= i <= |ps| && i <= |candidates|
      invariant actualArgs == candidates[i..]
      invariant tempArgs == candidates[..i]
      invariant forall k | 0 <= k < i :: Accepts64(candidates[k], ps[k], oracle)
      invariant i > 0 ==> i - 1 <= present < |candidates| && candidates[present].Some?
    {
      if PresentCount(actualArgs) == 0 {
        NoPresentCandidateLeft(ps, candidates, oracle, failOnLeftoverArgs, i);
        return false, None;
      }
      present := i + PresentIndex(actualArgs);
      var arg := actualArgs[0];
      actualArgs := actualArgs[1..];
      if !Accepts64(arg, m.parameters[i], oracle) {
        return false, None;
      }
      tempArgs := tempArgs + [arg];
      i := i + 1;
    }
    if failOnLeftoverArgs && AnyRealArgument(actualArgs, oracle) {
      return false, None;
    }
    arguments := Some(tempArgs);
    return true, arguments;
  }

  /** The position of some present candidate. */
  function PresentIndex(xs: seq<Option<Operand>>): (j: nat)
    requires PresentCount(xs) > 0
    ensures j < |xs| && xs[j].Some?
  {
    if xs[0].Some? then 0 else PresentIndex(xs[1..]) + 1
  }

  lemma NoPresentCandidateLeft(ps: seq<TypeRef>, candidates: seq<Option<Operand>>, oracle: Oracle, failOnLeftoverArgs: bool, i: nat)
    requires i < |ps| && i <= |candidates|
    requires PresentCount(candidates[i..]) == 0
    ensures !Matches64(ps, candidates, oracle, failOnLeftoverArgs)
  {
    if |ps| <= |candidates| {
      forall j | |ps| - 1 <= j < |candidates| ensures candidates[j].None? {
        assert candidates[i..][j - i] == candidates[j];
      }
    }
  }

  /** An absent register before a present one is taken as that parameter's argument. */
  lemma AbsentCandidateIsConsumed(parameters: seq<TypeRef>, candidates: seq<Option<Operand>>, oracle: Oracle, k: nat)
    requires k < |parameters| <= |candidates|
    requires candidates[k].None?
    requires candidates[|parameters| - 1].Some?
    ensures Accepts64(candidates[k], parameters[k], oracle)
    ensures |parameters| > 0 ==> exists j | |parameters| - 1 <= j < |candidates| :: candidates[j].Some?
  {
  }

  /** Without any present candidate no parameter can be matched. */
  lemma NoPresentCandidateFails(parameters: seq<TypeRef>, candidates: seq<Option<Operand>>, oracle: Oracle, failOnLeftoverArgs: bool)
    requires |parameters| > 0
    requires forall j | 0 <= j < |candidates| :: candidates[j].None?
    ensures !Matches64(parameters, candidates, oracle, failOnLeftoverArgs)
  {
  }

  /**
   * The 64-bit matcher never reads a `ulong` constant as a boolean: a
   * `System.Boolean` parameter facing a `System.UInt64` constant fails.
   */
  lemma NoBooleanReadingIn64Bit(parameters: seq<TypeRef>, candidates: seq<Option<Operand>>, oracle: Oracle, failOnLeftoverArgs: bool, k: nat, n: u64)
    requires k < |parameters| && k < |candidates|
    requires FullName(parameters[k]) == BooleanName
    requires candidates[k] == Some(Constant("System.UInt64", ULongValue(n)))
    ensures !Matches64(parameters, candidates, oracle, failOnLeftoverArgs)
  {
    assert !Accepts64(candidates[k], parameters[k], oracle);
  }

  // =====================================================================
  // 32-bit: stack passing with struct decomposition

  /**
   * The analysis context: its register file, its evaluation stack (the top
   * is the last element) and the actions it has recorded; `localCount` is
   * the number of locals created so far, which names the next one.
   */
  class AnalysisContext {
    var registers: map<Register, Operand>
    var stack: seq<Operand>
    var actions: seq<Action>
    var localCount: nat

    constructor (registers: map<Register, Operand>, stack: seq<Operand>)
      ensures this.registers == registers && this.stack == stack
      ensures actions == [] && localCount == 0
    {
      this.registers := registers;
      this.stack := stack;
      actions := [];
      localCount := 0;
    }
  }

  /** A value type that is not primitive: the only kind ever decomposed. */
  predicate IsStructType(t: TypeRef)
  {
    t.IsValueType() && !t.IsPrimitive()
  }

  /** `Fields.Where(f => !f.IsStatic)` */
  function InstanceFields(fields: seq<StructField>): (r: seq<StructField>)
    ensures |r| <= |fields|
  {
    if fields == [] then []
    else (if fields[0].isStatic then [] else [fields[0]]) + InstanceFields(fields[1..])
  }

  /** The instance fields are exactly the declared fields that are not static. */
  lemma {:induction false} InstanceFieldsMembers(fields: seq<StructField>)
    ensures forall f | f in InstanceFields(fields) :: f in fields && !f.isStatic
    ensures forall f | f in fields && !f.isStatic :: f in InstanceFields(fields)
  {
    if fields != [] {
      InstanceFieldsMembers(fields[1..]);
      assert fields == [fields[0]] + fields[1..];
    }
  }

  /** The field stores that set a decomposed struct: one per local operand, in field order. */
  function FieldStores(fields: seq<StructField>, operands: seq<Operand>, instance: Operand): (r: seq<Action>)
    requires |fields| == |operands|
    ensures |r| <= |operands|
  {
    if operands == [] then []
    else
      var n := |operands| - 1;
      FieldStores(fields[..n], operands[..n], instance)
      + (if operands[n].Local? then [LocalToField(fields[n], instance, operands[n])] else [])
  }

  /** The number of local operands. */
  function LocalCount(operands: seq<Operand>): nat
  {
    if operands == [] then 0
    else LocalCount(operands[..|operands| - 1]) + (if operands[|operands| - 1].Local? then 1 else 0)
  }

  /**
   * The stores are exactly one per local operand: each stores a local
   * operand into the field in the same position of the instance.
   */
  lemma {:induction false} FieldStoresContents(fields: seq<StructField>, operands: seq<Operand>, instance: Operand)
    requires |fields| == |operands|
    ensures |FieldStores(fields, operands, instance)| == LocalCount(operands)
    ensures forall a | a in FieldStores(fields, operands, instance) ::
              exists i | 0 <= i < |operands| :: operands[i].Local? && a == LocalToField(fields[i], instance, operands[i])
  {
    if operands != [] {
      var n := |operands| - 1;
      FieldStoresContents(fields[..n], operands[..n], instance);
      forall a | a in FieldStores(fields, operands, instance)
        ensures exists i | 0 <= i < |operands| :: operands[i].Local? && a == LocalToField(fields[i], instance, operands[i])
      {
        if a in FieldStores(fields[..n], operands[..n], instance) {
          var i :| 0 <= i < n && operands[..n][i].Local? && a == LocalToField(fields[..n][i], instance, operands[..n][i]);
          assert operands[i] == operands[..n][i] && fields[i] == fields[..n][i];
        } else {
          assert a == LocalToField(fields[n], instance, operands[n]);
        }
      }
    }
  }

  /** Where a 32-bit match attempt stands between two parameters. */
  datatype State32 = State32(
    stack: seq<Operand>,
    rePush: seq<Operand>,
    args: seq<Operand>,
    actions: seq<Action>,
    localCount: nat,
    lost: nat,
    widths: seq<nat>,
    kept: seq<Operand>)

  /**
   * The end of an attempt: the verdict, the `arguments` out-parameter and
   * the final state. `lost` counts the entries taken by successful struct
   * decompositions; `widths` records, per matched parameter, how many stack
   * entries it took; `kept` is the original stack without the entries taken
   * by successful decompositions, in their original order and unrewritten.
   */
  datatype Outcome32 = Outcome32(ok: bool, arguments: Option<seq<Operand>>, final: State32)

  function Start32(stack: seq<Operand>, actions: seq<Action>, localCount: nat): State32
  {
    State32(stack, [], [], actions, localCount, 0, [], stack)
  }

  /** Failure: re-push what was recorded and report the arguments as the source leaves them. */
  function Fail32(st: State32, keepArguments: bool): Outcome32
  {
    Outcome32(false, if keepArguments then Some(st.args) else None, st.(stack := st.stack + Reversed(st.rePush), rePush := []))
  }

  /** The checked form of the entries popped for a struct, in field order. */
  function CheckFields(popped: seq<Operand>, fields: seq<StructField>, oracle: Oracle): (r: seq<(bool, Operand)>)
    requires |popped| == |fields|
    ensures |r| == |popped|
  {
    seq(|popped|, i requires 0 <= i < |popped| => CheckSingleParameter(popped[i], fields[i].fieldType, oracle))
  }

  /** The top `n` entries of a stack in pop order, top first. */
  function TopEntries(stack: seq<Operand>, n: nat): (r: seq<Operand>)
    requires n <= |stack|
    ensures |r| == n
  {
    Reversed(stack[|stack| - n..])
  }

  lemma TopEntriesAt(stack: seq<Operand>, n: nat, j: nat)
    requires j < n <= |stack|
    ensures TopEntries(stack, n)[j] == stack[|stack| - 1 - j]
  {
    assert stack[|stack| - n..][n - 1 - j] == stack[|stack| - 1 - j];
  }

  /** The popped entries as the field checks leave them. */
  function DecomposedOperands(popped: seq<Operand>, fields: seq<StructField>, oracle: Oracle): (r: seq<Operand>)
    requires |fields| == |popped|
    ensures |r| == |fields|
  {
    seq(|popped|, i requires 0 <= i < |popped| => CheckSingleParameter(popped[i], fields[i].fieldType, oracle).1)
  }

  /** Every popped entry passes the check against its field's type. */
  predicate AllFieldsMatch(popped: seq<Operand>, fields: seq<StructField>, oracle: Oracle)
    requires |fields| == |popped|
  {
    forall i | 0 <= i < |popped| :: CheckSingleParameter(popped[i], fields[i].fieldType, oracle).0
  }

  /** One parameter's step: the attempt goes on from a new state or stops with an outcome. */
  datatype Step = Next(next: State32) | Stop(outcome: Outcome32)

  /**
   * The 32-bit rule for one parameter: take the top entry when it passes
   * the single-operand check; otherwise try to build a struct argument.
   */
  function Step32(p: TypeRef, st: State32, oracle: Oracle): Step
  {
    if st.stack == [] then Stop(Fail32(st, true))
    else
      var check := CheckSingleParameter(st.stack[|st.stack| - 1], p, oracle);
      if check.0 then
        Next(st.(stack := st.stack[..|st.stack| - 1], rePush := st.rePush + [check.1],
                 args := st.args + [check.1], widths := st.widths + [1]))
      else StructStep32(p, st, oracle)
  }

  /** `s` without its entries at positions `lo` up to `hi`. */
  function Without(s: seq<Operand>, lo: nat, hi: nat): seq<Operand>
  {
    if lo <= hi <= |s| then s[..lo] + s[hi..] else s
  }

  /**
   * For a struct parameter with enough entries, pop one entry per instance
   * field and build the struct from them; fail in every other case.
   */
  function StructStep32(p: TypeRef, st: State32, oracle: Oracle): Step
  {
    if IsStructType(p) && oracle.resolve(p).Some?
       && |st.stack| >= |InstanceFields(oracle.resolve(p).value.fields)| then
      var def := oracle.resolve(p).value;
      var fields := InstanceFields(def.fields);
      var n := |fields|;
      var rest := st.stack[..|st.stack| - n];
      var popped := TopEntries(st.stack, n);
      var operands := DecomposedOperands(popped, fields, oracle);
      if AllFieldsMatch(popped, fields, oracle) then
        var instance := Local(st.localCount, Some(def.defType));
        Next(st.(stack := rest, args := st.args + [instance],
                 actions := st.actions + [AllocateInstance(def, instance)] + FieldStores(fields, operands, instance),
                 localCount := st.localCount + 1, lost := st.lost + n, widths := st.widths + [n],
                 kept := Without(st.kept, |rest|, |st.stack|)))
      else
        Stop(Fail32(st.(stack := rest, rePush := st.rePush + operands), false))
    else
      Stop(Fail32(st, false))
  }

  /** The specification of the 32-bit matcher: the parameters' steps in declared order. */
  function Match32(ps: seq<TypeRef>, st: State32, oracle: Oracle): (o: Outcome32)
    decreases |ps|
  {
    if ps == [] then Outcome32(true, Some(st.args), st)
    else
      match Step32(ps[0], st, oracle)
      case Next(next) => Match32(ps[1..], next, oracle)
      case Stop(outcome) => outcome
  }

  /** `context.Stack.Push` of every recorded entry, last recorded first. */
  method RePushStack(toRepush: seq<Operand>, context: AnalysisContext)
    modifies context
    ensures context.stack == old(context.stack) + Reversed(toRepush)
    ensures context.registers == old(context.registers) && context.actions == old(context.actions)
    ensures context.localCount == old(context.localCount)
  {
    var reversed := Reversed(toRepush);
    for k := 0 to |reversed|
      invariant context.stack == old(context.stack) + reversed[..k]
      invariant context.registers == old(context.registers) && context.actions == old(context.actions)
      invariant context.localCount == old(context.localCount)
    {
      context.stack := context.stack + [reversed[k]];
    }
    assert reversed[..|reversed|] == reversed;
  }

  /** `new AllocateInstanceAction(...)` added to the context: a fresh local of the struct's type. */
  method AllocateInstanceAction(context: AnalysisContext, def: StructDef) returns (instance: Operand)
    modifies context
    ensures instance == Local(old(context.localCount), Some(def.defType))
    ensures context.localCount == old(context.localCount) + 1
    ensures context.actions == old(context.actions) + [AllocateInstance(def, instance)]
    ensures context.stack == old(context.stack) && context.registers == old(context.registers)
  {
    instance := Local(context.localCount, Some(def.defType));
    context.localCount := context.localCount + 1;
    context.actions := context.actions + [AllocateInstance(def, instance)];
  }

  /** Pops `n` entries off the stack; the list holds them in pop order, top first. */
  method PopEntries(context: AnalysisContext, n: nat) returns (popped: seq<Operand>)
    requires n <= |context.stack|
    modifies context
    ensures popped == TopEntries(old(context.stack), n)
    ensures context.stack == old(context.stack)[..|old(context.stack)| - n]
    ensures context.registers == old(context.registers) && context.actions == old(context.actions)
    ensures context.localCount == old(context.localCount)
  {
    ghost var s0 := context.stack;
    popped := [];
    for k := 0 to n
      invariant context.stack == s0[..|s0| - k]
      invariant popped == Reversed(s0[|s0| - k..])
      invariant context.registers == old(context.registers) && context.actions == old(context.actions)
      invariant context.localCount == old(context.localCount)
    {
      assert s0[|s0| - (k + 1)..] == [s0[|s0| - 1 - k]] + s0[|s0| - k..];
      ReversedConcat([s0[|s0| - 1 - k]], s0[|s0| - k..]);
      popped := popped + [context.stack[|context.stack| - 1]];
      context.stack := context.stack[..|context.stack| - 1];
    }
  }

  /**
   * Checks every popped entry against its field's type, all of them even
   * after a mismatch, rewriting each entry as its check leaves it.
   */
  method CheckPoppedFields(popped: seq<Operand>, fields: seq<StructField>, oracle: Oracle)
    returns (allMatch: bool, operands: seq<Operand>)
    requires |popped| == |fields|
    ensures allMatch == AllFieldsMatch(popped, fields, oracle)
    ensures operands == DecomposedOperands(popped, fields, oracle)
  {
    operands := popped;
    allMatch := true;
    for k := 0 to |popped|
      invariant |operands| == |popped|
      invariant forall j | 0 <= j < k :: operands[j] == CheckSingleParameter(popped[j], fields[j].fieldType, oracle).1
      invariant forall j | k <= j < |popped| :: operands[j] == popped[j]
      invariant allMatch <==> forall j | 0 <= j < k :: CheckSingleParameter(popped[j], fields[j].fieldType, oracle).0
    {
      var fieldCheck := CheckSingleParameter(operands[k], fields[k].fieldType, oracle);
      operands := operands[k := fieldCheck.1];
      allMatch := allMatch && fieldCheck.0;
    }
  }

  /** Appends a field store for every local operand, in field order. */
  method StoreFields(context: AnalysisContext, fields: seq<StructField>, operands: seq<Operand>, instance: Operand)
    requires |fields| == |operands|
    modifies context
    ensures context.actions == old(context.actions) + FieldStores(fields, operands, instance)
    ensures context.stack == old(context.stack) && context.registers == old(context.registers)
    ensures context.localCount == old(context.localCount)
  {
    for k := 0 to |operands|
      invariant context.actions == old(context.actions) + FieldStores(fields[..k], operands[..k], instance)
      invariant context.stack == old(context.stack) && context.registers == old(context.registers)
      invariant context.localCount == old(context.localCount)
    {
      assert fields[..k + 1][..k] == fields[..k];
      assert operands[..k + 1][..k] == operands[..k];
      if operands[k].Local? {
        context.actions := context.actions + [LocalToField(fields[k], instance, operands[k])];
      }
    }
    assert fields[..|operands|] == fields && operands[..|operands|] == operands;
  }

  /**
   * Pops one entry per instance field of a struct, checks each against its
   * field's type and, when all match, allocates the struct and stores every
   * local operand into its field.
   */
  method DecomposeStruct(def: StructDef, context: AnalysisContext, oracle: Oracle)
    returns (allMatch: bool, operands: seq<Operand>, instance: Operand)
    requires |InstanceFields(def.fields)| <= |context.stack|
    modifies context
    ensures var fields := InstanceFields(def.fields);
            var s := old(context.stack);
            && allMatch == AllFieldsMatch(TopEntries(s, |fields|), fields, oracle)
            && operands == DecomposedOperands(TopEntries(s, |fields|), fields, oracle)
            && context.stack == s[..|s| - |fields|]
            && (allMatch ==> && instance == Local(old(context.localCount), Some(def.defType))
                             && context.localCount == old(context.localCount) + 1
                             && context.actions == old(context.actions) + [AllocateInstance(def, instance)]
                                                   + FieldStores(fields, operands, instance))
            && (!allMatch ==> context.localCount == old(context.localCount) && context.actions == old(context.actions))
    ensures context.registers == old(context.registers)
  {
    var fieldsToCheck := InstanceFields(def.fields);
    var n := |fieldsToCheck|;
    ghost var s0 := context.stack;
    var listOfStackArgs := PopEntries(context, n);
    allMatch, operands := CheckPoppedFields(listOfStackArgs, fieldsToCheck, oracle);
    instance := Local(context.localCount, Some(def.defType));
    if allMatch {
      instance := AllocateInstanceAction(context, def);
      StoreFields(context, fieldsToCheck, operands, instance);
    }
  }

  /** The three cases of one parameter's step, spelled out. */
  lemma StepCases(p: TypeRef, st: State32, oracle: Oracle)
    ensures st.stack == [] ==> Step32(p, st, oracle) == Stop(Fail32(st, true))
    ensures st.stack != [] ==>
              var check := CheckSingleParameter(st.stack[|st.stack| - 1], p, oracle);
              && (check.0 ==>
                    Step32(p, st, oracle)
                    == Next(State32(st.stack[..|st.stack| - 1], st.rePush + [check.1], st.args + [check.1],
                                    st.actions, st.localCount, st.lost, st.widths + [1], st.kept)))
              && (!check.0 ==> Step32(p, st, oracle) == StructStep32(p, st, oracle))
  {
  }

  /**
   * One iteration of the 32-bit matcher for parameter `p`: `stop` reports
   * that the attempt ends here, before the recorded entries are pushed back.
   */
  method MatchParameter32(p: TypeRef, context: AnalysisContext, oracle: Oracle,
                          rePush: seq<Operand>, args: seq<Operand>, ghost lost: nat, ghost widths: seq<nat>,
                          ghost kept: seq<Operand>)
    returns (stop: bool, keepArguments: bool, rePush': seq<Operand>, args': seq<Operand>,
             ghost lost': nat, ghost widths': seq<nat>, ghost kept': seq<Operand>)
    modifies context
    ensures var step := Step32(p, State32(old(context.stack), rePush, args, old(context.actions), old(context.localCount), lost, widths, kept), oracle);
            var st' := State32(context.stack, rePush', args', context.actions, context.localCount, lost', widths', kept');
            && (!stop ==> step == Next(st'))
            && (stop ==> step == Stop(Fail32(st', keepArguments)))
    ensures context.registers == old(context.registers)
  {
    StepCases(p, State32(context.stack, rePush, args, context.actions, context.localCount, lost, widths, kept), oracle);
    if |context.stack| == 0 {
      return true, true, rePush, args, lost, widths, kept;
    }
    var value := context.stack[|context.stack| - 1];
    var check := CheckSingleParameter(value, p, oracle);
    if check.0 {
      context.stack := context.stack[..|context.stack| - 1];
      return false, false, rePush + [check.1], args + [check.1], lost, widths + [1], kept;
    }
    stop, rePush', args', lost', widths', kept' := MatchStruct32(p, context, oracle, rePush, args, lost, widths, kept);
    keepArguments := false;
  }

  /** The two outcomes of the struct branch once the struct definition is known. */
  lemma StructStepCases(p: TypeRef, st: State32, oracle: Oracle, def: StructDef)
    requires IsStructType(p) && oracle.resolve(p) == Some(def)
    requires |InstanceFields(def.fields)| <= |st.stack|
    ensures var fields := InstanceFields(def.fields);
            var n := |fields|;
            var popped := TopEntries(st.stack, n);
            var operands := DecomposedOperands(popped, fields, oracle);
            var instance := Local(st.localCount, Some(def.defType));
            && (AllFieldsMatch(popped, fields, oracle) ==>
                  StructStep32(p, st, oracle)
                  == Next(State32(st.stack[..|st.stack| - n], st.rePush, st.args + [instance],
                                  st.actions + [AllocateInstance(def, instance)] + FieldStores(fields, operands, instance),
                                  st.localCount + 1, st.lost + n, st.widths + [n],
                                  Without(st.kept, |st.stack| - n, |st.stack|))))
            && (!AllFieldsMatch(popped, fields, oracle) ==>
                  StructStep32(p, st, oracle)
                  == Stop(Fail32(State32(st.stack[..|st.stack| - n], st.rePush + operands, st.args,
                                         st.actions, st.localCount, st.lost, st.widths, st.kept), false)))
  {
  }

  /** The struct branch of one iteration of the 32-bit matcher. */
  method MatchStruct32(p: TypeRef, context: AnalysisContext, oracle: Oracle,
                       rePush: seq<Operand>, args: seq<Operand>, ghost lost: nat, ghost widths: seq<nat>,
                       ghost kept: seq<Operand>)
    returns (stop: bool, rePush': seq<Operand>, args': seq<Operand>, ghost lost': nat, ghost widths': seq<nat>,
             ghost kept': seq<Operand>)
    modifies context
    ensures var step := StructStep32(p, State32(old(context.stack), rePush, args, old(context.actions), old(context.localCount), lost, widths, kept), oracle);
            var st' := State32(context.stack, rePush', args', context.actions, context.localCount, lost', widths', kept');
            && (!stop ==> step == Next(st'))
            && (stop ==> step == Stop(Fail32(st', false)))
    ensures context.registers == old(context.registers)
  {
    if IsStructType(p) {
      var structTypeDef := oracle.resolve(p);
      if structTypeDef.Some? && |context.stack| >= |InstanceFields(structTypeDef.value.fields)| {
        stop, rePush', args', lost', widths', kept' := BuildStruct32(p, structTypeDef.value, context, oracle, rePush, args, lost, widths, kept);
        return;
      }
    }
    return true, rePush, args, lost, widths, kept;
  }

  /** The struct branch when the parameter's definition resolves and enough entries remain. */
  method BuildStruct32(p: TypeRef, def: StructDef, context: AnalysisContext, oracle: Oracle,
                       rePush: seq<Operand>, args: seq<Operand>, ghost lost: nat, ghost widths: seq<nat>,
                       ghost kept: seq<Operand>)
    returns (stop: bool, rePush': seq<Operand>, args': seq<Operand>, ghost lost': nat, ghost widths': seq<nat>,
             ghost kept': seq<Operand>)
    requires IsStructType(p) && oracle.resolve(p) == Some(def)
    requires |InstanceFields(def.fields)| <= |context.stack|
    modifies context
    ensures var step := StructStep32(p, State32(old(context.stack), rePush, args, old(context.actions), old(context.localCount), lost, widths, kept), oracle);
            var st' := State32(context.stack, rePush', args', context.actions, context.localCount, lost', widths', kept');
            && (!stop ==> step == Next(st'))
            && (stop ==> step == Stop(Fail32(st', false)))
    ensures context.registers == old(context.registers)
  {
    ghost var st := State32(context.stack, rePush, args, context.actions, context.localCount, lost, widths, kept);
    StructStepCases(p, st, oracle, def);
    var n := |InstanceFields(def.fields)|;
    var allStructFieldsMatch, listOfStackArgs, instanceLocal := DecomposeStruct(def, context, oracle);
    if allStructFieldsMatch {
      ghost var kept'' := Without(kept, |st.stack| - n, |st.stack|);
      assert StructStep32(p, st, oracle) == Next(State32(context.stack, rePush, args + [instanceLocal], context.actions, context.localCount, lost + n, widths + [n], kept''));
      return false, rePush, args + [instanceLocal], lost + n, widths + [n], kept'';
    }
    assert StructStep32(p, st, oracle) == Stop(Fail32(State32(context.stack, rePush + listOfStackArgs, args, context.actions, context.localCount, lost, widths, kept), false));
    return true, rePush + listOfStackArgs, args, lost, widths, kept;
  }

  /**
   * Matches a parameter list against the evaluation stack, popping what it
   * consumes; on failure it pushes back the entries it recorded.
   */
  method CheckParameters32(m: MethodSig, context: AnalysisContext, oracle: Oracle)
    returns (ok: bool, arguments: Option<seq<Operand>>)
    modifies context
    ensures var o := Match32(m.parameters, Start32(old(context.stack), old(context.actions), old(context.localCount)), oracle);
            && ok == o.ok && arguments == o.arguments
            && context.stack == o.final.stack && context.actions == o.final.actions
            && context.localCount == o.final.localCount
    ensures context.registers == old(context.registers)
  {
    ghost var ps := m.parameters;
    ghost var goal := Match32(ps, Start32(context.stack, context.actions, context.localCount), oracle);
    var args: seq<Operand> := [];
    var listToRePush: seq<Operand> := [];
    ghost var lost: nat := 0;
    ghost var widths: seq<nat> := [];
    ghost var kept := context.stack;
    for i := 0 to |m.parameters|
      invariant Match32(ps[i..], State32(context.stack, listToRePush, args, context.actions, context.localCount, lost, widths, kept), oracle) == goal
      invariant context.registers == old(context.registers)
    {
      assert ps[i..][0] == ps[i] && ps[i..][1..] == ps[i + 1..];
      var stop, keepArguments;
      stop, keepArguments, listToRePush, args, lost, widths, kept :=
        MatchParameter32(m.parameters[i], context, oracle, listToRePush, args, lost, widths, kept);
      if stop {
        RePushStack(listToRePush, context);
        return false, if keepArguments then Some(args) else None;
      }
    }
    assert ps[|ps|..] == [];
    return true, Some(args);
  }

  // =====================================================================
  // Properties of the 32-bit matcher

  /** The stack as it would look if the recorded entries were pushed back now. */
  function Restored(st: State32): seq<Operand>
  {
    st.stack + Reversed(st.rePush)
  }

  lemma SumAppend(xs: seq<nat>, x: nat)
    ensures Sum(xs + [x]) == Sum(xs) + x
  {
    assert (xs + [x])[..|xs|] == xs;
  }

  /** Accepting the top entry moves it to the recorded list, possibly rewritten. */
  lemma AcceptStepFacts(p: TypeRef, st: State32, oracle: Oracle)
    requires st.stack != [] && CheckSingleParameter(st.stack[|st.stack| - 1], p, oracle).0
    ensures Step32(p, st, oracle).Next?
    ensures var nx := Step32(p, st, oracle).next;
            && nx.stack == st.stack[..|st.stack| - 1] && nx.lost == st.lost
            && nx.actions == st.actions && nx.localCount == st.localCount
            && |nx.args| == |st.args| + 1 && nx.args[..|st.args|] == st.args
            && nx.widths == st.widths + [1]
            && Pointwise(Restored(st), Restored(nx))
  {
    var nx := Step32(p, st, oracle).next;
    var top := st.stack[|st.stack| - 1];
    var c := CheckSingleParameter(top, p, oracle).1;
    ReversedConcat(st.rePush, [c]);
    assert Restored(nx) == st.stack[..|st.stack| - 1] + [c] + Reversed(st.rePush);
    assert Restored(st) == st.stack[..|st.stack| - 1] + [top] + Reversed(st.rePush);
  }

  /** A failed struct decomposition records the popped entries, rewritten, for re-pushing. */
  lemma DecomposedOperandsRestore(stack: seq<Operand>, fields: seq<StructField>, oracle: Oracle)
    requires |fields| <= |stack|
    ensures var n := |fields|;
            Pointwise(stack[|stack| - n..], Reversed(DecomposedOperands(TopEntries(stack, n), fields, oracle)))
  {
    var n := |fields|;
    var popped := TopEntries(stack, n);
    var back := Reversed(DecomposedOperands(popped, fields, oracle));
    forall k | 0 <= k < n
      ensures SameUpToReinterpretation(stack[|stack| - n..][k], back[k])
    {
      TopEntriesAt(stack, n, n - 1 - k);
    }
  }

  /** A successful decomposition: the entries are consumed and one local is created. */
  lemma StructBuiltFacts(p: TypeRef, st: State32, oracle: Oracle, def: StructDef)
    requires IsStructType(p) && oracle.resolve(p) == Some(def)
    requires |InstanceFields(def.fields)| <= |st.stack|
    requires AllFieldsMatch(TopEntries(st.stack, |InstanceFields(def.fields)|), InstanceFields(def.fields), oracle)
    ensures StructStep32(p, st, oracle).Next?
    ensures var nx := StructStep32(p, st, oracle).next;
            && |nx.stack| <= |st.stack| && nx.stack == st.stack[..|nx.stack|]
            && nx.lost == st.lost + (|st.stack| - |nx.stack|) && nx.rePush == st.rePush
            && |nx.actions| > |st.actions| && nx.actions[..|st.actions|] == st.actions
            && nx.localCount == st.localCount + 1
            && |nx.args| == |st.args| + 1 && nx.args[..|st.args|] == st.args
            && nx.widths == st.widths + [|st.stack| - |nx.stack|]
  {
    StructStepCases(p, st, oracle, def);
    var nx := StructStep32(p, st, oracle).next;
    assert nx.actions == st.actions + ([AllocateInstance(def, Local(st.localCount, Some(def.defType)))]
                           + FieldStores(InstanceFields(def.fields), DecomposedOperands(TopEntries(st.stack, |InstanceFields(def.fields)|), InstanceFields(def.fields), oracle), Local(st.localCount, Some(def.defType))));
  }

  /** A failed decomposition: everything recorded goes back, the popped entries included. */
  lemma StructRejectedFacts(p: TypeRef, st: State32, oracle: Oracle, def: StructDef)
    requires IsStructType(p) && oracle.resolve(p) == Some(def)
    requires |InstanceFields(def.fields)| <= |st.stack|
    requires !AllFieldsMatch(TopEntries(st.stack, |InstanceFields(def.fields)|), InstanceFields(def.fields), oracle)
    ensures StructStep32(p, st, oracle).Stop?
    ensures var o := StructStep32(p, st, oracle).outcome;
            && !o.ok && o.final.rePush == [] && o.final.lost == st.lost
            && o.final.actions == st.actions && o.final.localCount == st.localCount
            && Pointwise(Restored(st), o.final.stack)
  {
    StructStepCases(p, st, oracle, def);
    var fields := InstanceFields(def.fields);
    var n := |fields|;
    var rest := st.stack[..|st.stack| - n];
    var operands := DecomposedOperands(TopEntries(st.stack, n), fields, oracle);
    DecomposedOperandsRestore(st.stack, fields, oracle);
    ReversedConcat(st.rePush, operands);
    assert rest + Reversed(st.rePush + operands) == rest + Reversed(operands) + Reversed(st.rePush);
    assert st.stack == rest + st.stack[|st.stack| - n..];
    PointwiseFramed(rest, st.stack[|st.stack| - n..], Reversed(operands), Reversed(st.rePush));
  }

  /** Every outcome of the struct branch, in terms of the stack accounting. */
  lemma StructStepFacts(p: TypeRef, st: State32, oracle: Oracle)
    ensures match StructStep32(p, st, oracle)
            case Next(nx) =>
              && IsStructType(p)
              && |nx.stack| <= |st.stack| && nx.stack == st.stack[..|nx.stack|]
              && nx.lost == st.lost + (|st.stack| - |nx.stack|) && nx.rePush == st.rePush
              && |nx.actions| > |st.actions| && nx.actions[..|st.actions|] == st.actions
              && nx.localCount == st.localCount + 1
              && |nx.args| == |st.args| + 1 && nx.args[..|st.args|] == st.args
              && nx.widths == st.widths + [|st.stack| - |nx.stack|]
            case Stop(o) =>
              && !o.ok && o.final.rePush == [] && o.final.lost == st.lost
              && o.final.actions == st.actions && o.final.localCount == st.localCount
              && Pointwise(Restored(st), o.final.stack)
  {
    if IsStructType(p) && oracle.resolve(p).Some?
       && |st.stack| >= |InstanceFields(oracle.resolve(p).value.fields)| {
      var def := oracle.resolve(p).value;
      if AllFieldsMatch(TopEntries(st.stack, |InstanceFields(def.fields)|), InstanceFields(def.fields), oracle) {
        StructBuiltFacts(p, st, oracle, def);
      } else {
        StructRejectedFacts(p, st, oracle, def);
      }
    } else {
      assert Restored(st) + Reversed([]) == Restored(st);
    }
  }

  /**
   * What one parameter's step keeps invariant. A step that creates no
   * local took the top entry as it is (or as its boolean reading); a step
   * that creates one decomposed a struct.
   */
  lemma StepFacts(p: TypeRef, st: State32, oracle: Oracle)
    ensures match Step32(p, st, oracle)
            case Next(nx) =>
              && |nx.stack| <= |st.stack| && nx.stack == st.stack[..|nx.stack|]
              && |Restored(nx)| + nx.lost == |Restored(st)| + st.lost
              && |nx.actions| >= |st.actions| && nx.actions[..|st.actions|] == st.actions
              && |nx.args| == |st.args| + 1 && nx.args[..|st.args|] == st.args
              && nx.widths == st.widths + [|st.stack| - |nx.stack|]
              && nx.lost >= st.lost
              && (nx.localCount == st.localCount ==>
                    && nx.lost == st.lost && nx.actions == st.actions
                    && Pointwise(Restored(st), Restored(nx)))
              && (nx.localCount != st.localCount ==> nx.localCount == st.localCount + 1 && IsStructType(p))
            case Stop(o) =>
              && !o.ok && o.final.rePush == [] && o.final.lost == st.lost
              && o.final.actions == st.actions && o.final.localCount == st.localCount
              && Pointwise(Restored(st), o.final.stack)
              && (o.arguments.Some? ==> o.arguments == Some(st.args))
  {
    if st.stack == [] {
      assert Restored(st) + Reversed([]) == Restored(st);
    } else if CheckSingleParameter(st.stack[|st.stack| - 1], p, oracle).0 {
      AcceptStepFacts(p, st, oracle);
    } else {
      StructStepFacts(p, st, oracle);
    }
  }

  /** What a whole 32-bit attempt keeps invariant, from any intermediate state. */
  lemma {:induction false} Match32Facts(ps: seq<TypeRef>, st: State32, oracle: Oracle)
    ensures var o := Match32(ps, st, oracle);
            && o.final.lost >= st.lost && o.final.localCount >= st.localCount
            && |o.final.actions| >= |st.actions| && o.final.actions[..|st.actions|] == st.actions
            && (o.ok ==>
                  && o.arguments == Some(o.final.args)
                  && |o.final.args| == |st.args| + |ps| && o.final.args[..|st.args|] == st.args
                  && |o.final.stack| <= |st.stack| && o.final.stack == st.stack[..|o.final.stack|]
                  && |o.final.widths| == |st.widths| + |ps|
                  && Sum(o.final.widths) + |o.final.stack| == Sum(st.widths) + |st.stack|)
            && (!o.ok ==> o.final.rePush == [] && |o.final.stack| + o.final.lost == |Restored(st)| + st.lost)
            && (!o.ok && o.arguments.Some? ==> o.arguments == Some(o.final.args))
            && (o.final.localCount == st.localCount ==>
                  && o.final.lost == st.lost && o.final.actions == st.actions
                  && (!o.ok ==> Pointwise(Restored(st), o.final.stack)))
            && ((forall i | 0 <= i < |ps| :: !IsStructType(ps[i])) ==> o.final.localCount == st.localCount)
    decreases |ps|
  {
    if ps != [] {
      StepFacts(ps[0], st, oracle);
      match Step32(ps[0], st, oracle)
      case Stop(o) =>
      case Next(nx) =>
        Match32Facts(ps[1..], nx, oracle);
        var o := Match32(ps[1..], nx, oracle);
        assert o == Match32(ps, st, oracle);
        SumAppend(st.widths, |st.stack| - |nx.stack|);
        if o.final.localCount == st.localCount {
          if !o.ok {
            PointwiseTransitive(Restored(st), Restored(nx), o.final.stack);
          }
        }
        if forall i | 0 <= i < |ps| :: !IsStructType(ps[i]) {
          assert forall i | 0 <= i < |ps[1..]| :: !IsStructType(ps[1..][i]) by {
            forall i | 0 <= i < |ps[1..]| ensures !IsStructType(ps[1..][i]) {
              assert ps[1..][i] == ps[i + 1];
            }
          }
        }
    }
  }

  /**
   * The entries still in play: the stack as it stands, then the originals
   * of the recorded entries, which pushing the records back restores up to
   * the boolean reading.
   */
  ghost predicate KeptInvariant(st: State32)
  {
    Keeps(st.stack, st.rePush, st.kept)
  }

  ghost predicate Keeps(stack: seq<Operand>, rePush: seq<Operand>, kept: seq<Operand>)
  {
    && |stack| <= |kept| && kept[..|stack|] == stack
    && Pointwise(kept[|stack|..], Reversed(rePush))
  }

  lemma PointwiseConcat(a: seq<Operand>, b: seq<Operand>, c: seq<Operand>, d: seq<Operand>)
    requires Pointwise(a, b) && Pointwise(c, d)
    ensures Pointwise(a + c, b + d)
  {
    forall i | 0 <= i < |a + c|
      ensures SameUpToReinterpretation((a + c)[i], (b + d)[i])
    {
      if i >= |a| {
        assert (a + c)[i] == c[i - |a|] && (b + d)[i] == d[i - |a|];
      }
    }
  }

  /** Pushing the recorded entries back now gives the kept entries, up to the boolean reading. */
  lemma KeptRestores(stack: seq<Operand>, rePush: seq<Operand>, kept: seq<Operand>)
    requires Keeps(stack, rePush, kept)
    ensures Pointwise(kept, stack + Reversed(rePush))
  {
    PointwiseConcat(stack, stack, kept[|stack|..], Reversed(rePush));
    assert kept == stack + kept[|stack|..];
  }

  /** Taking the top entry whole moves it from the stack to the records. */
  lemma KeepsAfterTake(stack: seq<Operand>, rePush: seq<Operand>, kept: seq<Operand>, v: Operand)
    requires Keeps(stack, rePush, kept) && stack != []
    requires SameUpToReinterpretation(stack[|stack| - 1], v)
    ensures Keeps(stack[..|stack| - 1], rePush + [v], kept)
  {
    var k := |stack| - 1;
    ReversedAppend(rePush, v);
    assert kept[k..] == [stack[k]] + kept[|stack|..];
    assert Pointwise([stack[k]], [v]);
    PointwiseConcat([stack[k]], [v], kept[|stack|..], Reversed(rePush));
  }

  /** A decomposition removes the popped block from the kept entries. */
  lemma KeepsAfterDecompose(stack: seq<Operand>, rePush: seq<Operand>, kept: seq<Operand>, m: nat)
    requires Keeps(stack, rePush, kept) && m <= |stack|
    ensures Keeps(stack[..m], rePush, Without(kept, m, |stack|))
    ensures var w := Without(kept, m, |stack|);
            |w| == |kept| - (|stack| - m) && kept == w[..m] + stack[m..] + w[m..]
  {
    var w := Without(kept, m, |stack|);
    assert w == kept[..m] + kept[|stack|..];
    assert w[..m] == stack[..m];
    assert w[m..] == kept[|stack|..];
    assert kept[m..|stack|] == stack[m..];
    assert kept == kept[..m] + kept[m..|stack|] + kept[|stack|..];
  }

  /** A failed decomposition pushes back the kept entries, up to the boolean reading. */
  lemma KeepsAfterFailedDecompose(stack: seq<Operand>, rePush: seq<Operand>, kept: seq<Operand>,
                                  m: nat, operands: seq<Operand>)
    requires Keeps(stack, rePush, kept) && m <= |stack|
    requires Pointwise(stack[m..], Reversed(operands))
    ensures Pointwise(kept, stack[..m] + Reversed(rePush + operands))
  {
    var rest := stack[..m];
    ReversedConcat(rePush, operands);
    assert kept == rest + stack[m..] + kept[|stack|..];
    PointwiseConcat(rest, rest, stack[m..], Reversed(operands));
    PointwiseConcat(rest + stack[m..], rest + Reversed(operands), kept[|stack|..], Reversed(rePush));
    assert rest + Reversed(operands) + Reversed(rePush) == rest + Reversed(rePush + operands);
  }

  /**
   * What one step does to the kept entries: going on keeps the invariant,
   * and a direct match leaves the kept entries alone while a decomposition
   * removes from them exactly the entries it popped; a stop restores them.
   */
  ghost predicate KeptStep(st: State32, step: Step)
  {
    && (step.Next? ==>
          && KeptInvariant(step.next)
          && |step.next.kept| + step.next.lost == |st.kept| + st.lost
          && step.next.localCount >= st.localCount
          && |step.next.stack| <= |st.stack|
          && (step.next.localCount == st.localCount ==> step.next.kept == st.kept)
          && (step.next.localCount != st.localCount ==>
                st.kept == step.next.kept[..|step.next.stack|] + st.stack[|step.next.stack|..]
                           + step.next.kept[|step.next.stack|..]))
    && (step.Stop? ==> step.outcome.final.kept == st.kept && Pointwise(st.kept, step.outcome.final.stack))
  }

  /** The struct branch keeps the invariant, whether the decomposition succeeds or not. */
  lemma StructStepKept(p: TypeRef, st: State32, oracle: Oracle, def: StructDef)
    requires KeptInvariant(st)
    requires IsStructType(p) && oracle.resolve(p) == Some(def)
    requires |InstanceFields(def.fields)| <= |st.stack|
    ensures KeptStep(st, StructStep32(p, st, oracle))
  {
    var fields := InstanceFields(def.fields);
    var m := |st.stack| - |fields|;
    var popped := TopEntries(st.stack, |fields|);
    StructStepCases(p, st, oracle, def);
    if AllFieldsMatch(popped, fields, oracle) {
      KeepsAfterDecompose(st.stack, st.rePush, st.kept, m);
    } else {
      var operands := DecomposedOperands(popped, fields, oracle);
      DecomposedOperandsRestore(st.stack, fields, oracle);
      KeepsAfterFailedDecompose(st.stack, st.rePush, st.kept, m, operands);
    }
  }

  /** Every parameter's step keeps the invariant. */
  lemma StepKept(p: TypeRef, st: State32, oracle: Oracle)
    requires KeptInvariant(st)
    ensures KeptStep(st, Step32(p, st, oracle))
  {
    KeptRestores(st.stack, st.rePush, st.kept);
    StepCases(p, st, oracle);
    if st.stack != [] {
      var check := CheckSingleParameter(st.stack[|st.stack| - 1], p, oracle);
      if check.0 {
        KeepsAfterTake(st.stack, st.rePush, st.kept, check.1);
      } else if IsStructType(p) && oracle.resolve(p).Some?
                && |st.stack| >= |InstanceFields(oracle.resolve(p).value.fields)| {
        StructStepKept(p, st, oracle, oracle.resolve(p).value);
      }
    }
  }

  /**
   * Over the parameter list: the kept entries shrink exactly by what the
   * decompositions take, and a failure leaves the stack equal to them up to
   * the boolean reading.
   */
  lemma {:induction false} Match32Kept(ps: seq<TypeRef>, st: State32, oracle: Oracle)
    requires KeptInvariant(st)
    ensures var o := Match32(ps, st, oracle);
            && |o.final.kept| + o.final.lost == |st.kept| + st.lost
            && o.final.localCount >= st.localCount
            && (o.final.localCount == st.localCount ==> o.final.kept == st.kept)
            && (!o.ok ==> Pointwise(o.final.kept, o.final.stack))
    decreases |ps|
  {
    if ps != [] {
      StepKept(ps[0], st, oracle);
      match Step32(ps[0], st, oracle)
      case Next(nx) => Match32Kept(ps[1..], nx, oracle);
      case Stop(o) =>
    }
  }

  /**
   * A successful 32-bit match yields one argument per parameter and leaves
   * the stack advanced past exactly the entries it consumed: one per
   * parameter taken whole, one per instance field of a decomposed struct.
   */
  lemma Match32Success(ps: seq<TypeRef>, stack: seq<Operand>, actions: seq<Action>, localCount: nat, oracle: Oracle)
    ensures var o := Match32(ps, Start32(stack, actions, localCount), oracle);
            o.ok ==>
              && o.arguments.Some? && |o.arguments.value| == |ps|
              && |o.final.stack| <= |stack| && o.final.stack == stack[..|o.final.stack|]
              && |o.final.widths| == |ps| && |stack| - |o.final.stack| == Sum(o.final.widths)
              && |actions| <= |o.final.actions| && o.final.actions[..|actions|] == actions
  {
    Match32Facts(ps, Start32(stack, actions, localCount), oracle);
  }

  /**
   * A failed 32-bit match loses exactly the entries taken by struct
   * decompositions that succeeded before the failure: the final stack is,
   * entry for entry, the original stack with those blocks cut out (`kept`),
   * up to constants rewritten as booleans. When no struct was built it
   * records no action and leaves the stack as it found it.
   */
  lemma Match32Failure(ps: seq<TypeRef>, stack: seq<Operand>, actions: seq<Action>, localCount: nat, oracle: Oracle)
    ensures var o := Match32(ps, Start32(stack, actions, localCount), oracle);
            && |o.final.kept| + o.final.lost == |stack|
            && (o.final.localCount == localCount ==> o.final.kept == stack)
    ensures var o := Match32(ps, Start32(stack, actions, localCount), oracle);
            !o.ok ==>
              && Pointwise(o.final.kept, o.final.stack)
              && |o.final.stack| == |stack| - o.final.lost
              && (o.final.localCount == localCount ==>
                    o.final.lost == 0 && o.final.actions == actions && Pointwise(stack, o.final.stack))
  {
    var st := Start32(stack, actions, localCount);
    Match32Facts(ps, st, oracle);
    assert st.kept[|st.stack|..] == [] && Reversed(st.rePush) == [];
    Match32Kept(ps, st, oracle);
    assert Restored(st) == stack;
  }

  /** Without struct parameters a 32-bit match never creates a local, so a failure restores the stack. */
  lemma NoStructParametersNoSideEffects(ps: seq<TypeRef>, stack: seq<Operand>, actions: seq<Action>, localCount: nat, oracle: Oracle)
    requires forall i | 0 <= i < |ps| :: !IsStructType(ps[i])
    ensures var o := Match32(ps, Start32(stack, actions, localCount), oracle);
            && o.final.actions == actions && o.final.localCount == localCount
            && (!o.ok ==> Pointwise(stack, o.final.stack))
            && (o.ok ==> |stack| - |o.final.stack| == |ps|)
  {
    var st := Start32(stack, actions, localCount);
    Match32Facts(ps, st, oracle);
    Match32Failure(ps, stack, actions, localCount, oracle);
    var o := Match32(ps, st, oracle);
    if o.ok {
      Match32WidthsWithoutStructs(ps, st, oracle);
    }
  }

  /** Without struct parameters every matched parameter is one stack entry wide. */
  lemma {:induction false} Match32WidthsWithoutStructs(ps: seq<TypeRef>, st: State32, oracle: Oracle)
    requires forall i | 0 <= i < |ps| :: !IsStructType(ps[i])
    ensures var o := Match32(ps, st, oracle);
            o.ok ==> |st.stack| - |o.final.stack| == |ps|
    decreases |ps|
  {
    if ps != [] {
      StepFacts(ps[0], st, oracle);
      match Step32(ps[0], st, oracle)
      case Stop(_) =>
      case Next(nx) =>
        assert !IsStructType(ps[0]);
        assert forall i | 0 <= i < |ps[1..]| :: !IsStructType(ps[1..][i]) by {
          forall i | 0 <= i < |ps[1..]| ensures !IsStructType(ps[1..][i]) {
            assert ps[1..][i] == ps[i + 1];
          }
        }
        Match32WidthsWithoutStructs(ps[1..], nx, oracle);
        Match32Facts(ps[1..], nx, oracle);
        StructStepFacts(ps[0], st, oracle);
        assert |nx.stack| == |st.stack| - 1 by {
          assert st.stack != [] && CheckSingleParameter(st.stack[|st.stack| - 1], ps[0], oracle).0;
          AcceptStepFacts(ps[0], st, oracle);
        }
    }
  }

  // =====================================================================
  // Entry points

  /** The 32-bit arguments in the shape both matchers report: every entry present. */
  function AllPresent(arguments: Option<seq<Operand>>): (r: Option<seq<Option<Operand>>>)
    ensures r.Some? <==> arguments.Some?
    ensures r.Some? ==> |r.value| == |arguments.value|
                        && forall i | 0 <= i < |r.value| :: r.value[i] == Some(arguments.value[i])
  {
    match arguments
    case None => None
    case Some(xs) => Some(seq(|xs|, i requires 0 <= i < |xs| => Some(xs[i])))
  }

  /**
   * The outcome of a match for the target's word size: on 32-bit targets
   * the stack matcher, with its effect on the stack, the actions and the
   * local counter; on 64-bit targets the register matcher, which changes
   * nothing.
   */
  ghost predicate DispatchedMatch(m: MethodSig, is32Bit: bool, oracle: Oracle, isInstance: bool, failOnLeftoverArgs: bool,
                                  registers: map<Register, Operand>,
                                  stack: seq<Operand>, actions: seq<Action>, localCount: nat,
                                  ok: bool, arguments: Option<seq<Option<Operand>>>,
                                  stack': seq<Operand>, actions': seq<Action>, localCount': nat)
  {
    if is32Bit then
      var o := Match32(m.parameters, Start32(stack, actions, localCount), oracle);
      && ok == o.ok && arguments == AllPresent(o.arguments)
      && stack' == o.final.stack && actions' == o.final.actions && localCount' == o.final.localCount
    else
      var candidates := CandidateArguments(registers, isInstance);
      && (ok <==> Matches64(m.parameters, candidates, oracle, failOnLeftoverArgs))
      && arguments == (if ok then Some(candidates[..|m.parameters|]) else None)
      && stack' == stack && actions' == actions && localCount' == localCount
  }

  /**
   * Matches a managed method's parameters against a call site, with the
   * matcher for the target's word size. The 32-bit matcher ignores
   * `isInstance` and `failOnLeftoverArgs`.
   */
  method CheckParameters(m: MethodSig, context: AnalysisContext, is32Bit: bool, oracle: Oracle,
                         isInstance: bool, failOnLeftoverArgs: bool)
    returns (ok: bool, arguments: Option<seq<Option<Operand>>>)
    modifies context
    ensures DispatchedMatch(m, is32Bit, oracle, isInstance, failOnLeftoverArgs, old(context.registers),
                            old(context.stack), old(context.actions), old(context.localCount),
                            ok, arguments, context.stack, context.actions, context.localCount)
    ensures context.registers == old(context.registers)
  {
    if is32Bit {
      var stackArguments;
      ok, stackArguments := CheckParameters32(m, context, oracle);
      arguments := AllPresent(stackArguments);
    } else {
      ok, arguments := CheckParameters64(m, context.registers, oracle, isInstance, failOnLeftoverArgs);
    }
  }

  /**
   * The managed signature a native method is matched with: the mapped
   * managed method, instantiated over the receiver's generic arguments when
   * its declaring type is generic and the receiver's type is a generic
   * instance.
   */
  function ManagedSignature(managed: MethodSig, receiverType: Option<TypeRef>, oracle: Oracle): (r: MethodSig)
  {
    if managed.declaringTypeHasGenericParams && receiverType.Some? && receiverType.value.HasGenericArguments()
    then oracle.makeGeneric(managed, receiverType.value.genericArgs)
    else managed
  }

  /** Only a generic declaring type and a generic-instance receiver change the signature. */
  lemma ManagedSignatureUnchanged(managed: MethodSig, receiverType: Option<TypeRef>, oracle: Oracle)
    ensures ManagedSignature(managed, receiverType, oracle) != managed ==>
              && managed.declaringTypeHasGenericParams && receiverType.Some?
              && receiverType.value.Named? && |receiverType.value.genericArgs| > 0
  {
  }

  /**
   * Matches a native method's call site: looks up its managed counterpart
   * (the lookup fails for an unmapped method) and matches that, or its
   * generic instantiation over the receiver's type.
   */
  method CheckParametersNative(nativeMethod: nat, managedMethods: map<nat, MethodSig>, receiverType: Option<TypeRef>,
                               context: AnalysisContext, is32Bit: bool, oracle: Oracle,
                               isInstance: bool, failOnLeftoverArgs: bool)
    returns (ok: bool, arguments: Option<seq<Option<Operand>>>)
    requires nativeMethod in managedMethods
    modifies context
    ensures DispatchedMatch(ManagedSignature(managedMethods[nativeMethod], receiverType, oracle),
                            is32Bit, oracle, isInstance, failOnLeftoverArgs, old(context.registers),
                            old(context.stack), old(context.actions), old(context.localCount),
                            ok, arguments, context.stack, context.actions, context.localCount)
    ensures context.registers == old(context.registers)
  {
    var managedMethod := managedMethods[nativeMethod];
    if managedMethod.declaringTypeHasGenericParams && receiverType.Some? && receiverType.value.HasGenericArguments() {
      managedMethod := oracle.makeGeneric(managedMethod, receiverType.value.genericArgs);
    }
    ok, arguments := CheckParameters(managedMethod, context, is32Bit, oracle, isInstance, failOnLeftoverArgs);
  }

  // =====================================================================
  // Worked 32-bit call sites

  const Int32Type := Named("System", "Int32", true, true, [])
  const Int64Type := Named("System", "Int64", true, true, [])
  const BooleanType := Named("System", "Boolean", true, true, [])
  const Vector2IntType := Named("UnityEngine", "Vector2Int", true, false, [])
  const FieldX := StructField("x", Int32Type, false)
  const FieldY := StructField("y", Int32Type, false)
  const Vector2IntDef := StructDef(Vector2IntType, [FieldX, FieldY, StructField("zero", Vector2IntType, true)])

  /** Exact-type assignability and a single resolvable struct. */
  const ExampleOracle := Oracle(
    (expected: TypeRef, actual: TypeRef) => expected == actual,
    (t: TypeRef) => if t == Vector2IntType then Some(Vector2IntDef) else None,
    (op: Operand) => false,
    (m: MethodSig, args: seq<TypeRef>) => m)

  lemma Vector2IntInstanceFields()
    ensures InstanceFields(Vector2IntDef.fields) == [FieldX, FieldY]
  {
    var fs := Vector2IntDef.fields;
    assert fs[1..][1..][1..] == [];
    assert InstanceFields(fs[1..][1..]) == [];
    assert InstanceFields(fs[1..]) == [FieldY];
  }

  /**
   * A `Vector2Int` parameter facing two `int` locals (`x` on top) is
   * matched by building the struct: one allocation, one store per field.
   */
  lemma StructPassedFieldByField(x: nat, y: nat, localCount: nat)
    ensures var a := Local(x, Some(Int32Type));
            var b := Local(y, Some(Int32Type));
            var instance := Local(localCount, Some(Vector2IntType));
            var o := Match32([Vector2IntType], Start32([b, a], [], localCount), ExampleOracle);
            && o.ok && o.arguments == Some([instance]) && o.final.stack == []
            && o.final.actions == [AllocateInstance(Vector2IntDef, instance),
                                   LocalToField(FieldX, instance, a), LocalToField(FieldY, instance, b)]
  {
    var a := Local(x, Some(Int32Type));
    var b := Local(y, Some(Int32Type));
    var instance := Local(localCount, Some(Vector2IntType));
    var st := Start32([b, a], [], localCount);
    Vector2IntInstanceFields();
    assert !CheckSingleParameter(a, Vector2IntType, ExampleOracle).0;
    assert TopEntries([b, a], 2) == [a, b];
    assert AllFieldsMatch([a, b], [FieldX, FieldY], ExampleOracle);
    assert DecomposedOperands([a, b], [FieldX, FieldY], ExampleOracle) == [a, b];
    assert [Vector2IntType][1..] == [];
    assert [] + [instance] == [instance];
    assert FieldStores([FieldX, FieldY], [a, b], instance) == [LocalToField(FieldX, instance, a), LocalToField(FieldY, instance, b)] by {
      assert [FieldX, FieldY][..1] == [FieldX] && [a, b][..1] == [a];
      assert [FieldX][..0] == [] && [a][..0] == [];
    }
  }

  /**
   * The same call site with a `long` where `y` belongs fails, and the two
   * entries are back on the stack in their original order.
   */
  lemma MismatchedFieldRestoresStack(x: nat, y: nat, localCount: nat)
    ensures var a := Local(x, Some(Int32Type));
            var b := Local(y, Some(Int64Type));
            var o := Match32([Vector2IntType], Start32([b, a], [], localCount), ExampleOracle);
            && !o.ok && o.arguments.None? && o.final.stack == [b, a]
            && o.final.actions == [] && o.final.localCount == localCount
  {
    var a := Local(x, Some(Int32Type));
    var b := Local(y, Some(Int64Type));
    Vector2IntInstanceFields();
    assert !CheckSingleParameter(a, Vector2IntType, ExampleOracle).0;
    assert TopEntries([b, a], 2) == [a, b];
    assert Int32Type != Int64Type by { assert Int32Type.name[4] != Int64Type.name[4]; }
    assert !CheckSingleParameter(b, FieldY.fieldType, ExampleOracle).0;
    assert !AllFieldsMatch([a, b], [FieldX, FieldY], ExampleOracle);
    assert DecomposedOperands([a, b], [FieldX, FieldY], ExampleOracle) == [a, b];
    assert Reversed([a, b]) == [b, a];
  }

  /**
   * Entries taken by a successful decomposition are not pushed back when a
   * later parameter fails: the stack ends empty and the allocation stays.
   */
  lemma DecomposedEntriesLostOnLaterFailure(x: nat, y: nat, localCount: nat)
    ensures var a := Local(x, Some(Int32Type));
            var b := Local(y, Some(Int32Type));
            var o := Match32([Vector2IntType, Int32Type], Start32([b, a], [], localCount), ExampleOracle);
            && !o.ok && o.final.stack == [] && o.final.kept == [] && |o.final.actions| == 3
            && o.arguments == Some([Local(localCount, Some(Vector2IntType))])
  {
    var a := Local(x, Some(Int32Type));
    var b := Local(y, Some(Int32Type));
    var instance := Local(localCount, Some(Vector2IntType));
    StructPassedFieldByField(x, y, localCount);
    var ps := [Vector2IntType, Int32Type];
    var st := Start32([b, a], [], localCount);
    assert ps[1..] == [Int32Type];
    var nx := Step32(Vector2IntType, st, ExampleOracle).next;
    assert Match32([Vector2IntType], st, ExampleOracle) == Match32([], nx, ExampleOracle);
    assert Match32(ps, st, ExampleOracle) == Match32([Int32Type], nx, ExampleOracle);
    assert nx.stack == [] && nx.args == [instance];
  }

  /**
   * A `ulong` 1 offered for a `bool` is accepted as `true`; when a later
   * parameter then fails, the rewritten constant is what goes back.
   */
  lemma BooleanReadingPersistsOnFailure()
    ensures var c := Constant("System.UInt64", ULongValue(1));
            var t := Constant(BooleanName, BoolValue(true));
            && Match32([BooleanType], Start32([c], [], 0), ExampleOracle).ok
            && Match32([BooleanType], Start32([c], [], 0), ExampleOracle).arguments == Some([t])
            && Match32([BooleanType, Int32Type], Start32([c], [], 0), ExampleOracle).final.stack == [t]
            && !Match32([BooleanType, Int32Type], Start32([c], [], 0), ExampleOracle).ok
  {
    var c := Constant("System.UInt64", ULongValue(1));
    var t := Constant(BooleanName, BoolValue(true));
    assert FullName(BooleanType) == BooleanName;
    assert "System.UInt64" != BooleanName by { assert "System.UInt64"[7] != BooleanName[7]; }
    assert CheckSingleParameter(c, BooleanType, ExampleOracle) == (true, t);
    assert [BooleanType][1..] == [];
    assert [] + [t] == [t];
    var ps := [BooleanType, Int32Type];
    assert ps[1..] == [Int32Type];
  }
}
