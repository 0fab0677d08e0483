/**
 * The placeholder bodies given to reconstructed methods, and a small
 * abstract interpreter for the few opcodes they use.
 */
module MethodBodies {
  import opened Types

  datatype Opcode = Ret | Ldnull | LdlocaS(local: nat) | Initobj(initType: TypeRef) | Ldloc0

  /** A method body: its local variables and its instructions. */
  datatype Body = Body(locals: seq<TypeRef>, code: seq<Opcode>)

  const AbstractFlag: bv16 := 0x0400
  const PInvokeImplFlag: bv16 := 0x2000

  /** The metadata library's `HasBody` for a method without implementation flags. */
  predicate HasBody(flags: bv16)
  {
    flags & AbstractFlag == 0 && flags & PInvokeImplFlag == 0
  }

  /** A stub is added to a method with a body, except in a delegate type. */
  predicate NeedsStub(flags: bv16, declaringBaseType: Option<TypeRef>)
  {
    HasBody(flags) && (declaringBaseType.None? || FullName(declaringBaseType.value) != MulticastDelegateName)
  }

  /**
   * The stub for a return type: `ret` for `void`; a zero-initialised
   * local returned for a value type; `null` otherwise.
   */
  function StubBody(returnType: TypeRef): Body
  {
    if FullName(returnType) == VoidName then Body([], [Ret])
    else if returnType.IsValueType() then Body([returnType], [LdlocaS(0), Initobj(returnType), Ldloc0, Ret])
    else Body([], [Ldnull, Ret])
  }

  /** What the evaluation stack holds while a stub runs. */
  datatype StackValue = NullRef | Address(local: nat) | Value(valueType: TypeRef)

  /**
   * Runs `code` on an evaluation stack, tracking which locals have been
   * initialised. The result is `Some(r)` when the code reaches `ret` with
   * a stack holding nothing (`r == None`) or exactly the returned value,
   * and `None` when an instruction is misused or the code runs off its end.
   */
  function Run(code: seq<Opcode>, locals: seq<TypeRef>, stack: seq<StackValue>, initialised: set<nat>): Option<Option<StackValue>>
    decreases |code|
  {
    if code == [] then None
    else
      match code[0]
      case Ret =>
        if stack == [] then Some(None)
        else if |stack| == 1 then Some(Some(stack[0]))
        else None
      case Ldnull => Run(code[1..], locals, stack + [NullRef], initialised)
      case LdlocaS(i) =>
        if i < |locals| then Run(code[1..], locals, stack + [Address(i)], initialised) else None
      case Initobj(t) =>
        if stack != [] && stack[|stack| - 1].Address? && stack[|stack| - 1].local < |locals|
           && locals[stack[|stack| - 1].local] == t
        then Run(code[1..], locals, stack[..|stack| - 1], initialised + {stack[|stack| - 1].local})
        else None
      case Ldloc0 =>
        if 0 < |locals| && 0 in initialised then Run(code[1..], locals, stack + [Value(locals[0])], initialised) else None
  }

  /**
   * Every stub runs to its `ret` and returns the default of the method's
   * return type: nothing for `void`, an initialised value of a value type,
   * `null` for anything else.
   */
  lemma StubReturnsDefault(returnType: TypeRef)
    ensures var b := StubBody(returnType);
            Run(b.code, b.locals, [], {})
            == if FullName(returnType) == VoidName then Some(None)
               else if returnType.IsValueType() then Some(Some(Value(returnType)))
               else Some(Some(NullRef))
  {
    var b := StubBody(returnType);
    if FullName(returnType) != VoidName && returnType.IsValueType() {
      assert b.code[1..][1..][1..] == [Ret];
      assert Run(b.code[1..][1..], b.locals, [], {0}) == Some(Some(Value(returnType)));
      assert [Address(0)][..0] == [];
      assert Run(b.code[1..], b.locals, [Address(0)], {}) == Run(b.code[1..][1..], b.locals, [], {} + {0});
      assert {} + {0} == {0};
    } else if FullName(returnType) != VoidName {
      assert b.code[1..] == [Ret];
    }
  }

  /** Only a value-type stub declares a local, and then exactly one of the return type. */
  lemma StubLocals(returnType: TypeRef)
    ensures StubBody(returnType).locals != [] <==> FullName(returnType) != VoidName && returnType.IsValueType()
    ensures StubBody(returnType).locals != [] ==> StubBody(returnType).locals == [returnType]
    ensures |StubBody(returnType).code| == if StubBody(returnType).locals != [] then 4 else if FullName(returnType) == VoidName then 1 else 2
  {
  }
}
