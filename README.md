# Cpp2IL: argument matching and metadata reconstruction, in Dafny

Cpp2IL rebuilds managed (.NET) assemblies from an IL2CPP game binary and its
metadata. This project models two parts of it and proves their behaviour.

**Call-site argument matching** (`Cpp2IL/Analysis/MethodUtils.cs`). Method
analysis uses it to decide whether a call site fits a candidate managed
method.
- On 64-bit targets it reads the argument registers. It takes one
  candidate per declared parameter and then rejects real arguments left
  over (`CheckParameters64`).
- On 32-bit targets it consumes a shared evaluation stack (`CheckParameters32`).
  - A struct parameter may be rebuilt from its fields' values pushed one
    by one. This appends an allocation and field-store actions to the
    analysis.
  - On failure, the entries it recorded are pushed back.
- Both matchers share the per-operand rule `CheckSingleParameter`. That rule
  rewrites a `ulong` constant into a boolean in place.

`AnalysisContext` is a class with the register file, the stack, the action
list and the local counter. The 32-bit matcher is an imperative method over
it, proved equal to `Match32`, a specification function that applies one
step per parameter. The lemmas about `Match32` state what the source
promises, and also what it does not: which entries are restored on
failure, and which are lost. The state of `Match32` carries, besides the
stack and the re-push list, the "kept entries": the original stack minus
the blocks that successful struct decompositions took. A failure leaves
exactly those on the stack, up to the boolean rewrite.

**Metadata reconstruction** (`Cpp2IL.Core/AssemblyPopulator.cs`). This code
fills stub types with what the native metadata describes:
- generic parameters, base type and interfaces;
- fields and the per-type field layout sorted by offset;
- methods, with their generic parameters, stub bodies, parameters and the
  method tables by index, address and virtual slot;
- properties.

It then adds explicit-override edges by name.

The shared state (`SharedState`) is a class over an arena of managed types
and methods addressed by handle. It also holds:
- the generic-parameter registry;
- the method tables;
- the maps from native ids to managed handles;
- the field layouts.

Each population step is a method on that class, proved to leave the state
that a pure function of the old state gives. The properties are proved about
those functions. Failures that throw in the source are `Error` values.
- A failure while copying a type is wrapped with the type's full name, its
  module, its declaring type and the image's name.
- The first failure stops a pass.

The Cecil and native-binary services the code calls are parameters:
- `Reader`: type import and field offsets.
- `Resolver`: lookup of a type by name, generic-parameter resolution and
  the methods of a resolved type.
- `Oracle`: assignability, type resolution, empty register arguments and
  generic instantiation.

Modules: `Types`, `MethodUtils`, `FieldLayout`, `Tables`, `MethodBodies`,
`Metadata`, `GenericParams`, `TypeContents`, `Properties`, `Overrides`,
`Assembly` (the per-image passes as functions) and `AssemblyPopulator` (the
`SharedState` class and the value-level helper methods it calls).

### Behaviours worth noting

- **No boolean reading on 64-bit.** The 64-bit matcher compares a constant's
  type name directly (`Cpp2IL/Analysis/MethodUtils.cs:54`). It never
  reinterprets a `ulong` as a boolean.
  - So an instance call `(bool)` with `rdx = ulong 1`, or a static call
    `(bool)` with `rcx = ulong 1`, fails on the name comparison
    `System.UInt64` against `System.Boolean`.
  - See `MethodUtils.NoBooleanReadingIn64Bit`.
- **Decomposed entries are not pushed back.** Entries popped by a successful
  struct decomposition never enter `listToRePush`
  (`Cpp2IL/Analysis/MethodUtils.cs:124-155`). A later failure
  (`Cpp2IL/Analysis/MethodUtils.cs:83-87` or `157-169`) pushes back only the
  other entries.
  - `MethodUtils.Match32Failure` states the failed stack as the original
    stack with exactly the decomposed blocks removed;
    `MethodUtils.DecomposedEntriesLostOnLaterFailure` is one instance.
  - A rewritten boolean constant also stays rewritten after it is pushed
    back (`MethodUtils.BooleanReadingPersistsOnFailure`).
- **`arguments` on an empty stack.** When the stack runs out
  (`Cpp2IL/Analysis/MethodUtils.cs:83-87`), `arguments` keeps the partial
  list; only the other failure sets it to null (line 168).
- **Equal offsets have no fixed order.** The field layout is sorted with
  `List.Sort` (`Cpp2IL.Core/AssemblyPopulator.cs:486`), which is unstable:
  the result is non-decreasing by offset, and fields with equal offsets may
  come out in any order.
- **Override failures can throw.** In the compiler-generated-type rules, the
  `Single` lookups (`Cpp2IL.Core/AssemblyPopulator.cs:203-209`), the casts
  to `GenericInstanceType` (lines 178-181) and `FindMethod` (lines 254, 263)
  can throw, and nothing there catches the exception. Only the general
  override pass catches a failing lookup and skips the method with a
  warning (lines 283-357).

## Model

| member | source | states |
|---|---|---|
| MethodUtils.CheckSingleParameter | Cpp2IL/Analysis/MethodUtils.cs:175-196 | A constant is accepted exactly when its type name equals the expected type's, or the expected type is `System.Boolean` and the value is a `ulong`. A local is accepted exactly when its type is known and assignable to the expected type. Any other operand is accepted. Only the boolean case rewrites the operand, to `bool` with value `n == 1`. |
| MethodUtils.RejectedOperandUnchanged | Cpp2IL/Analysis/MethodUtils.cs:179-192 | A rejected operand is never rewritten. |
| MethodUtils.AcceptedOperandIsStable | Cpp2IL/Analysis/MethodUtils.cs:179-195 | Checking an accepted operand, as rewritten, against the same type accepts it again and changes nothing (idempotence). |
| MethodUtils.CandidateArguments | Cpp2IL/Analysis/MethodUtils.cs:38-44 | An instance call has three candidate arguments; any other call has four. |
| MethodUtils.CandidateOrder | Cpp2IL/Analysis/MethodUtils.cs:38-44 | Candidate k is the integer register of its pair when it holds an operand, otherwise the xmm register, otherwise absent. Pairs start at rcx/xmm0 for non-instance calls and at rdx/xmm1 for instance calls. |
| MethodUtils.PresentCount | Cpp2IL/Analysis/MethodUtils.cs:49 | The count of non-null candidates is zero exactly when every candidate is absent. |
| MethodUtils.AnyRealArgument | Cpp2IL/Analysis/MethodUtils.cs:67 | True exactly when some leftover candidate is present and is not an empty register argument. |
| MethodUtils.CheckParameters64 | Cpp2IL/Analysis/MethodUtils.cs:34-72 | Returns true exactly when the declarative `Matches64` holds. That requires four things: every parameter accepts the candidate in its position; a present candidate remains when the last parameter is taken; no real argument is left over when `failOnLeftoverArgs` is set; and there are at most as many parameters as candidates. On success the arguments are the first candidates, one per parameter and in order; on failure they are null. It reads the register file only. |
| MethodUtils.NoPresentCandidateLeft | Cpp2IL/Analysis/MethodUtils.cs:49 | When no present candidate remains at some parameter, the 64-bit match fails. |
| MethodUtils.AbsentCandidateIsConsumed | Cpp2IL/Analysis/MethodUtils.cs:47-64 | An absent candidate that precedes a present one is accepted as its parameter's argument. |
| MethodUtils.NoPresentCandidateFails | Cpp2IL/Analysis/MethodUtils.cs:49 | With at least one parameter and every argument register empty, the 64-bit match fails. |
| MethodUtils.NoBooleanReadingIn64Bit | Cpp2IL/Analysis/MethodUtils.cs:54-55 | A `ulong` constant in the position of a `System.Boolean` parameter makes the 64-bit match fail: there is no boolean reinterpretation. |
| MethodUtils.InstanceFieldsMembers | Cpp2IL/Analysis/MethodUtils.cs:105 | The fields a struct is decomposed into are exactly its non-static fields. |
| MethodUtils.FieldStoresContents | Cpp2IL/Analysis/MethodUtils.cs:137-148 | Decomposition makes one field store per operand that is a local. Each store pairs the field at the same position with that local. Constants produce none. |
| MethodUtils.RePushStack | Cpp2IL/Analysis/MethodUtils.cs:198-205 | The stack gains the recorded entries in reverse order of recording. Registers, actions and the local counter are unchanged. |
| MethodUtils.AllocateInstanceAction | Cpp2IL/Analysis/MethodUtils.cs:131-134 | Appends one allocation action. Its instance is a new local, numbered by the local counter, which goes up by one. |
| MethodUtils.PopEntries | Cpp2IL/Analysis/MethodUtils.cs:109-113 | Pops exactly `n` entries and returns them top first. The stack loses exactly its top `n` entries. |
| MethodUtils.CheckPoppedFields | Cpp2IL/Analysis/MethodUtils.cs:116-122 | The verdict is true exactly when every popped entry passes the check against its field's type. Every check runs, even after a mismatch (`&=` does not short-circuit), so each entry is returned as its own check left it. |
| MethodUtils.StoreFields | Cpp2IL/Analysis/MethodUtils.cs:137-148 | Appends exactly the field stores `FieldStoresContents` characterises. |
| MethodUtils.DecomposeStruct | Cpp2IL/Analysis/MethodUtils.cs:106-148 | Pops one entry per instance field. When every field matches, it appends the allocation followed by the field stores and returns the new instance. Otherwise it leaves the actions and the counter as they were. |
| MethodUtils.StepCases | Cpp2IL/Analysis/MethodUtils.cs:83-96 | On an empty stack the attempt stops, keeping the arguments. A top entry that passes is popped, recorded for re-push and appended as the argument. Otherwise the struct rule decides. |
| MethodUtils.MatchParameter32 | Cpp2IL/Analysis/MethodUtils.cs:81-170 | One parameter of the 32-bit loop changes the context and the loop variables exactly as `Step32` prescribes, including the failure outcome. |
| MethodUtils.StructStepCases | Cpp2IL/Analysis/MethodUtils.cs:98-162 | For a resolvable struct with enough entries, the struct rule continues, with the instance as the argument, exactly when every field matches. The popped entries are then consumed and not recorded for re-push. On a mismatch it stops, re-pushing the earlier recorded entries and the checked popped entries. |
| MethodUtils.MatchStruct32 | Cpp2IL/Analysis/MethodUtils.cs:98-169 | The struct branch changes the context exactly as `StructStep32` prescribes. It fails when the parameter is not a non-primitive value type, does not resolve, or has more fields than the stack has entries. |
| MethodUtils.BuildStruct32 | Cpp2IL/Analysis/MethodUtils.cs:102-162 | The decomposition of a resolvable struct changes the context exactly as `StructStep32` prescribes. |
| MethodUtils.CheckParameters32 | Cpp2IL/Analysis/MethodUtils.cs:74-173 | The verdict, the arguments, and the final stack, actions and local counter are those of `Match32`, the per-parameter specification. Registers are unchanged. |
| MethodUtils.AcceptStepFacts | Cpp2IL/Analysis/MethodUtils.cs:89-95 | A directly matched parameter pops one entry and appends one argument. The stack it restores on failure is the same up to the boolean rewrite. |
| MethodUtils.DecomposedOperandsRestore | Cpp2IL/Analysis/MethodUtils.cs:157-160 | Pushing the checked popped entries back in reverse gives the original top of the stack, up to the boolean rewrite. |
| MethodUtils.StructBuiltFacts | Cpp2IL/Analysis/MethodUtils.cs:124-154 | A successful decomposition shrinks the stack from the top, counts the entries it took as lost, and records nothing for re-push. It extends the actions, creates one local and appends one argument. |
| MethodUtils.StructRejectedFacts | Cpp2IL/Analysis/MethodUtils.cs:157-169 | A failed decomposition fails the match. The stack becomes everything popped so far that was recorded, pushed back, up to the boolean rewrite. Actions and counter are unchanged. |
| MethodUtils.StructStepFacts | Cpp2IL/Analysis/MethodUtils.cs:98-169 | Both outcomes of the struct rule, as in the two lemmas above. A continued attempt means the parameter is a non-primitive value type. |
| MethodUtils.StepFacts | Cpp2IL/Analysis/MethodUtils.cs:81-170 | Per parameter: the stack only shrinks from the top. Entries restorable on failure plus entries lost stay constant. Arguments grow by one. Actions grow only with a new local, which only a struct parameter creates. A stop is a failure that restores what was recorded. |
| MethodUtils.Match32Facts | Cpp2IL/Analysis/MethodUtils.cs:74-173 | Over the parameter list: on success there is one argument per parameter, in order, and the stack lost exactly the entries the parameters took. On failure nothing is left to re-push, and the stack falls short of the original depth by exactly the entries consumed by decompositions. Without struct parameters, nothing is created or lost and a failure restores the stack up to the boolean rewrite. |
| MethodUtils.Match32Success | Cpp2IL/Analysis/MethodUtils.cs:81-172 | A successful 32-bit match has one argument per parameter. It pops exactly the entries consumed, one per direct match plus the field count of each decomposed struct, and only appends actions. |
| MethodUtils.StructStepKept | Cpp2IL/Analysis/MethodUtils.cs:98-169 | The struct branch keeps the kept entries in step with the stack and the re-push list: a successful decomposition removes exactly its popped block from them, and a failed one pushes back a stack equal to them up to the boolean rewrite. |
| MethodUtils.StepKept | Cpp2IL/Analysis/MethodUtils.cs:83-169 | One parameter keeps that invariant: a direct match leaves the kept entries alone, a decomposition removes exactly its popped block, and every stop leaves a stack equal to the kept entries up to the boolean rewrite. |
| MethodUtils.Match32Kept | Cpp2IL/Analysis/MethodUtils.cs:81-172 | Over the parameter list, the kept entries shrink by exactly the entries decompositions took, stay unchanged when no struct is built, and a failure leaves the stack equal to them up to the boolean rewrite. |
| MethodUtils.Match32Failure | Cpp2IL/Analysis/MethodUtils.cs:83-169 | After a failed 32-bit match the stack is, entry for entry up to the boolean rewrite, the original stack with exactly the blocks taken by successful decompositions cut out. Without any decomposition, the original stack is restored up to the boolean rewrite and the actions are untouched. |
| MethodUtils.NoStructParametersNoSideEffects | Cpp2IL/Analysis/MethodUtils.cs:81-169 | Without struct parameters, matching appends no action and creates no local. A failure restores the stack up to the boolean rewrite. A success pops one entry per parameter. |
| MethodUtils.Match32WidthsWithoutStructs | Cpp2IL/Analysis/MethodUtils.cs:89-95 | Without struct parameters, a successful match pops exactly one entry per parameter. |
| MethodUtils.CheckParameters | Cpp2IL/Analysis/MethodUtils.cs:29-32 | On 32-bit targets the result and the new stack, actions and counter are the stack matcher's. On 64-bit targets the result is the register matcher's and the context is unchanged. |
| MethodUtils.ManagedSignatureUnchanged | Cpp2IL/Analysis/MethodUtils.cs:21-24 | The signature is instantiated only when the declaring type has generic parameters and the receiver's type is a generic instance with arguments. |
| MethodUtils.CheckParametersNative | Cpp2IL/Analysis/MethodUtils.cs:17-27 | A native method is matched through its managed counterpart, instantiated over the receiver's generic arguments when that applies, with the word-size dispatch. |
| MethodUtils.Vector2IntInstanceFields | Cpp2IL/Analysis/MethodUtils.cs:105 | A struct's static field is not among the fields it is decomposed into. |
| MethodUtils.StructPassedFieldByField | Cpp2IL/Analysis/MethodUtils.cs:98-154 | A two-int struct passed as two stack entries matches. This produces one allocation and two field stores in field order, consumes both entries and gives the new instance as the argument. |
| MethodUtils.MismatchedFieldRestoresStack | Cpp2IL/Analysis/MethodUtils.cs:157-169 | The same struct with a mismatched second field fails with null arguments. The two entries are restored in their original order and no action is added. |
| MethodUtils.DecomposedEntriesLostOnLaterFailure | Cpp2IL/Analysis/MethodUtils.cs:124-169 | A decomposed struct followed by a parameter with no entry left fails. The two consumed entries are not restored, so the stack and the kept entries are both empty, the three actions stay, and `arguments` keeps the instance. |
| MethodUtils.BooleanReadingPersistsOnFailure | Cpp2IL/Analysis/MethodUtils.cs:166-187 | On 32-bit, a `ulong 1` matches a `bool` parameter as `true`. When a later parameter then fails, the entry pushed back is the rewritten `bool` constant. |
| FieldLayout.ToULongRoundTrip | Cpp2IL.Core/AssemblyPopulator.cs:635 | The `(ulong)` conversion of an `int` offset is lossless. A non-negative offset keeps its value; a negative one wraps to at least 2^64 - 2^31. |
| FieldLayout.ToULongOrder | Cpp2IL.Core/AssemblyPopulator.cs:635 | After the conversion, non-negative offsets keep their order and sort before every negative offset. Negative offsets keep their order among themselves. |
| FieldLayout.StringCharCorrection | Cpp2IL.Core/AssemblyPopulator.cs:625-643 | The entry's type differs from the field's type exactly when the declaring type is `System.String` and the field's type is `System.Char`. It is then `System.Char[]`. The offset is the native offset converted to `ulong`. Name, static flag, constant, declaring type and definition are copied. |
| FieldLayout.SortedAllPairs | Cpp2IL.Core/AssemblyPopulator.cs:486 | A layout sorted pair by pair is sorted for every pair of positions. |
| FieldLayout.Insert | Cpp2IL.Core/AssemblyPopulator.cs:486 | Inserting into a sorted layout keeps it sorted and adds one entry. |
| FieldLayout.InsertPermutes | Cpp2IL.Core/AssemblyPopulator.cs:486 | Insertion adds exactly the inserted entry and loses none. |
| FieldLayout.SortByOffset | Cpp2IL.Core/AssemblyPopulator.cs:486 | The sort by offset gives a layout in non-decreasing offset order, with one entry per input entry. |
| FieldLayout.SortPermutes | Cpp2IL.Core/AssemblyPopulator.cs:486 | The sorted layout is a permutation of the entries. |
| FieldLayout.SortSortedDistinct | Cpp2IL.Core/AssemblyPopulator.cs:486 | Entries already in strictly increasing offset order are left as they are. |
| FieldLayout.LayoutExample | Cpp2IL.Core/AssemblyPopulator.cs:486 | Fields at offsets 8, 0 and 16 are laid out in the order 0, 8, 16. |
| GenericParams.AttachFacts | Cpp2IL.Core/AssemblyPopulator.cs:398-414 | One parameter of a container, looked up or created by native index. A known index reuses the registered parameter and creates nothing. An unknown index creates exactly one parameter owned by the caller and registers it. Either way the parameter ends up in the owner's list, existing entries stay, and the registry stays valid. |
| GenericParams.AttachCheckedSame | Cpp2IL.Core/AssemblyPopulator.cs:507-519 | On a list without duplicates, the method path's extra `Contains` check before adding a new parameter changes nothing. |
| GenericParams.AttachAllValid | Cpp2IL.Core/AssemblyPopulator.cs:398-414 | A whole container keeps the registry valid: every index points to a live parameter and no two indices share one. The owner's list keeps its entries and never gains a duplicate, and the registry only grows. |
| GenericParams.AttachAllCovers | Cpp2IL.Core/AssemblyPopulator.cs:398-414 | After a container, the registry's indices are the old ones plus the container's. Every index of the container is registered and its parameter is in the owner's list. |
| GenericParams.AttachAllCheckedSame | Cpp2IL.Core/AssemblyPopulator.cs:504-525 | The method path (lines 504-525) and the type path (lines 398-414) give the same registry and list. |
| GenericParams.SharedIndexSharesParam | Cpp2IL.Core/AssemblyPopulator.cs:400-513 | Two owners that share a native index share one parameter: the first owner's. Exactly one parameter is created, and it is in both lists. |
| Tables.TryAdd | Cpp2IL.Core/AssemblyPopulator.cs:539-540 | `TryAdd` adds the key. It never changes an existing entry and stores the value only under a new key. |
| Tables.TryAddAllFirstWins | Cpp2IL.Core/AssemblyPopulator.cs:539-540 | After a sequence of `TryAdd`s, the keys are the old ones plus the added ones. Old entries are unchanged. A new key maps to the value of its first occurrence. |
| Tables.SetAllLastWins | Cpp2IL.Core/AssemblyPopulator.cs:569-570 | After a sequence of indexer writes, the keys are the old ones plus the written ones. Unwritten keys keep their values. A written key maps to the value of its last write. |
| MethodBodies.StubReturnsDefault | Cpp2IL.Core/AssemblyPopulator.cs:645-666 | Run on an abstract evaluation stack, the stub returns nothing for `System.Void`, a zero-initialised value of the return type for a value type, and null otherwise. |
| MethodBodies.StubLocals | Cpp2IL.Core/AssemblyPopulator.cs:645-666 | Only the stub of a non-void value type has a local, of the return type. Its length is 4 instructions, against 1 for `void` and 2 for a reference type. |
| TypeContents.PopulateGenericParams | Cpp2IL.Core/AssemblyPopulator.cs:393-415 | Only the generic-parameter list of that type and the registry change. |
| TypeContents.PopulateGenericParamsFacts | Cpp2IL.Core/AssemblyPopulator.cs:393-415 | Without a generic container nothing changes. Otherwise the registry gains exactly the container's indices, each with its parameter in the type's list. Earlier list entries stay, and the state stays well formed. |
| TypeContents.ConfigureType | Cpp2IL.Core/AssemblyPopulator.cs:35-46 | Configuring a type leaves methods, tables, maps and layouts alone. Value-typeness is not stored, so it follows the new base type. |
| TypeContents.ConfigureTypeFacts | Cpp2IL.Core/AssemblyPopulator.cs:38-46 | The base type becomes the imported native base when there is one and is left as it was otherwise. Each native interface is imported and appended in order. The type keeps its name, and whether it is a value type follows the new base: an imported `System.Enum` makes it one, `System.ValueType` does too unless the type is `System.Enum`, and any other base makes it none. No other type changes, and the state stays well formed. |
| TypeContents.ConfigureHierarchy | Cpp2IL.Core/AssemblyPopulator.cs:31-48 | Configuring all types leaves methods, tables, maps and layouts alone. |
| TypeContents.ConfigureHierarchyWellFormed | Cpp2IL.Core/AssemblyPopulator.cs:31-48 | Configuring all types keeps the state well formed. |
| TypeContents.AddedFieldsAt | Cpp2IL.Core/AssemblyPopulator.cs:443-465 | The k-th new field is made from the k-th native field. Its type is imported into the declaring type. It carries a constant only with the has-default flag and an initial value only with the has-field-RVA flag. |
| TypeContents.LayoutAt | Cpp2IL.Core/AssemblyPopulator.cs:442-468 | The k-th layout entry is computed with field counter k, 0-based. It describes the managed field at position old count + k. |
| TypeContents.ProcessFields | Cpp2IL.Core/AssemblyPopulator.cs:438-488 | The field pass leaves methods, registry and tables alone. |
| TypeContents.LayoutEntryFacts | Cpp2IL.Core/AssemblyPopulator.cs:442-643 | Each entry names the field made for it and its declaring type. Its offset is the one the binary gives for (type index, counter k, field index, static flag, and whether the type is a value type as its current base type makes it). Its type differs from the field's exactly in the `String`/`Char` case. |
| TypeContents.ProcessFieldsLayout | Cpp2IL.Core/AssemblyPopulator.cs:440-488 | The type's layout has one entry per native field, zero fields included. It is sorted by offset and is a permutation of the entries in field order. The type's fields are appended after the existing ones. |
| TypeContents.ProcessFieldsWellFormed | Cpp2IL.Core/AssemblyPopulator.cs:438-488 | The field pass keeps the state well formed. |
| TypeContents.AddedParametersAt | Cpp2IL.Core/AssemblyPopulator.cs:668-684 | Parameters are added in native order. The k-th is made from the k-th native parameter. It is by reference exactly when `byref == 1`, and its default is copied from the native one (none when null). |
| TypeContents.MethodRecordStub | Cpp2IL.Core/AssemblyPopulator.cs:536-666 | A new method has a body exactly when it has a body per its flags and its declaring type's base type is not `System.MulticastDelegate`. That body returns the return type's default value. |
| TypeContents.MethodGenericParamsFacts | Cpp2IL.Core/AssemblyPopulator.cs:504-525 | A method's generic parameters are looked up or created by index. Without a container the method gets none and the registry is unchanged. Otherwise the registry gains exactly the container's indices, each in the method's list, which has no duplicates. |
| TypeContents.MethodStepWellFormed | Cpp2IL.Core/AssemblyPopulator.cs:492-570 | Adding one method keeps the state well formed. |
| TypeContents.IndexEntriesAt | Cpp2IL.Core/AssemblyPopulator.cs:539 | The k-th write to the table by method index is (method index of the k-th native method, its handle). |
| TypeContents.AddressEntriesAt | Cpp2IL.Core/AssemblyPopulator.cs:540 | The k-th write to the table by address is (method pointer of the k-th native method, its handle). |
| TypeContents.WrittenSlots | Cpp2IL.Core/AssemblyPopulator.cs:569-570 | The slots written include every method's slot below `ushort.MaxValue`. The sentinel `0xFFFF` is never written. |
| TypeContents.SlotsAfterLastWins | Cpp2IL.Core/AssemblyPopulator.cs:569-570 | The slot table gains exactly the written slots. Slots not written keep their method. A written slot goes to the last method of the type with that slot. |
| TypeContents.MethodTablesFirstWins | Cpp2IL.Core/AssemblyPopulator.cs:539-540 | The tables by index and by address keep every existing entry. A new key goes to the first method of the type that has it. |
| TypeContents.MethodsMadeAt | Cpp2IL.Core/AssemblyPopulator.cs:492-527 | The k-th new method is made from the k-th native method. Its generic parameters come from the registry as the methods before it left it. |
| TypeContents.MethodsAddedStart | Cpp2IL.Core/AssemblyPopulator.cs:490-492 | The method-pass invariant holds before the first method. |
| TypeContents.MethodsAddedStep | Cpp2IL.Core/AssemblyPopulator.cs:492-571 | Appending the next method as `ProcessMethod` does preserves the method-pass invariant. |
| TypeContents.ExtendedAt | Cpp2IL.Core/AssemblyPopulator.cs:492-527 | After the method pass, the methods already in the arena are unchanged. The method at the old count + k is the k-th native method's record. |
| TypeContents.ListedAt | Cpp2IL.Core/AssemblyPopulator.cs:498 | The type's method list gains exactly the new handles, in native order. |
| TypeContents.MethodsAddedMapped | Cpp2IL.Core/AssemblyPopulator.cs:500 | A native method id maps to the handle of its last occurrence in the type. |
| TypeContents.MethodsThrough | Cpp2IL.Core/AssemblyPopulator.cs:490-572 | The method pass adds exactly one method per native method and no type. |
| TypeContents.MethodsAddedThrough | Cpp2IL.Core/AssemblyPopulator.cs:490-572 | The method-pass invariant at the end holds exactly of the state `MethodsThrough` gives. |
| TypeContents.MethodsThroughMapped | Cpp2IL.Core/AssemblyPopulator.cs:500 | After the method pass, the method map still points into the arena. |
| TypeContents.MethodsThroughKeepsIdentity | Cpp2IL.Core/AssemblyPopulator.cs:490-572 | The method pass keeps every type's name, namespace, module and declaring type. |
| Properties.PropertyTypeChoice | Cpp2IL.Core/AssemblyPopulator.cs:578-583 | The type is the getter's return type whenever there is a getter. With only a setter it is the setter's first parameter type, or an exception when the setter has no parameter. With neither accessor it is an exception. |
| Properties.PropertyOfFacts | Cpp2IL.Core/AssemblyPopulator.cs:576-587 | An accessor with no managed method throws: the getter is checked first. Otherwise the property keeps its name and attributes. Its accessors are the managed methods of its native accessors, and its type is chosen from them. |
| Properties.AddProperties | Cpp2IL.Core/AssemblyPopulator.cs:574-601 | The property pass changes no method and no method mapping. |
| Properties.AddPropertiesSticks | Cpp2IL.Core/AssemblyPopulator.cs:576-600 | Once a property throws, the pass ends with that exception. |
| Properties.AddPropertiesNext | Cpp2IL.Core/AssemblyPopulator.cs:576-600 | One iteration: a property that throws ends the pass with that exception. One that does not is appended, and the invariant moves on. |
| Properties.AddPropertiesFails | Cpp2IL.Core/AssemblyPopulator.cs:574-601 | The pass throws exactly when some property cannot be made. |
| Properties.AddPropertiesFirstError | Cpp2IL.Core/AssemblyPopulator.cs:574-601 | The exception is the first failing property's, and every earlier property succeeded. |
| Properties.AddPropertiesListed | Cpp2IL.Core/AssemblyPopulator.cs:583-596 | After a pass without exception, only the type's property list and the property map change. The list gains the properties in native order. |
| Properties.AddPropertiesTable | Cpp2IL.Core/AssemblyPopulator.cs:598 | The property map receives one write per property, in order. |
| Properties.WrittenLast | Cpp2IL.Core/AssemblyPopulator.cs:598 | A property id maps to the position of its last occurrence. |
| Properties.WrittenKeys | Cpp2IL.Core/AssemblyPopulator.cs:598 | The property map gains exactly the written ids. Other ids keep their values. |
| Properties.AddPropertiesWellFormed | Cpp2IL.Core/AssemblyPopulator.cs:574-601 | The property pass keeps the state well formed, whatever its outcome. |
| Properties.AddPropertiesKeeps | Cpp2IL.Core/AssemblyPopulator.cs:574-601 | The property pass keeps the type map and every type's identity. |
| Overrides.ClassifyStep | Cpp2IL.Core/AssemblyPopulator.cs:169-197 | One interface throws exactly when it is `IEnumerator`1` or `IEnumerable`1` in the generic collections namespace without being a generic instance. Otherwise it replaces the slot of its kind: by simple name in that namespace, by full name elsewhere. |
| Overrides.ClassifyAllFails | Cpp2IL.Core/AssemblyPopulator.cs:169-197 | The classification throws exactly when some interface's cast fails, and then names the first such interface. |
| Overrides.ClassifyAllFinds | Cpp2IL.Core/AssemblyPopulator.cs:169-197 | Each of the five slots holds the last interface of its kind, or none. |
| Overrides.ClassifyAllSticks | Cpp2IL.Core/AssemblyPopulator.cs:169-197 | A failed cast ends the classification. |
| Overrides.ClassifyInterfaces | Cpp2IL.Core/AssemblyPopulator.cs:169-197 | The classification loop computes `ClassifyAll`. |
| Overrides.CandidatesFacts | Cpp2IL.Core/AssemblyPopulator.cs:289-306 | The candidates are exactly the base methods meeting the criterion, in increasing order. |
| Overrides.SingleFacts | Cpp2IL.Core/AssemblyPopulator.cs:203-306 | `Single` finds a method exactly when exactly one base method meets the criterion, and then it is that one. |
| Overrides.FindMethod | Cpp2IL.Core/AssemblyPopulator.cs:254-263 | `FindMethod` finds the first method with that name, or reports that none has it. |
| Overrides.OverrideOn | Cpp2IL.Core/AssemblyPopulator.cs:201-212 | An edge added by name goes to that interface's method of that name. It is instantiated with the interface's generic arguments exactly for the generic rules. |
| Overrides.EnumeratorRuleFirst | Cpp2IL.Core/AssemblyPopulator.cs:214-218 | When the enumerator rule applies, it wins over the other rules. Its edge goes to the enumerator's method named after the last `.`. |
| Overrides.EnumeratorRuleGeneric | Cpp2IL.Core/AssemblyPopulator.cs:201-234 | The edge of the else-if chain goes to the classified interface of its rule. The generic rules instantiate with that interface's arguments; the others never instantiate. |
| Overrides.AsyncEdgesFacts | Cpp2IL.Core/AssemblyPopulator.cs:248-268 | For `MoveNext`/`SetStateMachine`, there is one edge per `IAsyncStateMachine` interface, in order, each to that interface's method of the same name. |
| Overrides.SplitNameRoundTrip | Cpp2IL.Core/AssemblyPopulator.cs:275-276 | Splitting at the last `.` gives two parts that rejoin with `.` into the name. The member part has no `.`. |
| Overrides.ResolveAllFacts | Cpp2IL.Core/AssemblyPopulator.cs:315-337 | The generic parameter names resolve exactly when each one does. Their resolutions are then listed in order. |
| Overrides.GeneralRuleFacts | Cpp2IL.Core/AssemblyPopulator.cs:272-357 | A method gains an edge from the general pass exactly when all four hold: its name is not skipped (no `.`, or it starts with `.` or `<`); its qualifier resolves; exactly one base method matches (the full signature for a non-generic base, name and arity for a generic one); and for a generic base every generic parameter name resolves. The edge then goes to that base method, under the member name, with the resolved arguments. |
| Overrides.EdgesForIgnoresOverrides | Cpp2IL.Core/AssemblyPopulator.cs:199-357 | The edges a pass computes for a method do not depend on the edges it already has. |
| Overrides.ApplyKeepsSignatures | Cpp2IL.Core/AssemblyPopulator.cs:199-357 | A pass changes only the methods' edges. |
| Overrides.ApplySticks | Cpp2IL.Core/AssemblyPopulator.cs:199-235 | The first exception ends a pass. |
| Overrides.ApplyFails | Cpp2IL.Core/AssemblyPopulator.cs:199-235 | A pass throws exactly when some method's edges throw, and then with the first such method's exception. |
| Overrides.ApplyUpdates | Cpp2IL.Core/AssemblyPopulator.cs:199-358 | After a pass without exception, every method of the type has its edges appended. Methods of other types are unchanged. |
| Overrides.ApplyPass | Cpp2IL.Core/AssemblyPopulator.cs:199-235 | The loop over the methods computes `Apply`. |
| Overrides.TwoPasses | Cpp2IL.Core/AssemblyPopulator.cs:199-358 | Two passes give each method its first-pass edges followed by its second-pass edges. |
| Overrides.FixupFrame | Cpp2IL.Core/AssemblyPopulator.cs:158-359 | The fixup of a type changes only methods: no type, table, map or registry, and not the method count. |
| Overrides.FixupFacts | Cpp2IL.Core/AssemblyPopulator.cs:158-359 | A fixup without exception appends to each of the type's methods exactly its edges. For a compiler-generated type (name starting with `<`) the iterator rules come first. The async and general rules follow, except in a compiler-generated type with a generic `IEnumerator`1`. No other method changes. |
| Overrides.FixupKeepsSignatures | Cpp2IL.Core/AssemblyPopulator.cs:158-359 | The fixup changes nothing but edges, whatever its outcome. |
| Overrides.FixupWellFormed | Cpp2IL.Core/AssemblyPopulator.cs:158-359 | The fixup keeps the state well formed. |
| Assembly.CopyData | Cpp2IL.Core/AssemblyPopulator.cs:361-391 | Copying a type's data adds no type and keeps the type and method maps pointing into the arena. |
| Assembly.CopyDataFails | Cpp2IL.Core/AssemblyPopulator.cs:380-387 | Copying a type throws exactly when some property cannot be made from the state the field and method passes leave. |
| Assembly.CopyDataKeepsIdentity | Cpp2IL.Core/AssemblyPopulator.cs:380-387 | Copying keeps every type's name, namespace, module and declaring type, which the wrapped exception reports. |
| Assembly.StubStep | Cpp2IL.Core/AssemblyPopulator.cs:134-146 | One native type of the stub pass adds no type and keeps the maps pointing into the arena. |
| Assembly.StubStepWraps | Cpp2IL.Core/AssemblyPopulator.cs:136-145 | A native type without a managed type throws unwrapped, since the lookup is outside the handler. Otherwise the data is copied, and an exception is wrapped with the type's full name, module and declaring type and the image's name. |
| Assembly.ImagePassFails | Cpp2IL.Core/AssemblyPopulator.cs:134-155 | An image pass throws exactly when some type's step throws after the earlier types' steps succeeded. |
| Assembly.PopulateStubsMapped | Cpp2IL.Core/AssemblyPopulator.cs:134-136 | A stub pass without exception met only native types that have managed types. |
| Assembly.PopulateStubsThrows | Cpp2IL.Core/AssemblyPopulator.cs:134-146 | A stub pass that throws ends with the step of the first type that threw, after the earlier types succeeded. |
| Assembly.PopulateStubsNext | Cpp2IL.Core/AssemblyPopulator.cs:134-146 | One iteration of the stub pass: either the pass goes on, or it is over with this type's exception. |
| Assembly.FixupStepFrame | Cpp2IL.Core/AssemblyPopulator.cs:151-155 | One type of the image fixup changes only edges and keeps the state well formed. |
| Assembly.FixupAllFrame | Cpp2IL.Core/AssemblyPopulator.cs:149-156 | The image fixup changes only edges and keeps the state well formed, whatever its outcome. |
| Assembly.FixupAllThrows | Cpp2IL.Core/AssemblyPopulator.cs:149-156 | An image fixup that throws ends with the first type that threw. |
| Assembly.FixupAllMapped | Cpp2IL.Core/AssemblyPopulator.cs:151-153 | An image fixup without exception met only native types that have managed types. |
| Assembly.FixupAllNext | Cpp2IL.Core/AssemblyPopulator.cs:149-156 | One iteration of the image fixup: either it goes on, or it is over with this type's exception. |
| AssemblyPopulator.SharedState.PopulateGenericParamsForType | Cpp2IL.Core/AssemblyPopulator.cs:393-415 | Updates the shared state to `PopulateGenericParams`, whose lookup-or-create properties are proved above. |
| AssemblyPopulator.SharedState.ConfigureType | Cpp2IL.Core/AssemblyPopulator.cs:35-46 | Updates one type's generic parameters, base type and interfaces as `ConfigureType` prescribes. Value-typeness is derived from the base type, so it changes with it. |
| AssemblyPopulator.SharedState.ConfigureHierarchy | Cpp2IL.Core/AssemblyPopulator.cs:31-48 | Configures every (managed, native) type pair in turn, as `ConfigureHierarchy` prescribes. |
| AssemblyPopulator.SharedState.ProcessFieldsInType | Cpp2IL.Core/AssemblyPopulator.cs:438-488 | Updates the state to `ProcessFields`: the fields are appended, the native field map is recorded and the sorted layout is stored. |
| AssemblyPopulator.SharedState.AddMethodGenericParams | Cpp2IL.Core/AssemblyPopulator.cs:504-525 | Attaches a method's generic parameters to the shared registry as `MethodGenericParams` prescribes. Nothing else changes. |
| AssemblyPopulator.SharedState.MakeMethod | Cpp2IL.Core/AssemblyPopulator.cs:494-540 | Makes the record for a native method: generic parameters, return type, stub, parameters. It records the method in the maps and the tables, but does not yet append it to the arena. |
| AssemblyPopulator.SharedState.ProcessMethod | Cpp2IL.Core/AssemblyPopulator.cs:494-570 | Appends one method at the next handle, lists it in its type and updates the tables and maps. Well-formedness is kept. |
| AssemblyPopulator.SharedState.ProcessMethodsInType | Cpp2IL.Core/AssemblyPopulator.cs:490-572 | The loop keeps the method-pass invariant and ends in the state `MethodsThrough` gives. Well-formedness is kept. |
| AssemblyPopulator.SharedState.ProcessPropertiesInType | Cpp2IL.Core/AssemblyPopulator.cs:574-601 | The loop ends in the state and with the exception that `AddProperties` gives. Well-formedness is kept. |
| AssemblyPopulator.SharedState.CopyIl2CppDataToManagedType | Cpp2IL.Core/AssemblyPopulator.cs:361-391 | Fields, methods and properties in that order, ending as `CopyData` prescribes. Well-formedness is kept. |
| AssemblyPopulator.SharedState.FixupExplicitOverridesInType | Cpp2IL.Core/AssemblyPopulator.cs:158-359 | Runs the passes over the type's methods and ends as `Fixup` prescribes. Well-formedness is kept. |
| AssemblyPopulator.SharedState.PopulateStubType | Cpp2IL.Core/AssemblyPopulator.cs:136-145 | One native type of the stub pass, as `StubStep` prescribes. |
| AssemblyPopulator.SharedState.PopulateStubTypesInAssembly | Cpp2IL.Core/AssemblyPopulator.cs:127-147 | The loop over the image's types ends in the state and with the exception that `PopulateStubs` gives. |
| AssemblyPopulator.SharedState.FixupType | Cpp2IL.Core/AssemblyPopulator.cs:153-154 | One native type of the image fixup, as `FixupStep` prescribes. |
| AssemblyPopulator.SharedState.FixupExplicitOverridesInAssembly | Cpp2IL.Core/AssemblyPopulator.cs:149-156 | The loop ends as `FixupAll` prescribes. Well-formedness is kept. |
| AssemblyPopulator.AddInterfaces | Cpp2IL.Core/AssemblyPopulator.cs:45-46 | Appends the imported interfaces in native order. |
| AssemblyPopulator.AttachParams | Cpp2IL.Core/AssemblyPopulator.cs:398-414 | The type path's loop over a generic container computes `AttachAll`. |
| AssemblyPopulator.AttachParam | Cpp2IL.Core/AssemblyPopulator.cs:400-413 | One parameter on the type path, as `Attach` prescribes. |
| AssemblyPopulator.AttachParamsChecked | Cpp2IL.Core/AssemblyPopulator.cs:504-525 | The method path's loop computes `AttachAllChecked`. |
| AssemblyPopulator.AttachParamChecked | Cpp2IL.Core/AssemblyPopulator.cs:507-524 | One parameter on the method path, as `AttachChecked` prescribes. |
| AssemblyPopulator.AddFields | Cpp2IL.Core/AssemblyPopulator.cs:443-484 | The field loop appends the fields, records the native field map and builds the layout in field order. |
| AssemblyPopulator.AddField | Cpp2IL.Core/AssemblyPopulator.cs:443-468 | One field keeps the field-loop invariant. |
| AssemblyPopulator.FillMethodBodyWithStub | Cpp2IL.Core/AssemblyPopulator.cs:645-666 | Gives the method the stub body for its return type. |
| AssemblyPopulator.HandleMethodParameters | Cpp2IL.Core/AssemblyPopulator.cs:668-684 | Appends one parameter per native parameter, in native order. |

## Left out

- Injected types and provenance attributes are not modelled:
  - `InjectOurTypes` (`Cpp2IL.Core/AssemblyPopulator.cs:86-125`) is left out.
    Unless attributes are suppressed, it injects `AddressAttribute`,
    `FieldOffsetAttribute`, `AttributeAttribute`, `MetadataOffsetAttribute`
    and `TokenAttribute` (lines 94-98). It always adds the
    `AnalysisFailedException` type with its constructor (lines 101-124).
  - Applying those attributes to fields and methods is left out, and so are
    `GetInjectedAttributes` with its per-module cache and
    `CreateDefaultConstructor`.
  - They wrap Cecil and do not affect the state modelled here, so
    `suppressAttributes` has no counterpart.
- `ProcessEventsInType` is not modelled. `CopyIl2CppDataToManagedType` is
  modelled as fields, methods and properties only, so an exception raised
  while copying events is not represented.
- Only the native-to-managed maps are kept. The reverse identity maps
  (`ManagedToUnmanaged*`) are omitted, because nothing modelled reads them.
- Cecil operations are functions of their inputs:
  - `ImportTypeInto` is `Reader.importType`.
  - `ImportReference` of resolved generic arguments (line 340) and
    `MakeMethodOnGenericType` are the identity on references.
  - `Resolve().Methods` is `Resolver.methodsOf`.
  - `TryLookupTypeDefByName` and `ResolveGenericParameterType`, whose
    sources are not part of this model, are `Resolver` functions.
- The native binary's field offsets are `Reader.fieldOffset`. `GetRVA` and
  `TryMapVirtualAddressToRaw` feed attributes only and are left out.
  `is32Bit` is a parameter.
- Logger output is not modelled: a warning is a skipped edge.
- For method analysis, the services it depends on are `Oracle` functions or
  plain inputs:
  - `GetOperandInRegister` is a register map.
  - `IsAssignableFrom`, `Resolve`, `IsEmptyRegArg` and `MakeGeneric` are
    `Oracle` functions.
  - An allocation action's new local is `Local(localCount)`.
  - The instruction argument is dropped.
- Operands are values. The in-place rewrite of a boolean constant is
  modelled by putting the rewritten operand where the object sits: on the
  stack, in the re-push list or among the arguments. Other references to
  the same constant object are not captured.
- `StartsWith` is modelled as an ordinal prefix test. The source calls the
  culture-sensitive overload; the prefixes involved are ASCII.
- MethodUtils.CheckParametersNative: requires the native method to have a
  managed counterpart. The source's dictionary lookup throws otherwise, and
  that exception is not modelled.
- FieldLayout.SortByOffset: .NET's `List.Sort` is unstable. The model sorts
  with one particular algorithm. What is proved (sorted, a permutation of
  the entries) holds for any result of the source's sort, but the relative
  order of entries with equal offsets may differ.
- Overrides.ResolveAll: a generic parameter name that is not shorter than
  the name it was split from counts as unresolved. This is the termination
  measure of the mutual recursion through `ResolveGenericParameter`. The
  names `TryLookupTypeDefByName` splits off are parts of the name looked up.
- Overrides.Fixup: method names are read from the managed method. The
  `AsUnmanaged` lookup (line 243) is assumed to succeed and to give the
  same name.
- Metadata.IsValueTypeDef: Cecil's `TypeDefinition.IsValueType` is not
  part of this model. Its rule is assumed: a type deriving from
  `System.Enum`, or from `System.ValueType` without being `System.Enum`,
  is a value type, and a type without a base type is not. Like Cecil's
  property, it is computed from the base type each time it is read, so
  `ConfigureType` changes it when it sets the base type (line 42).
- Overrides.FindMethod: Cecil's `FindMethod` extension is not part of this
  model. Its semantics are assumed: the first method with that name, and a
  failure (modelled as `MethodNotFound`) when none has it.
- AssemblyPopulator.SharedState.ConfigureHierarchy: takes the (managed,
  native) type pairs as a list, instead of reading `AllTypeDefinitions`
  and `ManagedToUnmanagedTypes`.
- AssemblyPopulator.SharedState.PopulateStubTypesInAssembly: the lookup of
  the image's first type (`SharedState.TypeDefsByIndex[imageDef.firstTypeIndex]`,
  line 129) is not modelled. Its result only serves `InjectOurTypes`. The
  `KeyNotFoundException` it throws when that index is not registered is not
  modelled either: the model's stub pass cannot fail at that point.
- Concurrency is not modelled: the source is single-threaded.
