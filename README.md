# BytecodeTranslator core in Dafny

This project models the core of BytecodeTranslator, a tool that turns the metadata and
method bodies of a .NET assembly into a Boogie program. It covers three parts.

- **Division semantics** (`CLRSemantics`). To translate `a / b`, the translator visits the
  left operand and then the right one. It pops their two results from the
  TranslatedExpressions stack, right first. It stores the divisor in a fresh local `tmp`,
  appends `assert tmp != 0` and pushes `L div tmp`.
- **Multicast dispatch synthesis** (`Dispatch`). Every registered delegate type gets one
  procedure and one implementation, both named after the type's `Invoke` method.
  - The parameters are the delegate instance `this`, then the in-copies of Invoke's formals.
  - The outputs are the out-copies of its by-reference and `out` formals, then `$result`
    when Invoke is not void.
  - The body walks the delegate's circular chain in a `while (true)` loop and breaks when
    it is back at the head.
  - On each node, a cascade of nested ifs compares the node's identity constant with that
    of each known subscriber and calls the one that matches.
- **Metadata visitation** (`MetadataTraversal`, `MethodVisit`).
  - A class is registered and its members are visited.
  - A delegate type is only added to the delegate registry.
  - Any other kind of type is unsupported.
  - A field gets a global variable.
  - An event accessor (a special-name `add_`/`remove_` method) is skipped and gets no
    procedure. Any other method first gets its procedure. If it does not fail, it then
    gets one implementation: entry copies `outCopy := inCopy`, then the translated body.
    Its locals are the out-copies of by-value formals followed by the body's locals. Its
    attributes are the method's custom attributes, converted.
  - After all types, one dispatcher is created per registered delegate type.

Modules:
- `Wrappers`: `Option`, `Result` and the error kinds.
- `Boogie`: the fragment of the target language that is produced.
- `Cci`: the source entities (formals with their in- and out-copies, methods, types,
  custom attributes, source expressions).
- `Sinks`: the translation context, both as a value `Ctx` and as a class `Sink` that holds
  the same state in fields:
  - the output declarations;
  - the declared types, field variables and procedures;
  - the delegate registry;
  - the map from methods to identity constants;
  - the fresh-name counter.
- `Dispatch`, `MethodVisit`, `MetadataTraversal`, `CLRSemantics`: the code translated here.

Each operation exists twice:
- as a pure function on the context, such as `VisitMethodF` or `CreateDispatchF`, which the
  lemmas are about;
- as a method of `MetadataTraverser` or `CLRExpressionSemantics` that updates the `Sink`,
  the statement builder and the expression stack in place. Each such method is proved to
  end in the state its function gives.

The loops of the source are methods with loop invariants, proved against those functions:
- counting and filling the parameter arrays;
- rebinding `ifCmd` over the subscribers;
- the entry copies;
- collecting the locals;
- filling the attribute argument array through `argIndex`.

Three behaviours of the code shape the model.
- Innermost cascade layer: the code builds `if (true) { assume false; }`
  (MetadataTraverser.cs:176). A chain node whose identity constant matches no subscriber
  therefore blocks the path silently; nothing is asserted. `CascadeBlocksForeign` and
  `WalkCallsForeign` state this.
- Failure scope: every failure is an exception that leaves the whole traversal
  (MetadataTraverser.cs:216-223, 245, 351-357). The model's `Traverse` stops at the first
  failure. Declarations added before the failure stay in the context.
- Abstract methods: the code rejects an abstract method only after
  `FindOrCreateProcedure` (MetadataTraverser.cs:263-268). The procedure is therefore
  declared even though no implementation follows; `VisitMethodSpec` states this.

Every context the translation reaches from the empty one is coherent (`Sinks.Coherent`):
- each delegate type has at most one registry entry;
- no subscriber is listed twice for one type;
- every identity constant is named after its method's unique name. This follows from how
  the model creates constants (`IdentityConstant`, see "## Left out").
Every step preserves this, so the dispatchers come one pair per distinct registered type.

## Model

| member | source | states |
|---|---|---|
| Cci.MethodsSpec | BytecodeTranslator/MetadataTraverser.cs:78 | the methods searched are exactly the type's method members |
| Cci.FindInvokeSpec | BytecodeTranslator/MetadataTraverser.cs:77-85 | the lookup returns a method named Invoke that no earlier Invoke precedes, and finds nothing exactly when no method is named Invoke |
| MetadataTraversal.LookupInvoke | BytecodeTranslator/MetadataTraverser.cs:77-85 | the loop with its early break returns the first Invoke method, as FindInvoke specifies |
| Dispatch.CountSlots | BytecodeTranslator/MetadataTraverser.cs:95-122 | in_count is one more than the number of in-copies; out_count is the number of out-copies of by-reference/out formals, plus one for a non-void Invoke |
| Dispatch.FillSlots | BytecodeTranslator/MetadataTraverser.cs:124-146 | after filling through i and j, every slot of both arrays is written, with exactly the dispatcher's parameter lists |
| Dispatch.FillFromFormals | BytecodeTranslator/MetadataTraverser.cs:132-143 | the loop over the formals writes each in-copy at the next slot after `this`, and each by-reference/out copy at the next out slot |
| Dispatch.DispatchParams | BytecodeTranslator/MetadataTraverser.cs:95-146 | invars is `this` followed by the in-copies in formal order; outvars is the by-reference/out copies in order, with `$result` in the last slot exactly when Invoke is non-void; the counts equal the lengths |
| Dispatch.CallArgsShape | BytecodeTranslator/MetadataTraverser.cs:179-187 | a subscriber call's arguments are `receiver` only for a non-static subscriber, then invars[1..] in order |
| Dispatch.CallIns | BytecodeTranslator/MetadataTraverser.cs:179-187 | the index loop builds exactly those arguments |
| Dispatch.CallOuts | BytecodeTranslator/MetadataTraverser.cs:188-191 | the outputs are all of outvars, in order |
| Dispatch.BuildSubscriberCall | BytecodeTranslator/MetadataTraverser.cs:179-194 | the call is named after the subscriber's constant, with those arguments and outputs |
| Dispatch.BuildBreakCmd | BytecodeTranslator/MetadataTraverser.cs:60-64 | the command is an if guarded by b itself, with no else-branch; whatever b evaluates to, it runs exactly `break` when b holds and nothing otherwise |
| Dispatch.BuildIfCmd | BytecodeTranslator/MetadataTraverser.cs:66-72 | the command is an if guarded by b itself; it runs exactly `cmd` when b holds, and otherwise the inner ifCmd, or nothing when there is none; for an identity guard, what it selects follows the inner ifCmd's selection |
| Dispatch.Cascade | BytecodeTranslator/MetadataTraverser.cs:176-196 | the cascade is an if that runs exactly one command for every identity constant the local `method` may hold |
| Dispatch.DispatchDecls | BytecodeTranslator/MetadataTraverser.cs:151-214 | one dispatcher is a procedure followed by an implementation, both named after Invoke's unique name and with the same parameters; the first in-parameter is `this`, followed by one per in-copy |
| Dispatch.CreateDispatchF | BytecodeTranslator/MetadataTraverser.cs:74-228 | one CreateDispatchMethod succeeds exactly when the type has an Invoke method and otherwise leaves the context as it is; on success it changes only the declarations, to which it appends two, and the constant table |
| Dispatch.CascadeLayers | BytecodeTranslator/MetadataTraverser.cs:66-72 | each rebinding of ifCmd wraps the earlier cascade: following the else-branches from the outside leads, layer by layer, to the cascade of a shorter prefix of the subscribers |
| Dispatch.CascadeShape | BytecodeTranslator/MetadataTraverser.cs:176-196 | for subscribers d1..dk the cascade has k+1 nested ifs; layer j from the outside tests `method == c(d(k-j))` and calls that subscriber; its else-branch is the layer built before it; the innermost layer is `if true then assume false` and has no else-branch |
| Dispatch.CascadeCallsMatch | BytecodeTranslator/MetadataTraverser.cs:192-195 | when `method` holds subscriber i's constant and no later subscriber shares it, the cascade runs exactly the call of subscriber i |
| Dispatch.CascadeBlocksForeign | BytecodeTranslator/MetadataTraverser.cs:176 | when `method` holds a constant that no subscriber has, the cascade runs exactly `assume false` |
| Dispatch.SubscriberCalls | BytecodeTranslator/MetadataTraverser.cs:179-194 | the calls of the subscribers at the given chain positions: one per position, in chain order |
| Dispatch.WalkCallsKnown | BytecodeTranslator/MetadataTraverser.cs:171-199 | if the subscribers' constants are distinct and each chain node is bound to a subscriber, the walk calls each node's subscriber once, in chain order, and runs nothing else |
| Dispatch.WalkCallsForeign | BytecodeTranslator/MetadataTraverser.cs:171-199 | the walk reaches `assume false` exactly when some chain node holds a constant that no subscriber has |
| MetadataTraversal.DispatcherAt | BytecodeTranslator/MetadataTraverser.cs:151-214 | registry entry k yields the procedure at position 2k and the implementation at 2k+1. Both share Invoke's unique name and parameters. The locals are exactly iter, niter, method and receiver. The body is `iter := head` and then `while (true)` with, in order: `niter := next`, break when niter is the head, `method :=`, `receiver :=`, the cascade of that entry's subscribers, `iter := niter` |
| MetadataTraversal.CreateDispatchStep | BytecodeTranslator/MetadataTraverser.cs:74-214 | one dispatcher creation succeeds exactly when the type has an Invoke method, and then appends exactly its procedure and implementation; it changes no method's identity constant and leaves the registry as it is |
| MetadataTraversal.CreateDispatchersSpec | BytecodeTranslator/MetadataTraverser.cs:54-57 | the loop over the registry succeeds exactly when every registered type has an Invoke method; it then appends one dispatcher pair per entry, in registry order, computed with the constants from before the loop |
| MetadataTraversal.DispatchersPrefix | BytecodeTranslator/MetadataTraverser.cs:54-57 | the dispatchers of the first n registry entries are exactly the first 2n dispatcher declarations, so the dispatchers come in registry order |
| MetadataTraversal.VisitAssemblySpec | BytecodeTranslator/MetadataTraverser.cs:52-58 | a failing type visit ends the assembly visit. Otherwise every delegate type of the assembly is registered. The assembly translates exactly when each registered type has an Invoke, and then adds exactly the dispatchers, two declarations per registry entry, after those of the type visits. From a coherent context, each type has one registry entry, so there is exactly one pair per distinct registered type |
| MetadataTraversal.TranslateFromEmpty | BytecodeTranslator/MetadataTraverser.cs:52-58 | translating an assembly from an empty Sink succeeds only after all type visits succeed; each registered type then has one entry, and exactly one procedure and implementation pair is added per distinct registered type |
| MetadataTraversal.RegisteredTypesCount | BytecodeTranslator/MetadataTraverser.cs:54 | a registry whose types are unique has as many entries as distinct registered types |
| MetadataTraversal.VisitAssemblyCoherent | BytecodeTranslator/MetadataTraverser.cs:52-58 | a coherent context stays coherent through the type visits and through the dispatcher creation |
| MetadataTraversal.VisitTypeCoherent | BytecodeTranslator/MetadataTraverser.cs:236-247 | visiting a type keeps the context coherent |
| MetadataTraversal.VisitMethodCoherent | BytecodeTranslator/MetadataTraverser.cs:256-358 | visiting a method keeps the context coherent |
| MetadataTraversal.SubscribeAllCoherent | BytecodeTranslator/MetadataTraverser.cs:287 | the registrations made while a body is translated keep the context coherent |
| MetadataTraversal.TraverseCoherent | BytecodeTranslator/MetadataTraverser.cs:53-57 | a traversal whose every step keeps the context coherent keeps it coherent, whether it stops early or not |
| Sinks.AddDelegateTypeCoherent | BytecodeTranslator/MetadataTraverser.cs:241-242 | registering a delegate type keeps the context coherent: a type already in the registry gets no second entry |
| Sinks.AddDelegateCoherent | BytecodeTranslator/MetadataTraverser.cs:287 | registering a subscription keeps the context coherent, and the subscriber is then listed under its type |
| Sinks.AddConstantsByName | BytecodeTranslator/MetadataTraverser.cs:192 | asking for the subscribers' constants adds only constants named after their methods' unique names |
| Sinks.ConstOfByName | BytecodeTranslator/MetadataTraverser.cs:192-194 | under the invariant, the constant a subscriber's guard compares with and its call is named after is the one named after its unique name |
| Dispatch.CreateDispatchCoherent | BytecodeTranslator/MetadataTraverser.cs:74-214 | creating one dispatcher keeps the context coherent |
| Dispatch.DistinctConstantsByName | BytecodeTranslator/MetadataTraverser.cs:192-195 | under the invariant, subscribers have pairwise distinct identity constants exactly when their unique names are pairwise distinct |
| MetadataTraversal.DelegatesRegistered | BytecodeTranslator/MetadataTraverser.cs:241-242 | after the types are visited without failure, every delegate type among them is in the registry |
| MetadataTraversal.VisitTypeSpec | BytecodeTranslator/MetadataTraverser.cs:236-247 | a class is declared and its members are visited in order; a delegate type is registered, with no declaration and no type added; any other kind fails as Unsupported and leaves the context as it is |
| MetadataTraversal.VisitMethodSpec | BytecodeTranslator/MetadataTraverser.cs:256-358 | an event accessor leaves the context as it is. Any other method ends with its procedure recorded. An abstract method fails as Unsupported. A failing method adds no implementation (the number of implementations is unchanged). A method that succeeds, exactly when its implementation can be built, appends exactly one implementation named after its procedure |
| MethodVisit.EntryCopyCmdsOk | BytecodeTranslator/MetadataTraverser.cs:275-282 | the entry copies can be built exactly when every formal with an in-copy has an out-copy; otherwise translation stops with an internal defect |
| MethodVisit.EntryCopyCmdsReads | BytecodeTranslator/MetadataTraverser.cs:275-282 | there is one copy per in-copy, in formal order; each is an assignment with the method's token that reads that in-copy |
| MethodVisit.EntryCopyCmdsPairs | BytecodeTranslator/MetadataTraverser.cs:275-282 | every formal with an in-copy gets the assignment of its in-copy to its own out-copy |
| MethodVisit.EntryCopies | BytecodeTranslator/MetadataTraverser.cs:273-284 | the loop that adds the copies to the statement builder produces exactly EntryCopyCmds |
| MethodVisit.ByValueLocalsSpec | BytecodeTranslator/MetadataTraverser.cs:294-299 | the by-value locals exist exactly when every by-value formal has an out-copy. Each such out-copy is a local. Each out-copy of a by-reference/out formal is an out-parameter. There are at most as many of both as there are formals |
| MethodVisit.CollectLocals | BytecodeTranslator/MetadataTraverser.cs:294-305 | the two loops give the by-value out-copies followed by all body locals, or the defect |
| MethodVisit.StripAttributeSuffix | BytecodeTranslator/MetadataTraverser.cs:321-323 | a name ending in `Attribute` loses exactly that suffix; any other name is unchanged |
| MethodVisit.StripAttributeSuffixOf | BytecodeTranslator/MetadataTraverser.cs:321-323 | stripping undoes appending the suffix |
| MethodVisit.ConvertConstant | BytecodeTranslator/MetadataTraverser.cs:330-342 | only Boolean, Int32 and string constants convert; any other kind is an InvalidConstant error; the slot stays empty exactly for the null string |
| MethodVisit.ConvertedArgumentsSpec | BytecodeTranslator/MetadataTraverser.cs:324-345 | the conversion succeeds exactly when no constant argument is of another kind; it then gives one value per constant argument, each the conversion of that constant, in order; non-constant arguments are skipped |
| MethodVisit.Padded | BytecodeTranslator/MetadataTraverser.cs:324 | the argument array has the requested length, the stored values in its leading slots, and empty slots after them |
| MethodVisit.AttributeArgsSpec | BytecodeTranslator/MetadataTraverser.cs:324-345 | the argument array has one slot per argument: the converted constants first, in order (a null string leaves its slot empty), then one empty slot per non-constant argument |
| MethodVisit.ConvertAttributeArguments | BytecodeTranslator/MetadataTraverser.cs:324-345 | filling the array through argIndex gives exactly that array, or the first conversion error |
| MethodVisit.ForwardAttributeSpec | BytecodeTranslator/MetadataTraverser.cs:320-346 | an attribute is forwarded exactly when its arguments convert; it is named without the suffix and has one slot per argument |
| MethodVisit.ForwardMixedAttribute | BytecodeTranslator/MetadataTraverser.cs:320-346 | an attribute `NAttribute` with a Boolean, a non-constant, an Int32 and a string argument becomes `N` with True/False, the integer literal, the raw string and one trailing empty slot |
| MethodVisit.ForwardNullStringAttribute | BytecodeTranslator/MetadataTraverser.cs:320-346 | a null string argument leaves the first slot empty, and the following Boolean constant takes the second |
| MethodVisit.ForwardAttributesOk | BytecodeTranslator/MetadataTraverser.cs:320-347 | forwarding all attributes succeeds exactly when each one can be forwarded; a failure is InvalidConstant |
| MethodVisit.ForwardAttributesShape | BytecodeTranslator/MetadataTraverser.cs:320-347 | the forwarded attributes match the method's custom attributes one to one, in order |
| MethodVisit.ForwardAll | BytecodeTranslator/MetadataTraverser.cs:320-347 | the attribute loop produces exactly the forwarded attributes, or stops at the first failure |
| MethodVisit.MethodImplementationSpec | BytecodeTranslator/MetadataTraverser.cs:265-349 | an abstract method is Unsupported. The implementation exists exactly when the copies pair up, the body translates, every by-value formal has an out-copy and every attribute converts. It then has the procedure's name and parameters. Its body is one entry copy per in-copy (reading the in-copies in order, with the method's token) followed by the whole translated body. Its locals are the by-value out-copies followed by the body's locals. It has one attribute per custom attribute, named without the suffix |
| MethodVisit.IsEventAccessor | BytecodeTranslator/MetadataTraverser.cs:257 | a method is an event accessor exactly when it has a special name that begins with `add_` or `remove_` |
| MethodVisit.MethodImplementation | BytecodeTranslator/MetadataTraverser.cs:265-349 | an abstract method is Unsupported; a built implementation has its procedure's name and parameters and one attribute per custom attribute |
| MetadataTraversal.VisitMethodF | BytecodeTranslator/MetadataTraverser.cs:256-358 | a method visit changes only the declarations, the procedures and the registry; it keeps the earlier declarations and procedures |
| MetadataTraversal.VisitTypeF | BytecodeTranslator/MetadataTraverser.cs:236-247 | a type visit never changes an identity constant or the fresh counter |
| MetadataTraversal.VisitAssemblyF | BytecodeTranslator/MetadataTraverser.cs:52-58 | an assembly visit keeps the earlier declarations, declared types, procedures and registry positions, and never changes the fresh counter |
| MetadataTraversal.MetadataTraverser.VisitTypes | BytecodeTranslator/MetadataTraverser.cs:53 | the types are visited in order and the Sink ends as the traversal of VisitTypeF specifies; the first failure stops the loop |
| MetadataTraversal.MetadataTraverser.VisitMember | BytecodeTranslator/MetadataTraverser.cs:240 | a field member is visited as a field and a method member as a method, as VisitMemberF specifies |
| MetadataTraversal.MetadataTraverser.Subscribe | BytecodeTranslator/MetadataTraverser.cs:287 | the registrations of a body's translation reach the registry in order, as SubscribeAll specifies |
| MetadataTraversal.MetadataTraverser.CreateDispatchMethods | BytecodeTranslator/MetadataTraverser.cs:54-57 | the loop over the registry creates the dispatchers in registry order and ends as the traversal of CreateDispatchF specifies; the first failure stops the loop |
| MetadataTraversal.MetadataTraverser.VisitMethod | BytecodeTranslator/MetadataTraverser.cs:256-358 | the visit updates the Sink as VisitMethodF specifies |
| MetadataTraversal.MetadataTraverser.VisitType | BytecodeTranslator/MetadataTraverser.cs:236-247 | the visit updates the Sink as VisitTypeF specifies; the member loop stops at the first failure |
| MetadataTraversal.MetadataTraverser.VisitField | BytecodeTranslator/MetadataTraverser.cs:360-362 | the field's global variable is found or created |
| MetadataTraversal.MetadataTraverser.CreateDispatchMethod | BytecodeTranslator/MetadataTraverser.cs:74-228 | the Sink ends as CreateDispatchF specifies: procedure and implementation appended, or an internal defect without Invoke |
| MetadataTraversal.MetadataTraverser.BuildCascade | BytecodeTranslator/MetadataTraverser.cs:176-196 | rebinding ifCmd over the subscribers, while asking for each subscriber's constant, gives the cascade built with the constants from before the loop. The constant table is the only part of the Sink that changes |
| MetadataTraversal.MetadataTraverser.VisitAssembly | BytecodeTranslator/MetadataTraverser.cs:52-58 | the types are visited, then the dispatchers of the registry are created, as VisitAssemblyF specifies |
| Sinks.FindOrAddDelegateMethodConstantF | BytecodeTranslator/MetadataTraverser.cs:192 | asking for a constant returns the method's constant and adds the method to the table without changing any method's constant |
| Sinks.AddConstantsConstOf | BytecodeTranslator/MetadataTraverser.cs:192 | asking for the constants of a subscriber list changes no method's constant |
| Sinks.AddConstantsKeys | BytecodeTranslator/MetadataTraverser.cs:192 | afterwards exactly the methods already in the table and the asked-for subscribers have a constant |
| Sinks.AddConstantsKeeps | BytecodeTranslator/MetadataTraverser.cs:192 | constants already in the table are kept |
| Sinks.EntryIndex | BytecodeTranslator/MetadataTraverser.cs:177 | the registry lookup returns a position holding the type, or none when no entry holds it |
| Sinks.FindOrCreateProcedureIdempotent | BytecodeTranslator/MetadataTraverser.cs:263 | asking twice for a method's procedure yields the same procedure, declared at most once |
| Sinks.FindOrCreateFieldVariableIdempotent | BytecodeTranslator/MetadataTraverser.cs:361 | asking twice for a field's variable yields the same variable, declared at most once |
| Sinks.AddDelegateTypeRegisters | BytecodeTranslator/MetadataTraverser.cs:242 | registering a delegate type puts it in the registry, adds one entry at most, keeps the earlier entries, and declares nothing |
| Sinks.FreshLocalsDistinct | BytecodeTranslator/CLRSemantics.cs:40 | two successive fresh locals have distinct names |
| CLRSemantics.EvalCompile | BytecodeTranslator/CLRSemantics.cs:32-49 | when every operand pushes one result, translating an expression pushes exactly one entry on an unchanged stack (its height grows by one) and appends one assignment and one check per division, in source evaluation order. That entry is what the expression denotes, with each divisor replaced by its temporary. One fresh temporary is used per division |
| CLRSemantics.DivisionSpec | BytecodeTranslator/CLRSemantics.cs:33-48 | after left then right, a division needs two results and otherwise fails with a stack underflow. It pops the right result first, then the left one, and leaves the entries below unchanged. It appends exactly `tmp := R` and then `assert tmp != 0`, both with the division's location. It pushes `L div tmp` and uses one fresh local typed as the right operand |
| CLRSemantics.DivisorReadOnce | BytecodeTranslator/CLRSemantics.cs:42-48 | R feeds only the assignment: with any other R, the assert and the pushed expression are unchanged |
| CLRSemantics.EvalCounter | BytecodeTranslator/CLRSemantics.cs:40 | the fresh counter never decreases, and advances by exactly one per division when translation succeeds |
| CLRSemantics.DivisionTop | BytecodeTranslator/CLRSemantics.cs:48 | a successful division leaves `L div tmp` on top, where tmp is the last fresh local it created, typed as the right operand |
| CLRSemantics.SuccessiveDivisionsDistinct | BytecodeTranslator/CLRSemantics.cs:40-48 | two divisions translated one after the other, such as the same division translated twice, divide by distinct temporaries |
| CLRSemantics.Eval | BytecodeTranslator/CLRSemantics.cs:32-49 | translating an expression only appends statements, and its only failure is a stack underflow |
| CLRSemantics.DivideStep | BytecodeTranslator/CLRSemantics.cs:35-48 | the step after both operands succeeds exactly when two results are on the stack, and otherwise fails with a stack underflow; it replaces the two by one entry, uses one fresh local and appends two commands after the existing ones |
| CLRSemantics.CompileExprBelow | BytecodeTranslator/CLRSemantics.cs:33-48 | when the operands mention only temporaries below b, the expression a translation from counter n >= b pushes mentions only temporaries below n plus its number of divisions |
| CLRSemantics.CompileCmdsBelow | BytecodeTranslator/CLRSemantics.cs:33-46 | under the same hypothesis, the commands it appends mention only temporaries below n plus its number of divisions |
| CLRSemantics.CompileAssigns | BytecodeTranslator/CLRSemantics.cs:40-43 | under the same hypothesis, among the temporaries from b on, the commands assign exactly those from n to n plus the number of divisions minus one, each exactly once |
| CLRSemantics.DivisionTempFresh | BytecodeTranslator/CLRSemantics.cs:33-48 | when the operands mention only temporaries below n, the division divides by fresh temporary n + Divisions(left) + Divisions(right), which occurs neither in L nor in R nor in the operands' commands |
| CLRSemantics.TempsAssignedOnce | BytecodeTranslator/CLRSemantics.cs:32-49 | when the operands mention only temporaries created earlier, translation succeeds, and its appended commands assign each temporary it created exactly once and no other one from the starting counter on, so all its temporaries are pairwise distinct |
| CLRSemantics.CLRExpressionSemantics.Pop | BytecodeTranslator/CLRSemantics.cs:35-36 | popping returns the top entry and leaves the entries below; an empty stack gives nothing |
| CLRSemantics.CLRExpressionSemantics.Push | BytecodeTranslator/CLRSemantics.cs:48 | pushing puts the entry on top of the unchanged stack |
| CLRSemantics.CLRExpressionSemantics.Visit | BytecodeTranslator/CLRSemantics.cs:32-49 | the visit updates the stack, the statement builder and the fresh counter as Eval specifies, and changes nothing else in the Sink |

## Left out

- Statement translation (`method.Body.Dispatch`) is abstract. A method's body is given as
  its commands, the values of its local-variable map and the delegate subscriptions it
  registers, or as the failure that stopped it.
- Translation of expressions other than divisions is abstract. An operand appends given
  commands and pushes a given result, or pushes nothing.
- The Sink's own code is not part of this model. `FindOrCreateProcedure` is assumed to give
  a method the same in/out split as the dispatcher, plus `this` for an instance method.
- `BeginMethod`, `FormalMap` and `RetVariable` are per-method scratch state and are not
  modelled as state. The entry copies and the locals iterate a method's formals in
  declaration order; the source iterates the values of the formal map, which this model
  takes to be the same order.
- The delegate registry is a sequence in registration order. The source enumerates the
  keys of a `Dictionary`, which this model takes to be in insertion order.
- When a statement traverser registers a delegate subscription on the registry, the
  registration is modelled as part of the method's body translation.
- The heap-encoding functions `ReadHead`, `ReadNext`, `ReadMethod` and `ReadReceiver` are
  uninterpreted. The meaning of the chain walk (`WalkCalls`) uses the identity constants
  of the chain's nodes, not a heap.
- Several collaborators are not modelled: `CciTypeToBoogie`, `CreateUniqueMethodName`, the
  PDB reader, tokens and the console message on a non-class type. The type of `$result`
  and the method's unique name are fields of the method, and a token is an opaque value.
- `StartsWith` and `EndsWith` are ordinal comparisons here; the source's default
  comparison is culture-sensitive.
- All failures are results. A `TranslationException` that becomes a
  `NotImplementedException`, an `InvalidCastException` and a null dereference each end the
  traversal with one error value. The error kinds are Unsupported, InternalDefect and
  InvalidConstant.
- In the dispatcher, a delegate type without an `Invoke` method is an internal defect; in
  the source, this is a null dereference.
- `Contract.Assert(type.IsDelegate)` in CreateDispatchMethod is not modelled. The model
  creates a dispatcher for every registry entry that has an Invoke method.
- MethodVisit.EntryCopyCmds: a formal with an in-copy and no out-copy makes the source
  build an identifier from null. The model treats this as an internal defect.
- MethodVisit.ByValueLocals: a by-value formal without an out-copy would make the source
  put a null into the local list. The model treats this as an internal defect.
- `impl.AddAttribute` is modelled as appending the attributes in order. Boogie's own
  handling of repeated keys is not modelled.
- `Visit(IModule)` and the base traverser's double dispatch are not modelled: an assembly
  is its sequence of types, and a type is its sequence of members. Nested types are not
  modelled.
- The translation of a method body declares nothing and never advances the fresh counter:
  its commands, locals and subscriptions are given. So the temporaries of its divisions
  never reach the method's locals or the Sink's counter. The "exactly these declarations"
  conclusions of VisitMethodSpec, CreateDispatchStep, CreateDispatchersSpec,
  DispatchersPrefix and VisitAssemblySpec rely on this.
- `FindOrCreateType` and `FindOrAddDelegateMethodConstant` add no top-level declaration in
  this model; the Sink's code that would say otherwise is not part of it.
- FindOrAddDelegateMethodConstantF / IdentityConstant: the code of the Sink's
  `FindOrAddDelegateMethodConstant` is not part of this model. The model makes two
  assumptions about it.
  - The constant it creates for a method is `Constant(d.uniqueName)`, named after the
    method's unique name.
  - Constants with different names are different values, as Boogie `unique` constants are.
    `GuardHolds` decides `method == c` by comparing constants.
  `ConstantsByName`, `ConstOfByName`, `DistinctConstantsByName`, `CascadeCallsMatch`,
  `SelectedBound` and `WalkCallsKnown` rest on these assumptions.
- GuardHolds evaluates only Boolean literals and `method == c`. The break sentinel
  `niter == ReadHead(this)` reads the heap, so `Branch` gives its meaning for either truth
  value of the guard instead.
- The freshness lemmas of `CLRSemantics` require that the operands mention only temporaries
  created before the division; the translation of other expressions is not modelled.
- The TranslatedExpressions stack is an immutable list held in a field that Push and
  Pop reassign. Aliasing of the stack object is not modelled.
