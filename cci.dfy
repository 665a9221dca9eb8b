/** The source-side entities the translator consumes, as delivered by the metadata reader. */
module Cci {
  import opened Wrappers
  import opened Boogie

  /**
   * A formal parameter together with its Boogie copies (a MethodParameter):
   * the in-copy is the Boogie in-parameter, the out-copy the Boogie variable the
   * body writes (an out-parameter for by-reference and `out` formals, a local otherwise).
   */
  datatype Formal = Formal(
    name: string,
    inCopy: Option<Variable>,
    outCopy: Option<Variable>,
    isByRef: bool,
    isOut: bool)
  {
    predicate IsByRefOrOut() { isByRef || isOut }
  }

  newtype Int32 = x: int | -0x8000_0000 <= x < 0x8000_0000

  /** The primitive kind and value of a compile-time constant. */
  datatype MetadataConstant =
    | BoolConstant(b: bool)
    | Int32Constant(i: Int32)
    | StringConstant(s: Option<string>)   // None is the null string
    | OtherConstant(typeCode: string)

  datatype AttributeArgument = ConstantArgument(c: MetadataConstant) | NonConstantArgument

  /** A custom attribute: the full name of its type and its arguments. */
  datatype CustomAttribute = CustomAttribute(typeName: string, arguments: seq<AttributeArgument>)

  /** A delegate subscription found in a method body: `subscriber` is bound to `delegateType`. */
  datatype Subscription = Subscription(delegateType: TypeDef, subscriber: MethodDef)

  /**
   * What the statement traverser produces for a method body: the commands, the values
   * of the local-variable map and the subscriptions it registered, or the failure that
   * stopped it.
   */
  datatype BodyTranslation =
    | Translated(cmds: seq<Cmd>, locals: seq<Variable>, subscriptions: seq<Subscription>)
    | Untranslatable(error: Error)

  /**
   * A method definition. `uniqueName` is the name the translator derives from the
   * method's full signature; `returnType` is None for a void method.
   */
  datatype MethodDef = MethodDef(
    name: string,
    uniqueName: string,
    tok: Token,
    isSpecialName: bool,
    isStatic: bool,
    isAbstract: bool,
    formals: seq<Formal>,
    returnType: Option<BType>,
    body: BodyTranslation,
    attributes: seq<CustomAttribute>)

  datatype FieldDef = FieldDef(name: string, ty: BType)

  datatype Member = FieldMember(field: FieldDef) | MethodMember(def: MethodDef)

  datatype TypeKind = ClassKind | DelegateKind | OtherKind(description: string)

  datatype TypeDef = TypeDef(name: string, kind: TypeKind, members: seq<Member>)

  datatype Assembly = Assembly(types: seq<TypeDef>)

  /**
   * Source expressions as seen by the expression traverser: a division, or any other
   * operand, whose (abstract) translation appends `emitted` and pushes `result` when present.
   */
  datatype SrcExpr =
    | Operand(ty: BType, result: Option<Expr>, emitted: seq<Cmd>)
    | Division(divTy: BType, location: Token, left: SrcExpr, right: SrcExpr)
  {
    function Type(): BType
    {
      match this
      case Operand(t, _, _) => t
      case Division(t, _, _, _) => t
    }
  }

  /** The methods of a type, in member order. */
  function Methods(ms: seq<Member>): seq<MethodDef>
  {
    if |ms| == 0 then []
    else (if ms[0].MethodMember? then [ms[0].def] else []) + Methods(ms[1..])
  }

  /** The methods of a member list are exactly its method members. */
  lemma {:induction false} MethodsSpec(ms: seq<Member>)
    ensures forall d :: d in Methods(ms) <==> MethodMember(d) in ms
    decreases |ms|
  {
    if |ms| > 0 {
      MethodsSpec(ms[1..]);
      assert ms == [ms[0]] + ms[1..];
    }
  }

  /** The first method named `Invoke`, if any (the loop that searches type.Methods). */
  function FindInvoke(methods: seq<MethodDef>): Option<MethodDef>
  {
    if |methods| == 0 then None
    else if methods[0].name == "Invoke" then Some(methods[0])
    else FindInvoke(methods[1..])
  }

  /** The search finds a method named Invoke, and none precedes it; it fails only when there is none. */
  lemma {:induction false} FindInvokeSpec(methods: seq<MethodDef>)
    ensures FindInvoke(methods).Some? ==>
              exists i :: 0 <= i < |methods| && methods[i] == FindInvoke(methods).value &&
                          methods[i].name == "Invoke" &&
                          forall j :: 0 <= j < i ==> methods[j].name != "Invoke"
    ensures FindInvoke(methods).None? <==> forall d :: d in methods ==> d.name != "Invoke"
    decreases |methods|
  {
    if |methods| > 0 && methods[0].name != "Invoke" {
      var rest := methods[1..];
      FindInvokeSpec(rest);
      if FindInvoke(rest).Some? {
        var i :| 0 <= i < |rest| && rest[i] == FindInvoke(rest).value && rest[i].name == "Invoke" &&
                 forall j :: 0 <= j < i ==> rest[j].name != "Invoke";
        assert methods[i + 1] == rest[i];
        forall j | 0 <= j < i + 1 ensures methods[j].name != "Invoke" {
          if j > 0 { assert methods[j] == rest[j - 1]; }
        }
      }
      assert methods == [methods[0]] + rest;
    }
    if |methods| > 0 && methods[0].name == "Invoke" {
      assert methods[0] == FindInvoke(methods).value;
    }
  }

  function StartsWith(s: string, prefix: string): bool
  {
    |prefix| <= |s| && s[..|prefix|] == prefix
  }

  function EndsWith(s: string, suffix: string): bool
  {
    |suffix| <= |s| && s[|s| - |suffix|..] == suffix
  }
}
