/**
 * The per-method parts of Visit(IMethodDefinition): the event-accessor test, the
 * entry copies `outCopy := inCopy`, the local-variable list of the implementation,
 * the forwarding of custom attributes, and the implementation they make up.
 */
module MethodVisit {
  import opened Wrappers
  import opened Boogie
  import opened Cci
  import opened Sinks

  /** A special-name `add_`/`remove_` method: an event accessor, which is not translated. */
  predicate IsEventAccessor(m: MethodDef): (r: bool)
    ensures r <==> m.isSpecialName && ("add_" <= m.name || "remove_" <= m.name)
  {
    m.isSpecialName && (StartsWith(m.name, "add_") || StartsWith(m.name, "remove_"))
  }

  // ----- Entry copies -----

  /**
   * `outCopy := inCopy` for every formal with an in-copy, in formal order. A formal
   * with an in-copy and no out-copy would dereference null: a defect.
   */
  function EntryCopyCmds(tok: Token, fs: seq<Formal>): Result<seq<Cmd>>
    decreases |fs|
  {
    if |fs| == 0 then Ok([])
    else
      match EntryCopyCmds(tok, fs[..|fs| - 1])
      case Err(e) => Err(e)
      case Ok(cs) =>
        var f := fs[|fs| - 1];
        if f.inCopy.None? then Ok(cs)
        else if f.outCopy.None? then Err(InternalDefect("in-copy without out-copy"))
        else Ok(cs + [Assign(tok, f.outCopy.value, Ident(f.inCopy.value))])
  }

  /** Every formal with an in-copy also has an out-copy. */
  predicate CopiesPaired(fs: seq<Formal>)
  {
    forall k :: 0 <= k < |fs| && fs[k].inCopy.Some? ==> fs[k].outCopy.Some?
  }

  /** The entry copies exist exactly when every in-copy has an out-copy. */
  lemma {:induction false} EntryCopyCmdsOk(tok: Token, fs: seq<Formal>)
    ensures EntryCopyCmds(tok, fs).Ok? <==> CopiesPaired(fs)
    ensures EntryCopyCmds(tok, fs).Err? ==> EntryCopyCmds(tok, fs).error.InternalDefect?
    decreases |fs|
  {
    if |fs| > 0 {
      var init, f := fs[..|fs| - 1], fs[|fs| - 1];
      EntryCopyCmdsOk(tok, init);
      if CopiesPaired(fs) {
        assert CopiesPaired(init) by {
          forall k | 0 <= k < |init| && init[k].inCopy.Some? ensures init[k].outCopy.Some? {
            assert init[k] == fs[k];
          }
        }
      } else if CopiesPaired(init) {
        assert f.inCopy.Some? && f.outCopy.None? by {
          var k :| 0 <= k < |fs| && fs[k].inCopy.Some? && fs[k].outCopy.None?;
        }
      } else {
        var k :| 0 <= k < |init| && init[k].inCopy.Some? && init[k].outCopy.None?;
        assert fs[k] == init[k];
      }
    }
  }

  /**
   * There is one entry copy per in-copy: each assigns with the method's token and reads
   * the in-copies in formal order.
   */
  lemma {:induction false} EntryCopyCmdsReads(tok: Token, fs: seq<Formal>)
    requires EntryCopyCmds(tok, fs).Ok?
    ensures var cs := EntryCopyCmds(tok, fs).value;
            |cs| == |InCopies(fs)| &&
            forall x :: 0 <= x < |cs| ==> cs[x].Assign? && cs[x].tok == tok && cs[x].rhs == Ident(InCopies(fs)[x])
    decreases |fs|
  {
    if |fs| > 0 {
      var init, f := fs[..|fs| - 1], fs[|fs| - 1];
      EntryCopyCmdsReads(tok, init);
      assert fs == init + [f];
      CopiesSnocIn(init, f);
    }
  }

  /** Each formal with an in-copy gets the assignment of its in-copy to its own out-copy. */
  lemma {:induction false} EntryCopyCmdsPairs(tok: Token, fs: seq<Formal>)
    requires EntryCopyCmds(tok, fs).Ok?
    ensures forall k :: 0 <= k < |fs| && fs[k].inCopy.Some? ==>
              fs[k].outCopy.Some? &&
              Assign(tok, fs[k].outCopy.value, Ident(fs[k].inCopy.value)) in EntryCopyCmds(tok, fs).value
    decreases |fs|
  {
    if |fs| > 0 {
      var init := fs[..|fs| - 1];
      EntryCopyCmdsPairs(tok, init);
      forall k | 0 <= k < |fs| && fs[k].inCopy.Some?
        ensures fs[k].outCopy.Some? &&
                Assign(tok, fs[k].outCopy.value, Ident(fs[k].inCopy.value)) in EntryCopyCmds(tok, fs).value
      {
        if k < |init| {
          assert init[k] == fs[k];
        }
      }
    }
  }

  lemma CopiesSnocIn(fs: seq<Formal>, f: Formal)
    ensures InCopies(fs + [f]) == InCopies(fs) + (if f.inCopy.Some? then [f.inCopy.value] else [])
  {
    assert (fs + [f])[..|fs|] == fs;
  }

  /** The loop over the formal map that adds the entry copies to the statement builder. */
  method EntryCopies(tok: Token, fs: seq<Formal>) returns (r: Result<seq<Cmd>>)
    ensures r == EntryCopyCmds(tok, fs)
  {
    var stmts: seq<Cmd> := [];
    for k := 0 to |fs|
      invariant EntryCopyCmds(tok, fs[..k]) == Ok(stmts)
    {
      var f := fs[k];
      assert fs[..k + 1][..k] == fs[..k];
      if f.inCopy.Some? {
        if f.outCopy.None? {
          EntryCopyErrSticks(tok, fs, k + 1);
          return Err(InternalDefect("in-copy without out-copy"));
        }
        stmts := stmts + [Assign(tok, f.outCopy.value, Ident(f.inCopy.value))];
      }
    }
    assert fs[..|fs|] == fs;
    r := Ok(stmts);
  }

  /** Once a prefix of the formals fails, so do all the formals. */
  lemma {:induction false} EntryCopyErrSticks(tok: Token, fs: seq<Formal>, k: nat)
    requires k <= |fs| && EntryCopyCmds(tok, fs[..k]).Err?
    ensures EntryCopyCmds(tok, fs) == EntryCopyCmds(tok, fs[..k])
    decreases |fs| - k
  {
    if k < |fs| {
      assert fs[..k + 1][..k] == fs[..k];
      EntryCopyErrSticks(tok, fs, k + 1);
    } else {
      assert fs[..k] == fs;
    }
  }

  // ----- Locals -----

  /**
   * The out-copies of by-value formals: these are locals of the implementation, since
   * only by-reference and `out` formals have their out-copy among the out-parameters.
   */
  function ByValueLocals(fs: seq<Formal>): Result<seq<Variable>>
    decreases |fs|
  {
    if |fs| == 0 then Ok([])
    else
      match ByValueLocals(fs[..|fs| - 1])
      case Err(e) => Err(e)
      case Ok(vs) =>
        var f := fs[|fs| - 1];
        if f.IsByRefOrOut() then Ok(vs)
        else if f.outCopy.None? then Err(InternalDefect("by-value formal without out-copy"))
        else Ok(vs + [f.outCopy.value])
  }

  /** The implementation's locals: by-value out-copies, then the body's local variables. */
  function ImplLocals(fs: seq<Formal>, bodyLocals: seq<Variable>): Result<seq<Variable>>
  {
    match ByValueLocals(fs)
    case Err(e) => Err(e)
    case Ok(vs) => Ok(vs + bodyLocals)
  }

  /** Every by-value formal has an out-copy. */
  predicate ByValueCopied(fs: seq<Formal>)
  {
    forall k :: 0 <= k < |fs| && !fs[k].IsByRefOrOut() ==> fs[k].outCopy.Some?
  }

  /**
   * The locals exist exactly when every by-value formal has an out-copy. Then every
   * out-copy of a formal is an out-parameter of the procedure or a local of the
   * implementation, never both kinds: the locals are one per by-value formal and are
   * followed by all body locals.
   */
  lemma {:induction false} ByValueLocalsSpec(fs: seq<Formal>)
    ensures ByValueLocals(fs).Ok? <==> ByValueCopied(fs)
    ensures ByValueLocals(fs).Ok? ==>
              var vs := ByValueLocals(fs).value;
              |vs| + |OutCopies(fs)| <= |fs| &&
              (forall k :: 0 <= k < |fs| && !fs[k].IsByRefOrOut() ==> fs[k].outCopy.value in vs) &&
              (forall k :: 0 <= k < |fs| && fs[k].outCopy.Some? && fs[k].IsByRefOrOut() ==>
                 fs[k].outCopy.value in OutCopies(fs))
    decreases |fs|
  {
    if |fs| > 0 {
      var init, f := fs[..|fs| - 1], fs[|fs| - 1];
      ByValueLocalsSpec(init);
      assert fs == init + [f];
      assert fs[..|fs| - 1] == init;
      if ByValueCopied(fs) {
        assert ByValueCopied(init) by {
          forall k | 0 <= k < |init| && !init[k].IsByRefOrOut() ensures init[k].outCopy.Some? {
            assert init[k] == fs[k];
          }
        }
        var vs := ByValueLocals(fs).value;
        forall k | 0 <= k < |fs| && !fs[k].IsByRefOrOut() ensures fs[k].outCopy.value in vs {
          if k < |init| {
            assert init[k] == fs[k];
          }
        }
        forall k | 0 <= k < |fs| && fs[k].outCopy.Some? && fs[k].IsByRefOrOut()
          ensures fs[k].outCopy.value in OutCopies(fs)
        {
          if k < |init| {
            assert init[k] == fs[k];
          }
        }
      } else if ByValueCopied(init) {
        assert !f.IsByRefOrOut() && f.outCopy.None?;
      } else {
        var k :| 0 <= k < |init| && !init[k].IsByRefOrOut() && init[k].outCopy.None?;
        assert fs[k] == init[k];
      }
    }
  }

  lemma {:induction false} ByValueErrSticks(fs: seq<Formal>, k: nat)
    requires k <= |fs| && ByValueLocals(fs[..k]).Err?
    ensures ByValueLocals(fs) == ByValueLocals(fs[..k])
    decreases |fs| - k
  {
    if k < |fs| {
      assert fs[..k + 1][..k] == fs[..k];
      ByValueErrSticks(fs, k + 1);
    } else {
      assert fs[..k] == fs;
    }
  }

  /** The two loops that fill the `vars` list: by-value out-copies, then the local-variable map. */
  method CollectLocals(fs: seq<Formal>, bodyLocals: seq<Variable>) returns (r: Result<seq<Variable>>)
    ensures r == ImplLocals(fs, bodyLocals)
  {
    var vars: seq<Variable> := [];
    for k := 0 to |fs|
      invariant ByValueLocals(fs[..k]) == Ok(vars)
    {
      var f := fs[k];
      assert fs[..k + 1][..k] == fs[..k];
      if !f.IsByRefOrOut() {
        if f.outCopy.None? {
          ByValueErrSticks(fs, k + 1);
          return Err(InternalDefect("by-value formal without out-copy"));
        }
        vars := vars + [f.outCopy.value];
      }
    }
    assert fs[..|fs|] == fs;
    ghost var copies := vars;
    for k := 0 to |bodyLocals|
      invariant vars == copies + bodyLocals[..k]
    {
      vars := vars + [bodyLocals[k]];
    }
    assert bodyLocals[..|bodyLocals|] == bodyLocals;
    r := Ok(vars);
  }

  // ----- Custom attributes -----

  const AttributeSuffix := "Attribute"

  /** The attribute's type name without a trailing `Attribute`. */
  function StripAttributeSuffix(name: string): (r: string)
    ensures EndsWith(name, AttributeSuffix) ==> r + AttributeSuffix == name
    ensures !EndsWith(name, AttributeSuffix) ==> r == name
  {
    if EndsWith(name, AttributeSuffix) then name[..|name| - 9] else name
  }

  /** Appending the suffix and stripping it gives back the name. */
  lemma StripAttributeSuffixOf(name: string)
    ensures StripAttributeSuffix(name + AttributeSuffix) == name
  {
  }

  /**
   * A Boolean becomes True/False, an Int32 an integer literal, a string is kept raw; the
   * null string is stored as it is, leaving its slot empty.
   */
  function ConvertConstant(c: MetadataConstant): (r: Result<Option<AttrValue>>)
    ensures r.Err? <==> c.OtherConstant?
    ensures r.Err? ==> r.error == InvalidConstant
    ensures r == Ok(None) <==> c == StringConstant(None)
  {
    match c
    case BoolConstant(b) => Ok(Some(ExprValue(BoolLit(b))))
    case Int32Constant(i) => Ok(Some(ExprValue(IntLit(i as int))))
    case StringConstant(s) => if s.Some? then Ok(Some(StringValue(s.value))) else Ok(None)
    case OtherConstant(_) => Err(InvalidConstant)
  }

  /** The converted constant arguments in order; non-constant arguments are skipped. */
  function ConvertedArguments(args: seq<AttributeArgument>): Result<seq<Option<AttrValue>>>
    decreases |args|
  {
    if |args| == 0 then Ok([])
    else
      match ConvertedArguments(args[..|args| - 1])
      case Err(e) => Err(e)
      case Ok(vs) =>
        match args[|args| - 1]
        case NonConstantArgument => Ok(vs)
        case ConstantArgument(c) =>
          match ConvertConstant(c)
          case Err(e) => Err(e)
          case Ok(v) => Ok(vs + [v])
  }

  /** The constants among the arguments, in order. */
  function Constants(args: seq<AttributeArgument>): (r: seq<MetadataConstant>)
    ensures |r| <= |args|
    decreases |args|
  {
    if |args| == 0 then []
    else
      Constants(args[..|args| - 1]) +
        (if args[|args| - 1].ConstantArgument? then [args[|args| - 1].c] else [])
  }

  /**
   * Converting the arguments succeeds exactly when no constant is of another kind; then
   * there is one value per constant argument, converted one by one and in order.
   */
  lemma {:induction false} ConvertedArgumentsSpec(args: seq<AttributeArgument>)
    ensures ConvertedArguments(args).Ok? <==> forall c :: c in Constants(args) ==> !c.OtherConstant?
    ensures ConvertedArguments(args).Err? ==> ConvertedArguments(args).error == InvalidConstant
    ensures ConvertedArguments(args).Ok? ==>
              var vs, cs := ConvertedArguments(args).value, Constants(args);
              |vs| == |cs| && forall x :: 0 <= x < |vs| ==> ConvertConstant(cs[x]) == Ok(vs[x])
    decreases |args|
  {
    if |args| > 0 {
      var init := args[..|args| - 1];
      ConvertedArgumentsSpec(init);
    }
  }

  lemma {:induction false} ConvertedErrSticks(args: seq<AttributeArgument>, k: nat)
    requires k <= |args| && ConvertedArguments(args[..k]).Err?
    ensures ConvertedArguments(args) == ConvertedArguments(args[..k])
    decreases |args| - k
  {
    if k < |args| {
      assert args[..k + 1][..k] == args[..k];
      ConvertedErrSticks(args, k + 1);
    } else {
      assert args[..k] == args;
    }
  }

  /** The argument array: the values in its leading slots, the rest of its n slots empty. */
  function Padded(vs: seq<Option<AttrValue>>, n: nat): (r: seq<Option<AttrValue>>)
    requires |vs| <= n
    ensures |r| == n
    ensures forall x :: 0 <= x < |vs| ==> r[x] == vs[x]
    ensures forall x :: |vs| <= x < n ==> r[x] == None
  {
    vs + seq(n - |vs|, _ => None)
  }

  /** The converted arguments in an array as long as the argument list. */
  function AttributeArgs(args: seq<AttributeArgument>): Result<seq<Option<AttrValue>>>
  {
    match ConvertedArguments(args)
    case Err(e) => Err(e)
    case Ok(vs) =>
      ConvertedArgumentsSpec(args);
      Ok(Padded(vs, |args|))
  }

  /**
   * The argument array has one slot per argument: the converted constants first, in
   * order (a null string leaving its slot empty), and an empty slot for each
   * non-constant argument after them.
   */
  lemma AttributeArgsSpec(args: seq<AttributeArgument>)
    ensures AttributeArgs(args).Ok? <==> forall c :: c in Constants(args) ==> !c.OtherConstant?
    ensures AttributeArgs(args).Ok? ==>
              var r, cs := AttributeArgs(args).value, Constants(args);
              |r| == |args| &&
              (forall x :: 0 <= x < |cs| ==> ConvertConstant(cs[x]) == Ok(r[x])) &&
              (forall x :: |cs| <= x < |args| ==> r[x] == None)
  {
    ConvertedArgumentsSpec(args);
  }

  /** The loop that fills the `args` array through argIndex. */
  method ConvertAttributeArguments(args: seq<AttributeArgument>) returns (r: Result<seq<Option<AttrValue>>>)
    ensures r == AttributeArgs(args)
  {
    var slots := new Option<AttrValue>[|args|](_ => None);
    var argIndex := 0;
    ghost var conv: seq<Option<AttrValue>> := [];
    for k := 0 to |args|
      invariant ConvertedArguments(args[..k]) == Ok(conv)
      invariant argIndex == |conv| <= k
      invariant forall x :: 0 <= x < argIndex ==> slots[x] == conv[x]
      invariant forall x :: argIndex <= x < slots.Length ==> slots[x] == None
    {
      assert args[..k + 1][..k] == args[..k];
      match args[k]
      case NonConstantArgument =>
      case ConstantArgument(c) =>
        var o := ConvertConstant(c);
        if o.Err? {
          ConvertedErrSticks(args, k + 1);
          return Err(o.error);
        }
        slots[argIndex] := o.value;
        argIndex := argIndex + 1;
        conv := conv + [o.value];
    }
    assert args[..|args|] == args;
    r := Ok(slots[..]);
    ConvertedArgumentsSpec(args);
    assert slots[..] == Padded(conv, |args|);
  }

  /** One forwarded attribute: the stripped name and the argument array. */
  function ForwardAttribute(a: CustomAttribute): Result<Attribute>
  {
    match AttributeArgs(a.arguments)
    case Err(e) => Err(e)
    case Ok(args) => Ok(Attribute(StripAttributeSuffix(a.typeName), args))
  }

  /** The forwarded attributes of a method, in order; the first failure aborts. */
  function ForwardAttributes(attrs: seq<CustomAttribute>): Result<seq<Attribute>>
    decreases |attrs|
  {
    if |attrs| == 0 then Ok([])
    else
      match ForwardAttributes(attrs[..|attrs| - 1])
      case Err(e) => Err(e)
      case Ok(done) =>
        match ForwardAttribute(attrs[|attrs| - 1])
        case Err(e) => Err(e)
        case Ok(a) => Ok(done + [a])
  }

  /**
   * One attribute is forwarded unless one of its constant arguments is of an unsupported
   * kind; it is named without the suffix and has one argument slot per argument.
   */
  lemma ForwardAttributeSpec(a: CustomAttribute)
    ensures ForwardAttribute(a).Ok? <==> ConvertedArguments(a.arguments).Ok?
    ensures ForwardAttribute(a).Err? ==> ForwardAttribute(a).error == InvalidConstant
    ensures ForwardAttribute(a).Ok? ==>
              ForwardAttribute(a).value.key == StripAttributeSuffix(a.typeName) &&
              |ForwardAttribute(a).value.args| == |a.arguments|
  {
    ConvertedArgumentsSpec(a.arguments);
  }

  /**
   * An attribute whose type name carries the suffix, with a Boolean, a non-constant, an
   * Int32 and a string argument: forwarded under the stripped name, with True/False, the
   * integer literal and the raw string in that order and the empty slot last.
   */
  lemma ForwardMixedAttribute(name: string, b: bool, i: Int32, str: string)
    ensures ForwardAttribute(CustomAttribute(name + AttributeSuffix,
                [ConstantArgument(BoolConstant(b)), NonConstantArgument,
                 ConstantArgument(Int32Constant(i)), ConstantArgument(StringConstant(Some(str)))]))
         == Ok(Attribute(name, [Some(ExprValue(BoolLit(b))), Some(ExprValue(IntLit(i as int))),
                                Some(StringValue(str)), None]))
  {
    StripAttributeSuffixOf(name);
    var args := [ConstantArgument(BoolConstant(b)), NonConstantArgument,
                 ConstantArgument(Int32Constant(i)), ConstantArgument(StringConstant(Some(str)))];
    var v1, v3, v4 := Some(ExprValue(BoolLit(b))), Some(ExprValue(IntLit(i as int))), Some(StringValue(str));
    var p1 := [ConstantArgument(BoolConstant(b))];
    var p2 := p1 + [NonConstantArgument];
    var p3 := p2 + [ConstantArgument(Int32Constant(i))];
    assert p1[..0] == [] && p2[..1] == p1 && p3[..2] == p2 && args[..3] == p3;
    assert ConvertedArguments([]) == Ok([]);
    assert ConvertConstant(BoolConstant(b)) == Ok(v1);
    assert p1[|p1| - 1] == ConstantArgument(BoolConstant(b));
    assert ConvertedArguments(p1[..|p1| - 1]) == Ok([]);
    assert [] + [v1] == [v1];
    assert ConvertedArguments(p1) == Ok([v1]);
    assert ConvertedArguments(p2) == Ok([v1]);
    assert ConvertConstant(Int32Constant(i)) == Ok(v3) && p3[|p3| - 1] == ConstantArgument(Int32Constant(i));
    assert [v1] + [v3] == [v1, v3];
    assert ConvertedArguments(p3) == Ok([v1, v3]);
    assert ConvertConstant(StringConstant(Some(str))) == Ok(v4) && args[|args| - 1] == ConstantArgument(StringConstant(Some(str)));
    assert [v1, v3] + [v4] == [v1, v3, v4];
    assert ConvertedArguments(args) == Ok([v1, v3, v4]);
    var pad := Padded([v1, v3, v4], |args|);
    assert pad[0] == v1 && pad[1] == v3 && pad[2] == v4 && pad[3] == None;
    assert pad == [v1, v3, v4, None];
  }

  /**
   * A null string argument is forwarded as an empty slot ahead of the later constants:
   * the slot for its position stays empty, and the next constant takes the slot after it.
   */
  lemma ForwardNullStringAttribute(name: string, b: bool)
    ensures ForwardAttribute(CustomAttribute(name + AttributeSuffix,
                [ConstantArgument(StringConstant(None)), ConstantArgument(BoolConstant(b))]))
         == Ok(Attribute(name, [None, Some(ExprValue(BoolLit(b)))]))
  {
    StripAttributeSuffixOf(name);
    var args := [ConstantArgument(StringConstant(None)), ConstantArgument(BoolConstant(b))];
    var p1 := [ConstantArgument(StringConstant(None))];
    assert p1[..0] == [] && args[..1] == p1;
    assert ConvertedArguments([]) == Ok([]);
    assert ConvertConstant(StringConstant(None)) == Ok(None);
    assert p1[|p1| - 1] == ConstantArgument(StringConstant(None));
    assert ConvertedArguments(p1[..|p1| - 1]) == Ok([]);
    var none: seq<Option<AttrValue>> := [None];
    assert [] + none == none;
    assert ConvertedArguments(p1) == Ok([None]);
    assert ConvertConstant(BoolConstant(b)) == Ok(Some(ExprValue(BoolLit(b))));
    assert args[|args| - 1] == ConstantArgument(BoolConstant(b)) && args[..|args| - 1] == p1;
    assert [None] + [Some(ExprValue(BoolLit(b)))] == [None, Some(ExprValue(BoolLit(b)))];
    assert ConvertedArguments(args) == Ok([None, Some(ExprValue(BoolLit(b)))]);
    assert Padded([None, Some(ExprValue(BoolLit(b)))], 2) == [None, Some(ExprValue(BoolLit(b)))];
  }

  /** Forwarding all attributes succeeds exactly when each one can be forwarded. */
  lemma {:induction false} ForwardAttributesOk(attrs: seq<CustomAttribute>)
    ensures ForwardAttributes(attrs).Ok? <==>
              forall k :: 0 <= k < |attrs| ==> ForwardAttribute(attrs[k]).Ok?
    ensures ForwardAttributes(attrs).Err? ==> ForwardAttributes(attrs).error == InvalidConstant
    decreases |attrs|
  {
    if |attrs| > 0 {
      var init, a := attrs[..|attrs| - 1], attrs[|attrs| - 1];
      ForwardAttributesOk(init);
      ForwardAttributeSpec(a);
      if forall k :: 0 <= k < |attrs| ==> ForwardAttribute(attrs[k]).Ok? {
        assert forall k :: 0 <= k < |init| ==> init[k] == attrs[k];
      } else if ForwardAttributes(init).Ok? {
        assert forall k :: 0 <= k < |init| ==> init[k] == attrs[k];
      }
    }
  }

  /** The forwarded attributes are those of the custom attributes, one each and in order. */
  lemma {:induction false} ForwardAttributesShape(attrs: seq<CustomAttribute>)
    ensures ForwardAttributes(attrs).Ok? ==>
              var fwd := ForwardAttributes(attrs).value;
              |fwd| == |attrs| &&
              forall k :: 0 <= k < |attrs| ==> ForwardAttribute(attrs[k]) == Ok(fwd[k])
    decreases |attrs|
  {
    if |attrs| > 0 {
      var init := attrs[..|attrs| - 1];
      ForwardAttributesShape(init);
      if ForwardAttributes(attrs).Ok? {
        assert forall k :: 0 <= k < |init| ==> init[k] == attrs[k];
      }
    }
  }

  lemma {:induction false} ForwardErrSticks(attrs: seq<CustomAttribute>, k: nat)
    requires k <= |attrs| && ForwardAttributes(attrs[..k]).Err?
    ensures ForwardAttributes(attrs) == ForwardAttributes(attrs[..k])
    decreases |attrs| - k
  {
    if k < |attrs| {
      assert attrs[..k + 1][..k] == attrs[..k];
      ForwardErrSticks(attrs, k + 1);
    } else {
      assert attrs[..k] == attrs;
    }
  }

  /** The loop over method.Attributes, each converted and added to the implementation. */
  method ForwardAll(attrs: seq<CustomAttribute>) returns (r: Result<seq<Attribute>>)
    ensures r == ForwardAttributes(attrs)
  {
    var added: seq<Attribute> := [];
    for k := 0 to |attrs|
      invariant ForwardAttributes(attrs[..k]) == Ok(added)
    {
      var a := attrs[k];
      assert attrs[..k + 1][..k] == attrs[..k];
      var name := StripAttributeSuffix(a.typeName);
      var args := ConvertAttributeArguments(a.arguments);
      if args.Err? {
        ForwardErrSticks(attrs, k + 1);
        return Err(args.error);
      }
      added := added + [Attribute(name, args.value)];
    }
    assert attrs[..|attrs|] == attrs;
    r := Ok(added);
  }

  // ----- The implementation -----

  /**
   * The implementation Visit(IMethodDefinition) builds for method `m` bound to `proc`,
   * or the failure that stops it, in the order the source meets them: an abstract
   * method, an entry copy, the body, the locals, an attribute.
   */
  function MethodImplementation(proc: Procedure, m: MethodDef): (r: Result<Implementation>)
    ensures m.isAbstract ==> r.Err? && r.error.Unsupported?
    ensures r.Ok? ==> r.value.name == proc.name && r.value.ins == proc.ins && r.value.outs == proc.outs
    ensures r.Ok? ==> |r.value.attributes| == |m.attributes|
  {
    if m.isAbstract then Err(Unsupported("abstract method"))
    else
      match EntryCopyCmds(m.tok, m.formals)
      case Err(e) => Err(e)
      case Ok(copies) =>
        match m.body
        case Untranslatable(e) => Err(e)
        case Translated(cmds, bodyLocals, _) =>
          match ImplLocals(m.formals, bodyLocals)
          case Err(e) => Err(e)
          case Ok(locals) =>
            match ForwardAttributes(m.attributes)
            case Err(e) => Err(e)
            case Ok(attrs) =>
              ForwardAttributesShape(m.attributes);
              Ok(Implementation(proc.name, proc.ins, proc.outs, locals, copies + cmds, attrs))
  }

  /**
   * An abstract method is unsupported. Otherwise the implementation has the procedure's
   * name and parameters, its body starts with one entry copy per in-copy and continues
   * with the translated body, its locals are the by-value out-copies followed by the body
   * locals, and it carries one attribute per custom attribute; it exists exactly when
   * the copies pair up, the body translates, every by-value formal has an out-copy and
   * no attribute argument is of an unsupported kind.
   */
  lemma MethodImplementationSpec(proc: Procedure, m: MethodDef)
    ensures m.isAbstract ==> MethodImplementation(proc, m) == Err(Unsupported("abstract method"))
    ensures MethodImplementation(proc, m).Ok? <==>
              !m.isAbstract && CopiesPaired(m.formals) && m.body.Translated? &&
              ByValueCopied(m.formals) &&
              forall k :: 0 <= k < |m.attributes| ==> ConvertedArguments(m.attributes[k].arguments).Ok?
    ensures MethodImplementation(proc, m).Ok? ==>
              var impl, n := MethodImplementation(proc, m).value, |InCopies(m.formals)|;
              impl.name == proc.name && impl.ins == proc.ins && impl.outs == proc.outs &&
              n <= |impl.body| && impl.body[n..] == m.body.cmds &&
              (forall x :: 0 <= x < n ==>
                 impl.body[x].Assign? && impl.body[x].tok == m.tok &&
                 impl.body[x].rhs == Ident(InCopies(m.formals)[x])) &&
              impl.locals == ByValueLocals(m.formals).value + m.body.locals &&
              |impl.attributes| == |m.attributes| &&
              forall k :: 0 <= k < |m.attributes| ==>
                impl.attributes[k].key == StripAttributeSuffix(m.attributes[k].typeName) &&
                |impl.attributes[k].args| == |m.attributes[k].arguments|
  {
    EntryCopyCmdsOk(m.tok, m.formals);
    ByValueLocalsSpec(m.formals);
    ForwardAttributesOk(m.attributes);
    ForwardAttributesShape(m.attributes);
    forall k | 0 <= k < |m.attributes| {
      ForwardAttributeSpec(m.attributes[k]);
    }
    if MethodImplementation(proc, m).Ok? {
      EntryCopyCmdsReads(m.tok, m.formals);
      var copies := EntryCopyCmds(m.tok, m.formals).value;
      var impl := MethodImplementation(proc, m).value;
      assert impl.body == copies + m.body.cmds;
      assert impl.body[|copies|..] == m.body.cmds;
    }
  }
}
