/**
 * Multicast dispatch synthesis: for a delegate type with subscribers d1..dk (registry
 * order), one procedure and one implementation named after the type's Invoke method.
 * The implementation walks the delegate's circular chain in a `while(true)` loop that
 * breaks when it is back at the head, and calls the subscriber whose identity constant
 * the current node holds, chosen by a cascade of nested ifs.
 */
module Dispatch {
  import opened Wrappers
  import opened Boogie
  import opened Cci
  import opened Sinks

  const MethodLocal := Variable(Named("method"), IntType)
  const ReceiverLocal := Variable(Named("receiver"), IntType)
  const IterLocal := Variable(Named("iter"), IntType)
  const NiterLocal := Variable(Named("niter"), IntType)

  /**
   * The commands an `if` runs next when its guard evaluates to `holds`, whatever the guard
   * is: the then-branch, or else the else-branch as one command (nothing when there is none).
   */
  function Branch(c: Cmd, holds: bool): seq<Cmd>
  {
    match c
    case If(_, thn, els) => if holds then thn else if els.Some? then [els.value] else []
    case _ => [c]
  }

  /** `if (b) { break; }`: guarded by b itself, it breaks exactly when b holds and has no else. */
  function BuildBreakCmd(b: Expr): (r: Cmd)
    ensures r.If? && r.guard == b && r.elseIf.None?
    ensures forall holds :: Branch(r, holds) == if holds then [Break] else []
    ensures forall id :: Selected(r, id) == if GuardHolds(b, id) then [Break] else []
  {
    If(b, [Break], None)
  }

  /** `if (b) { cmd } else ifCmd`: cmd runs when b holds, otherwise whatever ifCmd selects. */
  function BuildIfCmd(b: Expr, cmd: Cmd, ifCmd: Option<Cmd>): (r: Cmd)
    ensures r.If? && r.guard == b
    ensures forall holds :: Branch(r, holds) ==
              if holds then [cmd] else if ifCmd.Some? then [ifCmd.value] else []
    ensures forall id :: Selected(r, id) ==
              if GuardHolds(b, id) then [cmd] else if ifCmd.Some? then Selected(ifCmd.value, id) else []
  {
    If(b, [cmd], ifCmd)
  }

  // ----- Parameters -----

  /** The dispatcher's in-parameters: the delegate instance, then the in-copies of Invoke's formals. */
  function DispatchInParams(fs: seq<Formal>): seq<Variable>
  {
    [ThisFormal] + InCopies(fs)
  }

  /** The dispatcher's out-parameters: by-reference/out copies, then `$result` unless Invoke is void. */
  function DispatchOutParams(fs: seq<Formal>, ret: Option<BType>): seq<Variable>
  {
    OutCopies(fs) + ResultSlot(ret)
  }

  /**
   * The parameter arrays of CreateDispatchMethod: count the slots, allocate the arrays
   * with empty slots, and fill them through the indices i and j.
   */
  method DispatchParams(formals: seq<Formal>, ret: Option<BType>)
    returns (invars: seq<Variable>, outvars: seq<Variable>, inCount: nat, outCount: nat)
    ensures invars == DispatchInParams(formals) && outvars == DispatchOutParams(formals, ret)
    ensures inCount == |invars| == 1 + |InCopies(formals)|
    ensures outCount == |outvars| == |OutCopies(formals)| + (if ret.Some? then 1 else 0)
    ensures invars[0] == ThisFormal && invars[1..] == InCopies(formals)
    ensures outvars[..|OutCopies(formals)|] == OutCopies(formals)
    ensures ret.Some? ==> outvars[outCount - 1] == ResultFormal(ret.value)
  {
    inCount, outCount := CountSlots(formals, ret);
    var ins, outs := FillSlots(formals, ret, inCount, outCount);
    invars := Values(ins);
    outvars := Values(outs);
  }

  /** The first loop of CreateDispatchMethod: in_count and out_count. */
  method CountSlots(formals: seq<Formal>, ret: Option<BType>) returns (in_count: nat, out_count: nat)
    ensures in_count == |DispatchInParams(formals)|
    ensures out_count == |DispatchOutParams(formals, ret)|
  {
    in_count, out_count := 0, 0;
    for k := 0 to |formals|
      invariant in_count == |InCopies(formals[..k])|
      invariant out_count == |OutCopies(formals[..k])|
    {
      CopiesSnoc(formals[..k], formals[k]);
      assert formals[..k + 1] == formals[..k] + [formals[k]];
      if formals[k].inCopy.Some? {
        in_count := in_count + 1;
      }
      if formals[k].outCopy.Some? && formals[k].IsByRefOrOut() {
        out_count := out_count + 1;
      }
    }
    assert formals[..|formals|] == formals;
    if ret.Some? {
      out_count := out_count + 1;
    }
    in_count := in_count + 1;  // for the delegate instance
  }

  /**
   * The arrays of CreateDispatchMethod, allocated with the counted sizes and empty slots,
   * then filled through i and j: every slot ends up written.
   */
  method FillSlots(formals: seq<Formal>, ret: Option<BType>, in_count: nat, out_count: nat)
    returns (inSlots: seq<Option<Variable>>, outSlots: seq<Option<Variable>>)
    requires in_count == |DispatchInParams(formals)|
    requires out_count == |DispatchOutParams(formals, ret)|
    ensures inSlots == Somes(DispatchInParams(formals))
    ensures outSlots == Somes(DispatchOutParams(formals, ret))
  {
    var ins := new Option<Variable>[in_count](_ => None);
    var outs := new Option<Variable>[out_count](_ => None);
    var i, j := 0, 0;
    ins[i] := Some(ThisFormal);
    i := i + 1;
    j := FillFromFormals(formals, ret, ins, outs);
    if ret.Some? {
      outs[j] := Some(ResultFormal(ret.value));
    }
    inSlots, outSlots := ins[..], outs[..];
    assert forall x :: 0 <= x < |inSlots| ==> inSlots[x] == Some(DispatchInParams(formals)[x]);
    assert forall x :: 0 <= x < |outSlots| ==> outSlots[x] == Some(DispatchOutParams(formals, ret)[x]);
  }

  /** The loop over the formals that fills the slots after `this` and before `$result`. */
  method FillFromFormals(formals: seq<Formal>, ret: Option<BType>, ins: array<Option<Variable>>,
                         outs: array<Option<Variable>>) returns (j: nat)
    requires ins != outs
    requires ins.Length == |DispatchInParams(formals)| && ins[0] == Some(ThisFormal)
    requires outs.Length == |DispatchOutParams(formals, ret)|
    modifies ins, outs
    ensures j == |OutCopies(formals)|
    ensures forall x :: 0 <= x < ins.Length ==> ins[x] == Some(DispatchInParams(formals)[x])
    ensures forall x :: 0 <= x < j ==> outs[x] == Some(DispatchOutParams(formals, ret)[x])
  {
    ghost var allIns, allOuts := DispatchInParams(formals), DispatchOutParams(formals, ret);
    ghost var nOut := |OutCopies(formals)|;
    var i := 1;
    j := 0;
    for k := 0 to |formals|
      invariant i == 1 + |InCopies(formals[..k])| <= ins.Length == |allIns|
      invariant j == |OutCopies(formals[..k])| <= nOut <= outs.Length == |allOuts|
      invariant forall x :: 0 <= x < i ==> ins[x] == Some(allIns[x])
      invariant forall x :: 0 <= x < j ==> outs[x] == Some(allOuts[x])
    {
      var f := formals[k];
      NextSlots(formals, ret, k);
      CopiesBound(formals, k + 1);
      if f.inCopy.Some? {
        ins[i] := f.inCopy;
        i := i + 1;
      }
      if f.outCopy.Some? {
        if f.IsByRefOrOut() {
          outs[j] := f.outCopy;
          j := j + 1;
        }
      }
    }
    assert formals[..|formals|] == formals;
  }

  /** Where the in- and out-copy of formal k go in the dispatcher's parameter lists. */
  lemma NextSlots(formals: seq<Formal>, ret: Option<BType>, k: nat)
    requires k < |formals|
    ensures var f, i := formals[k], 1 + |InCopies(formals[..k])|;
            |InCopies(formals[..k + 1])| == |InCopies(formals[..k])| + (if f.inCopy.Some? then 1 else 0) &&
            (f.inCopy.Some? ==> i < |DispatchInParams(formals)| && DispatchInParams(formals)[i] == f.inCopy.value)
    ensures var f, j := formals[k], |OutCopies(formals[..k])|;
            |OutCopies(formals[..k + 1])| == |OutCopies(formals[..k])| + (if HasOutSlot(f) then 1 else 0) &&
            |OutCopies(formals[..k + 1])| <= |OutCopies(formals)| &&
            (HasOutSlot(f) ==> j < |OutCopies(formals)| && DispatchOutParams(formals, ret)[j] == f.outCopy.value)
  {
    var f := formals[k];
    CopiesSnoc(formals[..k], f);
    assert formals[..k + 1] == formals[..k] + [f];
    InCopiesAppend(formals[..k + 1], formals[k + 1..]);
    OutCopiesAppend(formals[..k + 1], formals[k + 1..]);
    assert formals[..k + 1] + formals[k + 1..] == formals;
  }

  lemma CopiesSnoc(fs: seq<Formal>, f: Formal)
    ensures InCopies(fs + [f]) == InCopies(fs) + (if f.inCopy.Some? then [f.inCopy.value] else [])
    ensures OutCopies(fs + [f]) == OutCopies(fs) + (if HasOutSlot(f) then [f.outCopy.value] else [])
  {
    assert (fs + [f])[..|fs|] == fs;
  }

  lemma CopiesBound(fs: seq<Formal>, k: nat)
    requires k <= |fs|
    ensures |InCopies(fs[..k])| <= |InCopies(fs)| && |OutCopies(fs[..k])| <= |OutCopies(fs)|
  {
    InCopiesAppend(fs[..k], fs[k..]);
    OutCopiesAppend(fs[..k], fs[k..]);
    assert fs[..k] + fs[k..] == fs;
  }

  // ----- The subscriber cascade -----

  /** `receiver` for an instance subscriber, then the dispatcher's in-parameters after `this`. */
  function CallArgs(d: MethodDef, invars: seq<Variable>): seq<Expr>
  {
    (if d.isStatic then [] else [Ident(ReceiverLocal)]) + Idents(if |invars| == 0 then [] else invars[1..])
  }

  /** The call of a subscriber: named after its identity constant, receiving all outputs. */
  function SubscriberCall(consts: map<MethodDef, Constant>, d: MethodDef,
                          invars: seq<Variable>, outvars: seq<Variable>, tok: Token): Cmd
  {
    Call(tok, ConstOf(consts, d).name, CallArgs(d, invars), outvars)
  }

  /** The test `method == c(d)`. */
  function IdentityTest(consts: map<MethodDef, Constant>, d: MethodDef): Expr
  {
    Binary(Eq, Ident(MethodLocal), ConstRef(ConstOf(consts, d)))
  }

  /** The innermost layer: no known subscriber matched. */
  function Unmatched(tok: Token): Cmd
  {
    BuildIfCmd(BoolLit(true), Assume(tok, BoolLit(false)), None)
  }

  /** The cascade after the loop over `subs` has rebound ifCmd once per subscriber. */
  function Cascade(consts: map<MethodDef, Constant>, subs: seq<MethodDef>,
                   invars: seq<Variable>, outvars: seq<Variable>, tok: Token): (r: Cmd)
    ensures r.If?
    ensures forall id :: |Selected(r, id)| == 1
    decreases |subs|
  {
    if |subs| == 0 then Unmatched(tok)
    else
      var d := subs[|subs| - 1];
      BuildIfCmd(IdentityTest(consts, d), SubscriberCall(consts, d, invars, outvars, tok),
                 Some(Cascade(consts, subs[..|subs| - 1], invars, outvars, tok)))
  }

  lemma IdentsSnoc(vs: seq<Variable>, v: Variable)
    ensures Idents(vs + [v]) == Idents(vs) + [Ident(v)]
  {
  }

  /** Where the arguments of a subscriber call come from. */
  lemma CallArgsShape(d: MethodDef, invars: seq<Variable>)
    requires |invars| >= 1
    ensures var skip := if d.isStatic then 0 else 1;
            |CallArgs(d, invars)| == skip + |invars| - 1 &&
            (!d.isStatic ==> CallArgs(d, invars)[0] == Ident(ReceiverLocal)) &&
            forall k :: 1 <= k < |invars| ==> CallArgs(d, invars)[skip + k - 1] == Ident(invars[k])
  {
    var receiverPart: seq<Expr> := if d.isStatic then [] else [Ident(ReceiverLocal)];
    var rest := Idents(invars[1..]);
    assert CallArgs(d, invars) == receiverPart + rest;
    forall k | 1 <= k < |invars|
      ensures CallArgs(d, invars)[|receiverPart| + k - 1] == Ident(invars[k])
    {
      assert rest[k - 1] == Ident(invars[1..][k - 1]);
    }
  }

  /**
   * The building of one subscriber call in CreateDispatchMethod: `ins` gets `receiver`
   * for an instance method and then invars[1..], `outs` gets all of outvars.
   */
  method BuildSubscriberCall(defn: MethodDef, c: Constant, invars: seq<Variable>,
                             outvars: seq<Variable>, tok: Token) returns (call: Cmd)
    ensures call == Call(tok, c.name, CallArgs(defn, invars), outvars)
  {
    var ins := CallIns(defn, invars);
    var outs := CallOuts(outvars);
    call := Call(tok, c.name, ins, outs);
  }

  lemma SliceSnoc<T>(s: seq<T>, i: nat, j: nat)
    requires i <= j < |s|
    ensures s[i..j + 1] == s[i..j] + [s[j]]
  {
  }

  method CallIns(defn: MethodDef, invars: seq<Variable>) returns (ins: seq<Expr>)
    ensures ins == CallArgs(defn, invars)
  {
    ins := [];
    if !defn.isStatic {
      ins := ins + [Ident(ReceiverLocal)];
    }
    ghost var receiverPart := ins;
    if |invars| == 0 { return; }
    var index := 1;
    while index < |invars|
      invariant 1 <= index <= |invars|
      invariant ins == receiverPart + Idents(invars[1..index])
    {
      IdentsSnoc(invars[1..index], invars[index]);
      SliceSnoc(invars, 1, index);
      ins := ins + [Ident(invars[index])];
      index := index + 1;
    }
    assert invars[1..index] == invars[1..];
  }

  method CallOuts(outvars: seq<Variable>) returns (outs: seq<Variable>)
    ensures outs == outvars
  {
    outs := [];
    var index := 0;
    while index < |outvars|
      invariant 0 <= index <= |outvars|
      invariant outs == outvars[..index]
    {
      outs := outs + [outvars[index]];
      index := index + 1;
    }
  }

  // ----- The dispatcher -----

  /** The body of the chain walk. */
  function LoopBody(self: Variable, cascade: Cmd): seq<Cmd>
  {
    [ Assign(NoToken, NiterLocal, HeapRead(ReadNext, [Ident(self), Ident(IterLocal)])),
      BuildBreakCmd(Binary(Eq, Ident(NiterLocal), HeapRead(ReadHead, [Ident(self)]))),
      Assign(NoToken, MethodLocal, HeapRead(ReadMethod, [Ident(self), Ident(NiterLocal)])),
      Assign(NoToken, ReceiverLocal, HeapRead(ReadReceiver, [Ident(self), Ident(NiterLocal)])),
      cascade,
      Assign(NoToken, IterLocal, Ident(NiterLocal)) ]
  }

  function DispatchBody(self: Variable, cascade: Cmd): seq<Cmd>
  {
    [ Assign(NoToken, IterLocal, HeapRead(ReadHead, [Ident(self)])),
      While(BoolLit(true), [], LoopBody(self, cascade)) ]
  }

  /** The procedure and implementation CreateDispatchMethod appends for Invoke method `inv`. */
  function DispatchDecls(consts: map<MethodDef, Constant>, inv: MethodDef, subs: seq<MethodDef>)
    : (r: seq<Declaration>)
    ensures |r| == 2 && r[0].ProcDecl? && r[1].ImplDecl?
    ensures r[0].proc.name == r[1].impl.name == inv.uniqueName
    ensures r[1].impl.ins == r[0].proc.ins && r[1].impl.outs == r[0].proc.outs
    ensures |r[0].proc.ins| == 1 + |InCopies(inv.formals)| && r[0].proc.ins[0] == ThisFormal
  {
    var invars := DispatchInParams(inv.formals);
    var outvars := DispatchOutParams(inv.formals, inv.returnType);
    var cascade := Cascade(consts, subs, invars, outvars, inv.tok);
    [ ProcDecl(Procedure(inv.uniqueName, invars, outvars)),
      ImplDecl(Implementation(inv.uniqueName, invars, outvars,
                              [IterLocal, NiterLocal, MethodLocal, ReceiverLocal],
                              DispatchBody(ThisFormal, cascade), [])) ]
  }

  /** CreateDispatchMethod on a registry entry. A delegate type without Invoke is a defect. */
  function CreateDispatchF(ctx: Ctx, e: DelegateEntry): (r: Step)
    ensures r.outcome.Done? <==> FindInvoke(Methods(e.delegateType.members)).Some?
    ensures r.outcome.Failed? ==> r.ctx == ctx
    ensures r.outcome.Done? ==>
              r.ctx == ctx.(topLevelDeclarations := r.ctx.topLevelDeclarations,
                            delegateMethodConstants := r.ctx.delegateMethodConstants) &&
              ctx.topLevelDeclarations <= r.ctx.topLevelDeclarations &&
              |r.ctx.topLevelDeclarations| == |ctx.topLevelDeclarations| + 2
  {
    match FindInvoke(Methods(e.delegateType.members))
    case None => Step(ctx, Failed(InternalDefect("delegate type without Invoke")))
    case Some(inv) =>
      Step(ctx.(topLevelDeclarations :=
                  ctx.topLevelDeclarations + DispatchDecls(ctx.delegateMethodConstants, inv, e.subscribers),
                delegateMethodConstants := AddConstants(ctx.delegateMethodConstants, e.subscribers)),
           Done)
  }

  /** Creating a dispatcher keeps the context's invariant. */
  lemma CreateDispatchCoherent(ctx: Ctx, e: DelegateEntry)
    requires Coherent(ctx)
    ensures Coherent(CreateDispatchF(ctx, e).ctx)
  {
    AddConstantsByName(ctx.delegateMethodConstants, e.subscribers);
  }

  // ----- Properties of the cascade -----

  /** The command reached after following `k` else-branches. */
  function ElseChain(c: Cmd, k: nat): Option<Cmd>
    decreases k
  {
    if k == 0 then Some(c)
    else if c.If? && c.elseIf.Some? then ElseChain(c.elseIf.value, k - 1)
    else None
  }

  /** Following |subs| - n else-branches of the cascade leads to the cascade of the first n subscribers. */
  lemma {:induction false} CascadeLayers(consts: map<MethodDef, Constant>, subs: seq<MethodDef>,
                                         invars: seq<Variable>, outvars: seq<Variable>, tok: Token, n: nat)
    requires n <= |subs|
    ensures ElseChain(Cascade(consts, subs, invars, outvars, tok), |subs| - n)
         == Some(Cascade(consts, subs[..n], invars, outvars, tok))
    decreases |subs|
  {
    if n < |subs| {
      var init := subs[..|subs| - 1];
      CascadeOuter(consts, subs, invars, outvars, tok);
      CascadeLayers(consts, init, invars, outvars, tok, n);
      assert init[..n] == subs[..n];
    } else {
      assert subs[..n] == subs;
    }
  }

  /** The else-branch of a non-empty cascade is the cascade of all but the last subscriber. */
  lemma CascadeOuter(consts: map<MethodDef, Constant>, subs: seq<MethodDef>,
                     invars: seq<Variable>, outvars: seq<Variable>, tok: Token)
    requires |subs| > 0
    ensures Cascade(consts, subs, invars, outvars, tok).If?
    ensures Cascade(consts, subs, invars, outvars, tok).elseIf
         == Some(Cascade(consts, subs[..|subs| - 1], invars, outvars, tok))
  {
  }

  /** Layer k from the outside tests and calls subscriber d(|subs|-k), around the cascade of those before it. */
  lemma CascadeLayerAt(consts: map<MethodDef, Constant>, subs: seq<MethodDef>,
                       invars: seq<Variable>, outvars: seq<Variable>, tok: Token, k: nat)
    requires k < |subs|
    ensures var d := subs[|subs| - 1 - k];
            ElseChain(Cascade(consts, subs, invars, outvars, tok), k) ==
              Some(If(IdentityTest(consts, d), [SubscriberCall(consts, d, invars, outvars, tok)],
                      Some(Cascade(consts, subs[..|subs| - 1 - k], invars, outvars, tok))))
  {
    CascadeLayers(consts, subs, invars, outvars, tok, |subs| - k);
    var p := subs[..|subs| - k];
    assert p[|p| - 1] == subs[|subs| - 1 - k];
    assert p[..|p| - 1] == subs[..|subs| - 1 - k];
  }

  /**
   * The cascade has exactly |subs| + 1 nested ifs: layer k from the outside tests the
   * identity of subscriber d(|subs|-k) and calls it, its else-branch is the previous layer,
   * and the innermost layer is `if true then assume false`.
   */
  lemma CascadeShape(consts: map<MethodDef, Constant>, subs: seq<MethodDef>,
                     invars: seq<Variable>, outvars: seq<Variable>, tok: Token)
    ensures forall k :: 0 <= k < |subs| ==>
              var d := subs[|subs| - 1 - k];
              ElseChain(Cascade(consts, subs, invars, outvars, tok), k) ==
                Some(If(IdentityTest(consts, d), [SubscriberCall(consts, d, invars, outvars, tok)],
                        Some(Cascade(consts, subs[..|subs| - 1 - k], invars, outvars, tok))))
    ensures ElseChain(Cascade(consts, subs, invars, outvars, tok), |subs|)
         == Some(If(BoolLit(true), [Assume(tok, BoolLit(false))], None))
    ensures ElseChain(Cascade(consts, subs, invars, outvars, tok), |subs| + 1) == None
  {
    forall k | 0 <= k < |subs| {
      CascadeLayerAt(consts, subs, invars, outvars, tok, k);
    }
    CascadeLayers(consts, subs, invars, outvars, tok, 0);
    assert ElseChain(Unmatched(tok), 1) == None;
    ElseChainStep(Cascade(consts, subs, invars, outvars, tok), |subs|);
  }

  lemma {:induction false} ElseChainStep(c: Cmd, k: nat)
    requires ElseChain(c, k).Some?
    ensures ElseChain(c, k + 1) == ElseChain(ElseChain(c, k).value, 1)
    decreases k
  {
    if k > 0 {
      ElseChainStep(c.elseIf.value, k - 1);
    }
  }

  // ----- What the cascade runs -----

  /** Whether a cascade guard holds when the local `method` holds identity constant `id`. */
  predicate GuardHolds(g: Expr, id: Constant)
  {
    match g
    case BoolLit(b) => b
    case Binary(op, Ident(v), ConstRef(c)) => op == Eq && v == MethodLocal && c == id
    case _ => false
  }

  /** The commands a chain of ifs runs when `method` holds `id` (empty when no guard holds). */
  function Selected(c: Cmd, id: Constant): seq<Cmd>
  {
    match c
    case If(g, thn, els) =>
      if GuardHolds(g, id) then thn
      else if els.Some? then Selected(els.value, id) else []
    case _ => []
  }

  /**
   * When `method` holds the identity constant of subscriber i, and no later subscriber
   * has the same constant, the cascade calls subscriber i.
   */
  lemma {:induction false} CascadeCallsMatch(consts: map<MethodDef, Constant>, subs: seq<MethodDef>,
                                             invars: seq<Variable>, outvars: seq<Variable>, tok: Token,
                                             id: Constant, i: nat)
    requires i < |subs| && ConstOf(consts, subs[i]) == id
    requires forall j :: i < j < |subs| ==> ConstOf(consts, subs[j]) != id
    ensures Selected(Cascade(consts, subs, invars, outvars, tok), id)
         == [SubscriberCall(consts, subs[i], invars, outvars, tok)]
    decreases |subs|
  {
    var init, d := subs[..|subs| - 1], subs[|subs| - 1];
    var rest := Cascade(consts, init, invars, outvars, tok);
    assert Cascade(consts, subs, invars, outvars, tok)
        == If(IdentityTest(consts, d), [SubscriberCall(consts, d, invars, outvars, tok)], Some(rest));
    if i < |subs| - 1 {
      assert !GuardHolds(IdentityTest(consts, d), id);
      assert init[i] == subs[i];
      assert forall j :: i < j < |init| ==> init[j] == subs[j];
      CascadeCallsMatch(consts, init, invars, outvars, tok, id, i);
    } else {
      assert GuardHolds(IdentityTest(consts, d), id);
    }
  }

  /** When `method` holds a constant no subscriber has, the cascade runs `assume false`. */
  lemma {:induction false} CascadeBlocksForeign(consts: map<MethodDef, Constant>, subs: seq<MethodDef>,
                                                invars: seq<Variable>, outvars: seq<Variable>, tok: Token,
                                                id: Constant)
    requires forall j :: 0 <= j < |subs| ==> ConstOf(consts, subs[j]) != id
    ensures Selected(Cascade(consts, subs, invars, outvars, tok), id) == [Assume(tok, BoolLit(false))]
    decreases |subs|
  {
    if |subs| > 0 {
      var init := subs[..|subs| - 1];
      assert ConstOf(consts, subs[|subs| - 1]) != id;
      CascadeBlocksForeign(consts, init, invars, outvars, tok, id);
    }
  }
  // ----- What the chain walk runs -----

  /**
   * The commands the loop runs on a chain whose nodes after the head hold the identity
   * constants `ids`, in chain order: on each node, what the cascade selects for it.
   */
  function WalkCalls(cascade: Cmd, ids: seq<Constant>): seq<Cmd>
    decreases |ids|
  {
    if |ids| == 0 then []
    else WalkCalls(cascade, ids[..|ids| - 1]) + Selected(cascade, ids[|ids| - 1])
  }

  /** No subscriber has identity constant `id`. */
  predicate Foreign(consts: map<MethodDef, Constant>, subs: seq<MethodDef>, id: Constant)
  {
    forall j :: 0 <= j < |subs| ==> ConstOf(consts, subs[j]) != id
  }

  /** The subscribers have pairwise distinct identity constants. */
  predicate DistinctConstants(consts: map<MethodDef, Constant>, subs: seq<MethodDef>)
  {
    forall i, j :: 0 <= i < j < |subs| ==> ConstOf(consts, subs[i]) != ConstOf(consts, subs[j])
  }

  /**
   * Under the context's invariant, subscribers have distinct constants exactly when
   * they have distinct unique names.
   */
  lemma DistinctConstantsByName(consts: map<MethodDef, Constant>, subs: seq<MethodDef>)
    requires ConstantsByName(consts)
    ensures DistinctConstants(consts, subs) <==>
              forall i, j :: 0 <= i < j < |subs| ==> subs[i].uniqueName != subs[j].uniqueName
  {
    forall i | 0 <= i < |subs| {
      ConstOfByName(consts, subs[i]);
    }
  }

  /** For an identity some subscriber has, the cascade selects one subscriber call. */
  lemma {:induction false} SelectedKnown(consts: map<MethodDef, Constant>, subs: seq<MethodDef>,
                                         invars: seq<Variable>, outvars: seq<Variable>, tok: Token,
                                         id: Constant)
    requires !Foreign(consts, subs, id)
    ensures var sel := Selected(Cascade(consts, subs, invars, outvars, tok), id);
            |sel| == 1 && sel[0].Call?
    decreases |subs|
  {
    var init, d := subs[..|subs| - 1], subs[|subs| - 1];
    var rest := Cascade(consts, init, invars, outvars, tok);
    assert Cascade(consts, subs, invars, outvars, tok)
        == If(IdentityTest(consts, d), [SubscriberCall(consts, d, invars, outvars, tok)], Some(rest));
    if ConstOf(consts, d) != id {
      assert !GuardHolds(IdentityTest(consts, d), id);
      assert !Foreign(consts, init, id) by {
        var j :| 0 <= j < |subs| && ConstOf(consts, subs[j]) == id;
        assert init[j] == subs[j];
      }
      SelectedKnown(consts, init, invars, outvars, tok, id);
    } else {
      assert GuardHolds(IdentityTest(consts, d), id);
    }
  }

  /** With distinct constants, the cascade selects subscriber i for i's own constant. */
  lemma SelectedBound(consts: map<MethodDef, Constant>, subs: seq<MethodDef>,
                      invars: seq<Variable>, outvars: seq<Variable>, tok: Token, i: nat)
    requires DistinctConstants(consts, subs) && i < |subs|
    ensures Selected(Cascade(consts, subs, invars, outvars, tok), ConstOf(consts, subs[i]))
         == [SubscriberCall(consts, subs[i], invars, outvars, tok)]
  {
    CascadeCallsMatch(consts, subs, invars, outvars, tok, ConstOf(consts, subs[i]), i);
  }

  /** The calls of the subscribers at positions `chain`, in chain order. */
  function SubscriberCalls(consts: map<MethodDef, Constant>, subs: seq<MethodDef>, chain: seq<nat>,
                           invars: seq<Variable>, outvars: seq<Variable>, tok: Token): (r: seq<Cmd>)
    requires forall k :: 0 <= k < |chain| ==> chain[k] < |subs|
    ensures |r| == |chain|
    ensures forall k :: 0 <= k < |chain| ==> r[k] == SubscriberCall(consts, subs[chain[k]], invars, outvars, tok)
    decreases |chain|
  {
    if |chain| == 0 then []
    else
      SubscriberCalls(consts, subs, chain[..|chain| - 1], invars, outvars, tok) +
        [SubscriberCall(consts, subs[chain[|chain| - 1]], invars, outvars, tok)]
  }

  /**
   * On a chain whose nodes are bound to subscribers (`chain` gives their positions, `ids`
   * the constants the nodes hold), the walk calls each node's subscriber once, in chain
   * order, and runs nothing else.
   */
  lemma {:induction false} WalkCallsKnown(consts: map<MethodDef, Constant>, subs: seq<MethodDef>,
                                          invars: seq<Variable>, outvars: seq<Variable>, tok: Token,
                                          chain: seq<nat>, ids: seq<Constant>)
    requires DistinctConstants(consts, subs)
    requires |ids| == |chain|
    requires forall k :: 0 <= k < |chain| ==> chain[k] < |subs| && ids[k] == ConstOf(consts, subs[chain[k]])
    ensures WalkCalls(Cascade(consts, subs, invars, outvars, tok), ids)
         == SubscriberCalls(consts, subs, chain, invars, outvars, tok)
    decreases |chain|
  {
    if |chain| > 0 {
      var n, cascade := |chain| - 1, Cascade(consts, subs, invars, outvars, tok);
      var chainBefore, idsBefore := chain[..n], ids[..n];
      forall k | 0 <= k < n
        ensures chainBefore[k] < |subs| && idsBefore[k] == ConstOf(consts, subs[chainBefore[k]])
      {
        assert chainBefore[k] == chain[k] && idsBefore[k] == ids[k];
      }
      WalkCallsKnown(consts, subs, invars, outvars, tok, chainBefore, idsBefore);
      SelectedBound(consts, subs, invars, outvars, tok, chain[n]);
      assert ids[n] == ConstOf(consts, subs[chain[n]]);
      assert WalkCalls(cascade, ids) == WalkCalls(cascade, ids[..n]) + Selected(cascade, ids[n]);
    }
  }

  /** On one node, the cascade runs `assume false` exactly when the node's identity is foreign. */
  lemma SelectedForeign(consts: map<MethodDef, Constant>, subs: seq<MethodDef>,
                        invars: seq<Variable>, outvars: seq<Variable>, tok: Token, id: Constant)
    ensures Assume(tok, BoolLit(false)) in Selected(Cascade(consts, subs, invars, outvars, tok), id)
        <==> Foreign(consts, subs, id)
  {
    if Foreign(consts, subs, id) {
      CascadeBlocksForeign(consts, subs, invars, outvars, tok, id);
    } else {
      SelectedKnown(consts, subs, invars, outvars, tok, id);
    }
  }

  /** A command runs in the walk exactly when the cascade selects it on some node. */
  lemma {:induction false} WalkCallsIn(cascade: Cmd, ids: seq<Constant>, x: Cmd)
    ensures x in WalkCalls(cascade, ids) <==> exists k :: 0 <= k < |ids| && x in Selected(cascade, ids[k])
    decreases |ids|
  {
    if |ids| > 0 {
      var n, init := |ids| - 1, ids[..|ids| - 1];
      WalkCallsIn(cascade, init, x);
      assert forall k :: 0 <= k < n ==> init[k] == ids[k];
    }
  }

  /**
   * The walk reaches `assume false` exactly when some node holds an identity constant
   * that no subscriber has.
   */
  lemma WalkCallsForeign(consts: map<MethodDef, Constant>, subs: seq<MethodDef>,
                         invars: seq<Variable>, outvars: seq<Variable>, tok: Token, ids: seq<Constant>)
    ensures Assume(tok, BoolLit(false)) in WalkCalls(Cascade(consts, subs, invars, outvars, tok), ids)
        <==> exists k :: 0 <= k < |ids| && Foreign(consts, subs, ids[k])
  {
    WalkCallsIn(Cascade(consts, subs, invars, outvars, tok), ids, Assume(tok, BoolLit(false)));
    forall k | 0 <= k < |ids| {
      SelectedForeign(consts, subs, invars, outvars, tok, ids[k]);
    }
  }
}
