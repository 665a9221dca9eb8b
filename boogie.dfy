/** The fragment of the Boogie language that the translator produces. */
module Boogie {
  import opened Wrappers

  /** A source location; its contents are irrelevant to the translation. */
  datatype Token = NoToken | Tok(id: nat)

  datatype BType = IntType | BoolType | RefType | NamedType(name: string)

  /** Names of variables: those spelled out by the translator, and fresh temporaries. */
  datatype VarName = Named(text: string) | Fresh(index: nat)

  datatype Variable = Variable(name: VarName, ty: BType)

  /** A Boogie constant (used as the identity of a delegate target method). */
  datatype Constant = Constant(name: string)

  datatype BinOp = Eq | Neq | Div

  /** The heap-encoding functions of the delegate chain (opaque here). */
  datatype HeapFunction = ReadHead | ReadNext | ReadMethod | ReadReceiver

  datatype Expr =
    | Ident(v: Variable)
    | ConstRef(c: Constant)
    | IntLit(n: int)
    | BoolLit(b: bool)
    | Binary(op: BinOp, left: Expr, right: Expr)
    | HeapRead(f: HeapFunction, args: seq<Expr>)

  /** Structured commands; an `If` carries at most one else-branch, itself an `If`. */
  datatype Cmd =
    | Assign(tok: Token, lhs: Variable, rhs: Expr)
    | Assert(tok: Token, cond: Expr)
    | Assume(tok: Token, cond: Expr)
    | Call(tok: Token, callee: string, ins: seq<Expr>, outs: seq<Variable>)
    | Break
    | If(guard: Expr, thn: seq<Cmd>, elseIf: Option<Cmd>)
    | While(guard: Expr, invariants: seq<Expr>, body: seq<Cmd>)

  /** An argument of a forwarded attribute: a Boogie expression or a raw string. */
  datatype AttrValue = ExprValue(e: Expr) | StringValue(s: string)

  /** A key/value attribute; an empty argument slot is `None`. */
  datatype Attribute = Attribute(key: string, args: seq<Option<AttrValue>>)

  datatype Procedure = Procedure(name: string, ins: seq<Variable>, outs: seq<Variable>)

  datatype Implementation = Implementation(
    name: string,
    ins: seq<Variable>,
    outs: seq<Variable>,
    locals: seq<Variable>,
    body: seq<Cmd>,
    attributes: seq<Attribute>)

  datatype Declaration =
    | ProcDecl(proc: Procedure)
    | ImplDecl(impl: Implementation)
    | GlobalDecl(global: Variable)

  function Idents(vs: seq<Variable>): (es: seq<Expr>)
    ensures |es| == |vs|
    ensures forall k :: 0 <= k < |vs| ==> es[k] == Ident(vs[k])
  {
    if |vs| == 0 then [] else [Ident(vs[0])] + Idents(vs[1..])
  }

  // ----- The fresh temporaries a piece of Boogie mentions -----

  function FreshOfVar(v: Variable): set<nat>
  {
    if v.name.Fresh? then {v.name.index} else {}
  }

  /** The indices of the fresh temporaries an expression mentions. */
  function FreshOfExpr(e: Expr): set<nat>
    decreases e
  {
    match e
    case Ident(v) => FreshOfVar(v)
    case Binary(_, l, r) => FreshOfExpr(l) + FreshOfExpr(r)
    case HeapRead(_, args) => set a, k | a in args && k in FreshOfExpr(a) :: k
    case _ => {}
  }

  /** The indices of the fresh temporaries a command mentions, read or written. */
  function FreshOfCmd(c: Cmd): set<nat>
    decreases c
  {
    match c
    case Assign(_, lhs, rhs) => FreshOfVar(lhs) + FreshOfExpr(rhs)
    case Assert(_, e) => FreshOfExpr(e)
    case Assume(_, e) => FreshOfExpr(e)
    case Call(_, _, ins, outs) =>
      (set a, k | a in ins && k in FreshOfExpr(a) :: k) + (set v, k | v in outs && k in FreshOfVar(v) :: k)
    case Break => {}
    case If(g, thn, els) =>
      FreshOfExpr(g) + (set x, k | x in thn && k in FreshOfCmd(x) :: k) +
      (match els case Some(x) => FreshOfCmd(x) case None => {})
    case While(g, invs, body) =>
      FreshOfExpr(g) + (set a, k | a in invs && k in FreshOfExpr(a) :: k) +
      (set x, k | x in body && k in FreshOfCmd(x) :: k)
  }

  /** Every fresh temporary mentioned is one of the first n. */
  predicate ExprBelow(e: Expr, n: nat) { forall k :: k in FreshOfExpr(e) ==> k < n }

  predicate CmdsBelow(cs: seq<Cmd>, n: nat) { forall c, k :: c in cs && k in FreshOfCmd(c) ==> k < n }

  /** Whether some command mentions the fresh temporary with index k. */
  predicate CmdsMention(cs: seq<Cmd>, k: nat) { exists c :: c in cs && k in FreshOfCmd(c) }

  /** How many of the commands assign to the fresh temporary with index k. */
  function AssignsTo(cs: seq<Cmd>, k: nat): nat
    decreases |cs|
  {
    if |cs| == 0 then 0
    else
      var c := cs[|cs| - 1];
      AssignsTo(cs[..|cs| - 1], k) + (if c.Assign? && c.lhs.name == Fresh(k) then 1 else 0)
  }

  lemma {:induction false} AssignsToAppend(a: seq<Cmd>, b: seq<Cmd>, k: nat)
    ensures AssignsTo(a + b, k) == AssignsTo(a, k) + AssignsTo(b, k)
    decreases |b|
  {
    if |b| > 0 {
      var b' := b[..|b| - 1];
      assert (a + b)[..|a + b| - 1] == a + b';
      AssignsToAppend(a, b', k);
    } else {
      assert a + b == a;
    }
  }

  /** Commands that mention only the first n temporaries assign none of the others. */
  lemma {:induction false} AssignsToBelow(cs: seq<Cmd>, n: nat, k: nat)
    requires CmdsBelow(cs, n) && n <= k
    ensures AssignsTo(cs, k) == 0
    decreases |cs|
  {
    if |cs| > 0 {
      var c := cs[|cs| - 1];
      assert c in cs;
      if c.Assign? && c.lhs.name == Fresh(k) {
        assert k in FreshOfCmd(c);
      }
      assert CmdsBelow(cs[..|cs| - 1], n) by {
        forall x, j | x in cs[..|cs| - 1] && j in FreshOfCmd(x) ensures j < n {
          assert x in cs;
        }
      }
      AssignsToBelow(cs[..|cs| - 1], n, k);
    }
  }

  /** The number of implementations among some declarations. */
  function ImplCount(ds: seq<Declaration>): nat
  {
    if |ds| == 0 then 0 else (if ds[0].ImplDecl? then 1 else 0) + ImplCount(ds[1..])
  }
}
