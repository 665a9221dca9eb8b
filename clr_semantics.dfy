/**
 * The CLR semantics of division: CLRExpressionSemantics.Visit(IDivision) translates the
 * left operand, then the right one, pops their results (right first), moves the divisor
 * into a fresh temporary, asserts that the temporary is not zero and pushes `L div tmp`.
 * The translation of any expression other than a division is abstract: an operand
 * appends the commands its translation emits and pushes its result, if it has one.
 */
module CLRSemantics {
  import opened Wrappers
  import opened Boogie
  import opened Cci
  import opened Sinks

  /** The TranslatedExpressions stack: entries pushed on top of the ones below them. */
  datatype ExprStack = EmptyStack | OnTop(below: ExprStack, top: Expr)

  /**
   * The state Visit works on: the TranslatedExpressions stack, the statement builder,
   * and the Sink's fresh-name counter.
   */
  datatype Machine = Machine(stack: ExprStack, stmts: seq<Cmd>, next: nat)

  /** The state after a visit, and how it ended. */
  datatype Run = Run(m: Machine, outcome: Outcome)

  const StackUnderflow := InternalDefect("pop from an empty stack")

  /** The fresh local CreateFreshLocal makes when the counter stands at n. */
  function Temp(n: nat, ty: BType): Variable { Variable(Fresh(n), ty) }

  /** The divisor check on temporary `tmp`. */
  function NonZero(loc: Token, tmp: Variable): Cmd
  {
    Assert(loc, Binary(Neq, Ident(tmp), IntLit(0)))
  }

  /** The part of Visit(IDivision) after both operands have been visited. */
  function DivideStep(m: Machine, loc: Token, ty: BType): (r: Run)
    ensures r.outcome.Done? <==> m.stack.OnTop? && m.stack.below.OnTop?
    ensures r.outcome.Failed? ==> r.outcome.error == StackUnderflow
    ensures r.outcome.Done? ==>
              r.m.next == m.next + 1 && r.m.stack.OnTop? && r.m.stack.below == m.stack.below.below &&
              m.stmts <= r.m.stmts && |r.m.stmts| == |m.stmts| + 2
  {
    match m.stack
    case EmptyStack => Run(m, Failed(StackUnderflow))
    case OnTop(EmptyStack, _) => Run(m.(stack := EmptyStack), Failed(StackUnderflow))
    case OnTop(OnTop(rest, lexp), rexp) =>
      var tmp := Temp(m.next, ty);
      Run(Machine(OnTop(rest, Binary(Div, lexp, Ident(tmp))),
                  m.stmts + [Assign(loc, tmp, rexp), NonZero(loc, tmp)],
                  m.next + 1),
          Done)
  }

  /** What visiting an expression does to the state; a failure (a stack underflow) stops it. */
  function Eval(e: SrcExpr, m: Machine): (r: Run)
    ensures m.stmts <= r.m.stmts
    ensures r.outcome.Failed? ==> r.outcome.error == StackUnderflow
    decreases e
  {
    match e
    case Operand(_, result, emitted) =>
      Run(Machine(if result.Some? then OnTop(m.stack, result.value) else m.stack, m.stmts + emitted, m.next), Done)
    case Division(_, loc, left, right) =>
      var a := Eval(left, m);
      if a.outcome.Failed? then a
      else
        var b := Eval(right, a.m);
        if b.outcome.Failed? then b
        else DivideStep(b.m, loc, right.Type())
  }

  // ----- A compositional reference -----

  /** Every operand in the expression pushes exactly one result. */
  predicate PushesOne(e: SrcExpr)
  {
    match e
    case Operand(_, result, _) => result.Some?
    case Division(_, _, left, right) => PushesOne(left) && PushesOne(right)
  }

  function Divisions(e: SrcExpr): nat
  {
    match e
    case Operand(_, _, _) => 0
    case Division(_, _, left, right) => 1 + Divisions(left) + Divisions(right)
  }

  /** What an expression denotes, and the commands its translation emits. */
  datatype Code = Code(expr: Expr, cmds: seq<Cmd>)

  /**
   * The translation of an expression, written without a stack: the expression it
   * denotes and the commands it emits, when the counter starts at n. A division emits
   * the commands of its left operand, then of its right one, then the temporary's
   * assignment and check; it denotes `L div tmp`.
   */
  function Compile(e: SrcExpr, n: nat): Code
    requires PushesOne(e)
  {
    match e
    case Operand(_, result, emitted) => Code(result.value, emitted)
    case Division(_, loc, left, right) =>
      var cl := Compile(left, n);
      var cr := Compile(right, n + Divisions(left));
      var tmp := Temp(n + Divisions(left) + Divisions(right), right.Type());
      Code(Binary(Div, cl.expr, Ident(tmp)), cl.cmds + cr.cmds + [Assign(loc, tmp, cr.expr), NonZero(loc, tmp)])
  }

  /** The machine after code `c` ran: its expression pushed, its commands appended, d temporaries used. */
  function After(m: Machine, c: Code, d: nat): Machine
  {
    Machine(OnTop(m.stack, c.expr), m.stmts + c.cmds, m.next + d)
  }

  /**
   * When every operand pushes one result, visiting an expression succeeds, pushes
   * exactly the expression it denotes on top of an unchanged stack, appends exactly its
   * commands, and uses one fresh temporary per division.
   */
  lemma {:induction false} EvalCompile(e: SrcExpr, m: Machine)
    requires PushesOne(e)
    ensures Eval(e, m) == Run(After(m, Compile(e, m.next), Divisions(e)), Done)
    decreases e
  {
    match e
    case Operand(_, _, _) =>
    case Division(ty, loc, left, right) =>
      var am := After(m, Compile(left, m.next), Divisions(left));
      EvalCompile(left, m);
      EvalCompile(right, am);
      DivisionAfter(m, Compile(left, m.next), Compile(right, am.next), Divisions(left), Divisions(right),
                    loc, right.Type());
  }

  /** The division step after two operands' code is the code of the division. */
  lemma DivisionAfter(m: Machine, cl: Code, cr: Code, dl: nat, dr: nat, loc: Token, ty: BType)
    ensures var tmp := Temp(m.next + dl + dr, ty);
            DivideStep(After(After(m, cl, dl), cr, dr), loc, ty) ==
              Run(After(m, Code(Binary(Div, cl.expr, Ident(tmp)),
                                cl.cmds + cr.cmds + [Assign(loc, tmp, cr.expr), NonZero(loc, tmp)]),
                        1 + dl + dr), Done)
  {
  }

  // ----- Fresh temporaries -----

  /**
   * Every fresh temporary that the operands' results and emitted commands mention was
   * created before the counter stood at n.
   */
  predicate OperandsBelow(e: SrcExpr, n: nat)
  {
    match e
    case Operand(_, result, emitted) => (result.Some? ==> ExprBelow(result.value, n)) && CmdsBelow(emitted, n)
    case Division(_, _, left, right) => OperandsBelow(left, n) && OperandsBelow(right, n)
  }

  /**
   * When the operands mention only temporaries below b, the expression an expression
   * compiled from counter n >= b denotes mentions only temporaries below n + Divisions(e).
   */
  lemma {:induction false} CompileExprBelow(e: SrcExpr, n: nat, b: nat)
    requires PushesOne(e) && OperandsBelow(e, b) && b <= n
    ensures ExprBelow(Compile(e, n).expr, n + Divisions(e))
    decreases e
  {
    match e
    case Operand(_, _, _) =>
    case Division(_, _, left, right) =>
      var dl, dr := Divisions(left), Divisions(right);
      CompileExprBelow(left, n, b);
      var le := Compile(left, n).expr;
      var t := n + dl + dr;
      assert Compile(e, n).expr == Binary(Div, le, Ident(Temp(t, right.Type())));
      assert FreshOfExpr(Compile(e, n).expr) == FreshOfExpr(le) + {t};
  }

  /** Likewise, its commands mention only temporaries below n + Divisions(e). */
  lemma {:induction false} CompileCmdsBelow(e: SrcExpr, n: nat, b: nat)
    requires PushesOne(e) && OperandsBelow(e, b) && b <= n
    ensures CmdsBelow(Compile(e, n).cmds, n + Divisions(e))
    decreases e
  {
    match e
    case Operand(_, _, _) =>
    case Division(_, loc, left, right) =>
      var dl, dr := Divisions(left), Divisions(right);
      var cl, cr := Compile(left, n), Compile(right, n + dl);
      var t := n + dl + dr;
      var tmp := Temp(t, right.Type());
      CompileCmdsBelow(left, n, b);
      CompileCmdsBelow(right, n + dl, b);
      CompileExprBelow(right, n + dl, b);
      var tail := [Assign(loc, tmp, cr.expr), NonZero(loc, tmp)];
      assert Compile(e, n).cmds == cl.cmds + cr.cmds + tail;
      assert FreshOfCmd(tail[0]) == {t} + FreshOfExpr(cr.expr);
      assert FreshOfExpr(Binary(Neq, Ident(tmp), IntLit(0))) == {t};
      assert FreshOfCmd(tail[1]) == {t};
      assert CmdsBelow(tail, t + 1);
  }

  /**
   * Among the temporaries from b on, the commands of an expression compiled from
   * counter n >= b assign exactly those from n to n + Divisions(e) - 1, each once.
   */
  lemma {:induction false} CompileAssigns(e: SrcExpr, n: nat, b: nat)
    requires PushesOne(e) && OperandsBelow(e, b) && b <= n
    ensures forall k :: b <= k ==>
              AssignsTo(Compile(e, n).cmds, k) == if n <= k < n + Divisions(e) then 1 else 0
    decreases e
  {
    match e
    case Operand(_, _, emitted) =>
      forall k | b <= k ensures AssignsTo(emitted, k) == 0 {
        AssignsToBelow(emitted, b, k);
      }
    case Division(_, loc, left, right) =>
      var dl, dr := Divisions(left), Divisions(right);
      var cl, cr := Compile(left, n), Compile(right, n + dl);
      var t := n + dl + dr;
      var tmp := Temp(t, right.Type());
      var tail := [Assign(loc, tmp, cr.expr), NonZero(loc, tmp)];
      CompileAssigns(left, n, b);
      CompileAssigns(right, n + dl, b);
      assert Compile(e, n).cmds == cl.cmds + cr.cmds + tail;
      forall k | b <= k
        ensures AssignsTo(Compile(e, n).cmds, k) == if n <= k < n + Divisions(e) then 1 else 0
      {
        AssignsToAppend(cl.cmds + cr.cmds, tail, k);
        AssignsToAppend(cl.cmds, cr.cmds, k);
        var one := tail[..1];
        assert one[..0] == [] && one[0] == tail[0];
        assert AssignsTo(one, k) == if k == t then 1 else 0;
        assert AssignsTo(tail, k) == AssignsTo(one, k);
      }
  }

  /**
   * The temporary of a division is fresh: when the operands mention only temporaries
   * created before counter n, the division divides by temporary number
   * n + Divisions(left) + Divisions(right), and that temporary occurs neither in L nor in
   * R nor in any command the operands' code holds.
   */
  lemma DivisionTempFresh(e: SrcExpr, n: nat)
    requires e.Division? && PushesOne(e) && OperandsBelow(e, n)
    ensures var cl, cr := Compile(e.left, n), Compile(e.right, n + Divisions(e.left));
            var k := n + Divisions(e.left) + Divisions(e.right);
            Compile(e, n).expr == Binary(Div, cl.expr, Ident(Temp(k, e.right.Type()))) &&
            k !in FreshOfExpr(cl.expr) && k !in FreshOfExpr(cr.expr) &&
            !CmdsMention(cl.cmds, k) && !CmdsMention(cr.cmds, k)
  {
    var dl := Divisions(e.left);
    var cl, cr := Compile(e.left, n), Compile(e.right, n + dl);
    var k := n + dl + Divisions(e.right);
    assert Compile(e, n).expr == Binary(Div, cl.expr, Ident(Temp(k, e.right.Type())));
    CompileExprBelow(e.left, n, n);
    CompileExprBelow(e.right, n + dl, n);
    CompileCmdsBelow(e.left, n, n);
    CompileCmdsBelow(e.right, n + dl, n);
    assert ExprBelow(cl.expr, k) && ExprBelow(cr.expr, k);
    assert CmdsBelow(cl.cmds, k) && CmdsBelow(cr.cmds, k);
  }

  /**
   * The temporaries of all divisions in one expression are pairwise distinct: the
   * commands a visit appends assign each temporary it created exactly once, and no
   * later one.
   */
  lemma TempsAssignedOnce(e: SrcExpr, m: Machine)
    requires PushesOne(e) && OperandsBelow(e, m.next)
    ensures var r := Eval(e, m);
            r.outcome.Done? && r.m.next == m.next + Divisions(e) &&
            forall k :: m.next <= k ==>
              AssignsTo(r.m.stmts[|m.stmts|..], k) == if k < r.m.next then 1 else 0
  {
    EvalCompile(e, m);
    CompileAssigns(e, m.next, m.next);
    var c := Compile(e, m.next);
    assert (m.stmts + c.cmds)[|m.stmts|..] == c.cmds;
  }

  // ----- Properties of one division -----

  /**
   * After both operands, the division needs two results on the stack and fails
   * otherwise. It pops the right result first, then the left one; everything below
   * them stays; it appends exactly `tmp := R` and then `assert tmp != 0`, both with the
   * division's location, where tmp is a fresh local typed as the right operand; and it
   * pushes `L div tmp`.
   */
  lemma DivisionSpec(ty: BType, loc: Token, left: SrcExpr, right: SrcExpr, m: Machine)
    ensures var a := Eval(left, m);
            var b := Eval(right, a.m);
            var r := Eval(Division(ty, loc, left, right), m);
            a.outcome.Done? && b.outcome.Done? ==>
              var s := b.m.stack;
              (r.outcome.Done? <==> s.OnTop? && s.below.OnTop?) &&
              (r.outcome.Failed? ==> r.outcome.error == StackUnderflow) &&
              (s.OnTop? && s.below.OnTop? ==>
                 var tmp := Temp(b.m.next, right.Type());
                 r.m.stack == OnTop(s.below.below, Binary(Div, s.below.top, Ident(tmp))) &&
                 r.m.stmts == b.m.stmts + [Assign(loc, tmp, s.top), Assert(loc, Binary(Neq, Ident(tmp), IntLit(0)))] &&
                 r.m.next == b.m.next + 1)
  {
  }

  /**
   * The divisor's translation R is read only by the assignment to the temporary: with
   * any other R the check and the pushed expression are the same.
   */
  lemma DivisorReadOnce(m: Machine, loc: Token, ty: BType, other: Expr)
    requires m.stack.OnTop? && m.stack.below.OnTop?
    ensures var r1, r2 := DivideStep(m, loc, ty), DivideStep(m.(stack := OnTop(m.stack.below, other)), loc, ty);
            r1.m.stack == r2.m.stack && r1.m.next == r2.m.next &&
            r1.m.stmts[|m.stmts| + 1] == r2.m.stmts[|m.stmts| + 1] &&
            r1.m.stmts[..|m.stmts|] == r2.m.stmts[..|m.stmts|] &&
            r2.m.stmts[|m.stmts|] == Assign(loc, Temp(m.next, ty), other)
  {
  }

  /** A visit that succeeds advances the counter by one per division and never lowers it. */
  lemma {:induction false} EvalCounter(e: SrcExpr, m: Machine)
    ensures Eval(e, m).m.next >= m.next
    ensures Eval(e, m).outcome.Done? ==> Eval(e, m).m.next == m.next + Divisions(e)
    decreases e
  {
    match e
    case Operand(_, _, _) =>
    case Division(ty, loc, left, right) =>
      EvalCounter(left, m);
      EvalCounter(right, Eval(left, m).m);
  }

  /** A division that succeeds leaves on top `L div tmp` for the last temporary it created. */
  lemma DivisionTop(e: SrcExpr, m: Machine)
    requires e.Division? && Eval(e, m).outcome.Done?
    ensures var r := Eval(e, m);
            r.m.stack.OnTop? && r.m.next >= 1 &&
            r.m.stack.top.Binary? && r.m.stack.top.op == Div &&
            r.m.stack.top.right == Ident(Temp(r.m.next - 1, e.right.Type()))
  {
  }

  /**
   * Two divisions translated one after the other, such as the same source division
   * translated twice, divide by distinct temporaries.
   */
  lemma SuccessiveDivisionsDistinct(e1: SrcExpr, e2: SrcExpr, m: Machine)
    requires e1.Division? && e2.Division?
    requires Eval(e1, m).outcome.Done? && Eval(e2, Eval(e1, m).m).outcome.Done?
    ensures var r1 := Eval(e1, m);
            var r2 := Eval(e2, r1.m);
            r1.m.stack.OnTop? && r2.m.stack.OnTop? && r1.m.stack.top.right != r2.m.stack.top.right
  {
    var r1 := Eval(e1, m);
    DivisionTop(e1, m);
    DivisionTop(e2, r1.m);
    EvalCounter(e2, r1.m);
  }

  // ----- The traversers as objects -----

  class StmtTraverser {
    var stmtBuilder: seq<Cmd>
    const sink: Sink

    constructor (sink: Sink)
      ensures this.sink == sink && stmtBuilder == []
    {
      this.sink := sink;
      stmtBuilder := [];
    }

    method Add(c: Cmd)
      modifies this
      ensures stmtBuilder == old(stmtBuilder) + [c]
    {
      stmtBuilder := stmtBuilder + [c];
    }
  }

  class CLRExpressionSemantics {
    var translatedExpressions: ExprStack
    const stmtTraverser: StmtTraverser

    constructor (stmtTraverser: StmtTraverser)
      ensures this.stmtTraverser == stmtTraverser && translatedExpressions == EmptyStack
    {
      this.stmtTraverser := stmtTraverser;
      translatedExpressions := EmptyStack;
    }

    function MachineState(): Machine
      reads this, stmtTraverser, stmtTraverser.sink
    {
      Machine(translatedExpressions, stmtTraverser.stmtBuilder, stmtTraverser.sink.freshCount)
    }

    /** TranslatedExpressions.Pop(): None on an empty stack (where the source throws). */
    method Pop() returns (e: Option<Expr>)
      modifies this
      ensures old(translatedExpressions).EmptyStack? ==> e.None? && translatedExpressions == EmptyStack
      ensures old(translatedExpressions).OnTop? ==>
                e == Some(old(translatedExpressions).top) &&
                translatedExpressions == old(translatedExpressions).below
    {
      match translatedExpressions
      case EmptyStack =>
        e := None;
      case OnTop(below, top) =>
        e := Some(top);
        translatedExpressions := below;
    }

    method Push(e: Expr)
      modifies this
      ensures translatedExpressions == OnTop(old(translatedExpressions), e)
    {
      translatedExpressions := OnTop(translatedExpressions, e);
    }

    /** The translation of an expression other than a division, which this model leaves abstract. */
    method VisitOperand(result: Option<Expr>, emitted: seq<Cmd>)
      modifies this, stmtTraverser
      ensures translatedExpressions ==
                if result.Some? then OnTop(old(translatedExpressions), result.value) else old(translatedExpressions)
      ensures stmtTraverser.stmtBuilder == old(stmtTraverser.stmtBuilder) + emitted
    {
      stmtTraverser.stmtBuilder := stmtTraverser.stmtBuilder + emitted;
      if result.Some? {
        Push(result.value);
      }
    }

    method Visit(e: SrcExpr) returns (outcome: Outcome)
      modifies this, stmtTraverser, stmtTraverser.sink
      ensures Run(MachineState(), outcome) == Eval(e, old(MachineState()))
      ensures stmtTraverser.sink.State() ==
                old(stmtTraverser.sink.State()).(freshCount := stmtTraverser.sink.freshCount)
      decreases e
    {
      match e
      case Operand(_, result, emitted) =>
        VisitOperand(result, emitted);
        outcome := Done;
      case Division(_, loc, left, right) =>
        outcome := Visit(left);
        if outcome.Failed? {
          return;
        }
        outcome := Visit(right);
        if outcome.Failed? {
          return;
        }
        var rexp := Pop();
        if rexp.None? {
          return Failed(StackUnderflow);
        }
        var lexp := Pop();
        if lexp.None? {
          return Failed(StackUnderflow);
        }
        var tok := loc;
        var tmp := stmtTraverser.sink.CreateFreshLocal(right.Type());
        var locExpr := Ident(tmp);
        stmtTraverser.Add(Assign(tok, tmp, rexp.value));
        stmtTraverser.Add(Assert(tok, Binary(Neq, locExpr, IntLit(0))));
        Push(Binary(Div, lexp.value, locExpr));
    }
  }
}
