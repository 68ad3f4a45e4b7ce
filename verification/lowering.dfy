/** Expression lowering (src/front/glsl/ast.rs): the binary, unary and
    equality helpers of `Program`, and `FunctionContext::resolve`, which turns
    a syntax tree into nodes appended to the function's expression arena. */
module Lowering {
  import opened Wrappers
  import opened Ir
  import opened Ast
  import opened Variables

  /** `Program::binary_expr`: exactly one `Binary` node over the two
      operands, whose handle is returned. */
  function BinaryExpr(f: Function, op: BinaryOperator, left: ExpressionRule, right: ExpressionRule): (r: (Function, ExpressionRule))
    ensures |r.0.expressions| == |f.expressions| + 1 && r.0.expressions[..|f.expressions|] == f.expressions
    ensures r.0 == f.(expressions := r.0.expressions)
    ensures r.1.expression == |f.expressions|
    ensures r.0.expressions[r.1.expression] == Expression.Binary(op, left.expression, right.expression)
    ensures |r.1.statements| == 0 && r.1.sampler.None?
    ensures WellFormed(f) && left.expression < |f.expressions| && right.expression < |f.expressions| ==> WellFormed(r.0)
  {
    var (expressions, h) := Append(f.expressions, Expression.Binary(op, left.expression, right.expression));
    (f.(expressions := expressions), FromExpression(h))
  }

  /** `Program::unary_expr`: exactly one `Unary` node over the operand,
      whose handle is returned. */
  function UnaryExpr(f: Function, op: UnaryOperator, tgt: ExpressionRule): (r: (Function, ExpressionRule))
    ensures |r.0.expressions| == |f.expressions| + 1 && r.0.expressions[..|f.expressions|] == f.expressions
    ensures r.0 == f.(expressions := r.0.expressions)
    ensures r.1.expression == |f.expressions|
    ensures r.0.expressions[r.1.expression] == Expression.Unary(op, tgt.expression)
    ensures |r.1.statements| == 0 && r.1.sampler.None?
    ensures WellFormed(f) && tgt.expression < |f.expressions| ==> WellFormed(r.0)
  {
    var (expressions, h) := Append(f.expressions, Expression.Unary(op, tgt.expression));
    (f.(expressions := expressions), FromExpression(h))
  }

  /** Append `node` to the context's expression arena and succeed with its handle. */
  function Emit(program: Program, ctx: FunctionContext, node: Expression): (s: Lowered<Handle>)
    ensures Extends(program, ctx, s)
    ensures s.ctx.func.expressions == ctx.func.expressions + [node]
    ensures s.result == Ok(|ctx.func.expressions|)
    ensures WellFormed(ctx.func) && RefsEarlier(node, |ctx.func.expressions|) ==> WellFormed(s.ctx.func)
  {
    AppendAcyclic(ctx.func.expressions, node);
    GrowWellFormed(ctx.func, ctx.func.expressions + [node]);
    var (expressions, h) := Append(ctx.func.expressions, node);
    Lowered(program, WithExpressions(ctx, expressions), Ok(h))
  }

  /** `Program::equality_expr`: one `Equal` (or `NotEqual`) node, followed,
      when both operands are vectors, by one `All` (or `Any`) reduction over
      it; the last node appended is returned. An operand whose type cannot be
      resolved fails before anything is appended. */
  function EqualityExpr(program: Program, ctx: FunctionContext, typeOf: Handle -> Option<TypeInner>,
                        equals: bool, left: ExpressionRule, right: ExpressionRule): (s: Lowered<ExpressionRule>)
    ensures s.program == program
    ensures s.result.Ok? <==> typeOf(left.expression).Some? && typeOf(right.expression).Some?
    ensures s.result.Err? ==> s.ctx == ctx && s.result.error == SemanticError(CantResolveType)
    ensures WellFormed(ctx.func) && left.expression < |ctx.func.expressions| && right.expression < |ctx.func.expressions| ==>
              WellFormed(s.ctx.func)
    ensures s.result.Ok? ==>
      var n := |ctx.func.expressions|;
      var es := s.ctx.func.expressions;
      var vectors := typeOf(left.expression).value.Vector? && typeOf(right.expression).value.Vector?;
      && s.ctx == WithExpressions(ctx, es)
      && |es| == (if vectors then n + 2 else n + 1)
      && es[..n] == ctx.func.expressions
      && es[n] == Expression.Binary(if equals then Equal else NotEqual, left.expression, right.expression)
      && (vectors ==> es[n + 1] == Relational(if equals then All else Any, n))
      && s.result.value.expression == |es| - 1
      && |s.result.value.statements| == 0 && s.result.value.sampler.None?
  {
    match typeOf(left.expression)
    case None => Lowered(program, ctx, Err(SemanticError(CantResolveType)))
    case Some(leftType) =>
      match typeOf(right.expression)
      case None => Lowered(program, ctx, Err(SemanticError(CantResolveType)))
      case Some(rightType) =>
        var (op, fun) := if equals then (Equal, All) else (NotEqual, Any);
        var (compared, expr) := Append(ctx.func.expressions, Expression.Binary(op, left.expression, right.expression));
        if leftType.Vector? && rightType.Vector? then
          var (reduced, h) := Append(compared, Relational(fun, expr));
          Lowered(program, WithExpressions(ctx, reduced), Ok(FromExpression(h)))
        else
          Lowered(program, WithExpressions(ctx, compared), Ok(FromExpression(expr)))
  }

  /** What every lowering step promises: only appends happened; and,
      provided every variable reference of the tree names an existing node,
      a success names an existing node and a well-formed function stays
      well-formed. */
  predicate Sound(program: Program, ctx: FunctionContext, e: Expr, s: Lowered<Handle>) {
    && Extends(program, ctx, s)
    && (s.result.Ok? && RefsBelow(e, |ctx.func.expressions|) ==> s.result.value < |s.ctx.func.expressions|)
    && (RefsBelow(e, |ctx.func.expressions|) && WellFormed(ctx.func) ==> WellFormed(s.ctx.func))
  }

  /** `FunctionContext::resolve`: lower `e` in lvalue context when `lhs`
      holds, otherwise as a value. Each compound case is its own function
      below. */
  function Resolve(program: Program, ctx: FunctionContext, typeOf: Handle -> Option<TypeInner>,
                   e: Expr, lhs: bool): (s: Lowered<Handle>)
    requires NoCalls(e)
    ensures Sound(program, ctx, e, s)
    decreases e, 2
  {
    match e.kind
    case Access(_, _) => ResolveAccess(program, ctx, typeOf, e, lhs)
    case Select(_, _) => ResolveSelect(program, ctx, typeOf, e, lhs)
    case Constant(constant) => Emit(program, ctx, Expression.Constant(constant))
    case Binary(_, _, _) => ResolveBinary(program, ctx, typeOf, e)
    case Unary(_, _) => ResolveUnary(program, ctx, typeOf, e)
    case Variable(v) => Lowered(program, ctx, Ok(if lhs then v.expr else v.load.UnwrapOr(v.expr)))
    case Conditional(_, _, _) => ResolveConditional(program, ctx, typeOf, e)
    case Assign(_, _) => ResolveAssign(program, ctx, typeOf, e)
  }

  /** `base[index]`: the base keeps the ambient context, the index is a value. */
  function ResolveAccess(program: Program, ctx: FunctionContext, typeOf: Handle -> Option<TypeInner>,
                         e: Expr, lhs: bool): (s: Lowered<Handle>)
    requires NoCalls(e) && e.kind.Access?
    ensures Sound(program, ctx, e, s)
    ensures s.result.Ok? ==>
              var es := s.ctx.func.expressions;
              s.result.value == |es| - 1 && es[|es| - 1].Access?
    decreases e, 1
  {
    var b := Resolve(program, ctx, typeOf, e.kind.base, lhs);
    if b.result.Err? then b
    else
      RefsBelowMonotoneFrom(e, e.kind.index, |ctx.func.expressions|, |b.ctx.func.expressions|);
      var i := Resolve(b.program, b.ctx, typeOf, e.kind.index, false);
      if i.result.Err? then i
      else Emit(i.program, i.ctx, Expression.Access(b.result.value, i.result.value))
  }

  /** `base.field`: the base keeps the ambient context, then the field or
      swizzle is selected on its resolved type. */
  function ResolveSelect(program: Program, ctx: FunctionContext, typeOf: Handle -> Option<TypeInner>,
                         e: Expr, lhs: bool): (s: Lowered<Handle>)
    requires NoCalls(e) && e.kind.Select?
    ensures Sound(program, ctx, e, s)
    ensures s.result.Ok? ==>
              var es := s.ctx.func.expressions;
              |ctx.func.expressions| <= s.result.value < |es| && (es[s.result.value].AccessIndex? || es[s.result.value].Compose?)
    decreases e, 1
  {
    var b := Resolve(program, ctx, typeOf, e.kind.base, lhs);
    if b.result.Err? then b
    else
      SelectionKeepsWellFormed(b.program, b.ctx, typeOf, b.result.value, e.kind.field, e.meta);
      FieldSelection(b.program, b.ctx, typeOf, b.result.value, e.kind.field, e.meta)
  }

  /** `left op right`: both operands as values. */
  function ResolveBinary(program: Program, ctx: FunctionContext, typeOf: Handle -> Option<TypeInner>,
                         e: Expr): (s: Lowered<Handle>)
    requires NoCalls(e) && e.kind.Binary?
    ensures Sound(program, ctx, e, s)
    ensures s.result.Ok? ==>
              var es := s.ctx.func.expressions;
              s.result.value == |es| - 1 && es[|es| - 1].Binary? && es[|es| - 1].op == e.kind.op
    decreases e, 1
  {
    var l := Resolve(program, ctx, typeOf, e.kind.left, false);
    if l.result.Err? then l
    else
      RefsBelowMonotoneFrom(e, e.kind.right, |ctx.func.expressions|, |l.ctx.func.expressions|);
      var r := Resolve(l.program, l.ctx, typeOf, e.kind.right, false);
      if r.result.Err? then r
      else Emit(r.program, r.ctx, Expression.Binary(e.kind.op, l.result.value, r.result.value))
  }

  /** `op operand`: the operand as a value. */
  function ResolveUnary(program: Program, ctx: FunctionContext, typeOf: Handle -> Option<TypeInner>,
                        e: Expr): (s: Lowered<Handle>)
    requires NoCalls(e) && e.kind.Unary?
    ensures Sound(program, ctx, e, s)
    ensures s.result.Ok? ==>
              var es := s.ctx.func.expressions;
              s.result.value == |es| - 1 && es[|es| - 1].Unary? && es[|es| - 1].unaryOp == e.kind.unaryOp
    decreases e, 1
  {
    var o := Resolve(program, ctx, typeOf, e.kind.expr, false);
    if o.result.Err? then o
    else Emit(o.program, o.ctx, Expression.Unary(e.kind.unaryOp, o.result.value))
  }

  /** `condition ? accept : reject`: all three as values, then one `Select`. */
  function ResolveConditional(program: Program, ctx: FunctionContext, typeOf: Handle -> Option<TypeInner>,
                              e: Expr): (s: Lowered<Handle>)
    requires NoCalls(e) && e.kind.Conditional?
    ensures Sound(program, ctx, e, s)
    ensures s.result.Ok? ==>
              var es := s.ctx.func.expressions;
              s.result.value == |es| - 1 && es[|es| - 1].Select?
    decreases e, 1
  {
    var c := Resolve(program, ctx, typeOf, e.kind.condition, false);
    if c.result.Err? then c
    else
      RefsBelowMonotoneFrom(e, e.kind.accept, |ctx.func.expressions|, |c.ctx.func.expressions|);
      var a := Resolve(c.program, c.ctx, typeOf, e.kind.accept, false);
      if a.result.Err? then a
      else
        RefsBelowMonotoneFrom(e, e.kind.reject, |ctx.func.expressions|, |a.ctx.func.expressions|);
        var r := Resolve(a.program, a.ctx, typeOf, e.kind.reject, false);
        if r.result.Err? then r
        else Emit(r.program, r.ctx, Expression.Select(c.result.value, a.result.value, r.result.value))
  }

  /** `tgt = value`: both sides are lowered as values (the target too), one
      `Store` goes onto the body, and the value's handle is the result. */
  function ResolveAssign(program: Program, ctx: FunctionContext, typeOf: Handle -> Option<TypeInner>,
                         e: Expr): (s: Lowered<Handle>)
    requires NoCalls(e) && e.kind.Assign?
    ensures Sound(program, ctx, e, s)
    ensures s.result.Ok? ==>
              var body := s.ctx.func.body;
              |body| > |ctx.func.body| && body[|body| - 1].value == s.result.value
    decreases e, 1
  {
    var p := Resolve(program, ctx, typeOf, e.kind.tgt, false);
    if p.result.Err? then p
    else
      RefsBelowMonotoneFrom(e, e.kind.value, |ctx.func.expressions|, |p.ctx.func.expressions|);
      var v := Resolve(p.program, p.ctx, typeOf, e.kind.value, false);
      if v.result.Err? then v
      else
        var body := v.ctx.func.body + [Store(p.result.value, v.result.value)];
        Lowered(v.program, v.ctx.(func := v.ctx.func.(body := body)), v.result)
  }

  /** The arena bound of a tree carries over to an operand lowered after
      another one, in the larger arena that earlier operand left behind. */
  lemma RefsBelowMonotoneFrom(e: Expr, child: Expr, n: nat, m: nat)
    requires || (e.kind.Access? && child == e.kind.index)
             || (e.kind.Binary? && child == e.kind.right)
             || (e.kind.Conditional? && (child == e.kind.accept || child == e.kind.reject))
             || (e.kind.Assign? && child == e.kind.value)
    requires n <= m
    ensures RefsBelow(e, n) ==> RefsBelow(child, m)
  {
    if RefsBelow(e, n) {
      RefsBelowMonotone(child, n, m);
    }
  }

  /** A variable appends nothing: in lvalue context it is its storage
      handle, otherwise its load, or its storage handle when it has no load. */
  lemma ResolveVariable(program: Program, ctx: FunctionContext, typeOf: Handle -> Option<TypeInner>,
                        v: VariableReference, meta: TokenMetadata, lhs: bool)
    ensures var s := Resolve(program, ctx, typeOf, Expr(Variable(v), meta), lhs);
            && s.program == program && s.ctx == ctx
            && (lhs ==> s.result == Ok(v.expr))
            && (!lhs && v.load.Some? ==> s.result == Ok(v.load.value))
            && (!lhs && v.load.None? ==> s.result == Ok(v.expr))
  {
  }

  /** Whether the lvalue flag can reach a variable that has a load: only
      through the bases of accesses and field selections, since every other
      case lowers its children as values. */
  predicate LvalueSensitive(e: Expr) {
    match e.kind
    case Variable(v) => v.load.Some?
    case Access(base, _) => LvalueSensitive(base)
    case Select(base, _) => LvalueSensitive(base)
    case _ => false
  }

  /** The lvalue flag changes nothing unless it reaches a variable with a
      load along access and selection bases. In particular constants,
      binary and unary operations, conditionals and assignments lower the
      same either way. */
  lemma {:induction false} LhsIrrelevant(program: Program, ctx: FunctionContext,
                                         typeOf: Handle -> Option<TypeInner>, e: Expr)
    requires NoCalls(e) && !LvalueSensitive(e)
    ensures Resolve(program, ctx, typeOf, e, true) == Resolve(program, ctx, typeOf, e, false)
    decreases e
  {
    match e.kind
    case Access(base, _) =>
      LhsIrrelevant(program, ctx, typeOf, base);
    case Select(base, _) =>
      LhsIrrelevant(program, ctx, typeOf, base);
    case _ =>
  }

  /** A constant appends exactly one `Constant` node and yields it. */
  lemma ResolveConstant(program: Program, ctx: FunctionContext, typeOf: Handle -> Option<TypeInner>,
                        constant: Handle, meta: TokenMetadata, lhs: bool)
    ensures var s := Resolve(program, ctx, typeOf, Expr(ExprKind.Constant(constant), meta), lhs);
            && s.program == program
            && s.ctx == WithExpressions(ctx, ctx.func.expressions + [Expression.Constant(constant)])
            && s.result == Ok(|ctx.func.expressions|)
  {
  }

  /** `base[index]`: the base is lowered with the ambient lvalue flag, then
      the index as a value in the state the base left; the first failure is
      the result, otherwise one `Access` over the two handles is appended
      and returned. */
  lemma AccessLowering(program: Program, ctx: FunctionContext, typeOf: Handle -> Option<TypeInner>,
                       base: Expr, index: Expr, meta: TokenMetadata, lhs: bool)
    requires NoCalls(base) && NoCalls(index)
    ensures var s := Resolve(program, ctx, typeOf, Expr(ExprKind.Access(base, index), meta), lhs);
            var b := Resolve(program, ctx, typeOf, base, lhs);
            && (b.result.Err? ==> s == b)
            && (b.result.Ok? ==>
                  var i := Resolve(b.program, b.ctx, typeOf, index, false);
                  && (i.result.Err? ==> s == i)
                  && (i.result.Ok? ==>
                        var es := i.ctx.func.expressions;
                        s == Lowered(i.program,
                                     WithExpressions(i.ctx, es + [Expression.Access(b.result.value, i.result.value)]),
                                     Ok(|es|))))
  {
    var e := Expr(ExprKind.Access(base, index), meta);
    assert Resolve(program, ctx, typeOf, e, lhs) == ResolveAccess(program, ctx, typeOf, e, lhs);
  }

  /** `base.field`: the base is lowered with the ambient lvalue flag, and
      on success the field or swizzle is selected from its handle. */
  lemma SelectLowering(program: Program, ctx: FunctionContext, typeOf: Handle -> Option<TypeInner>,
                       base: Expr, field: string, meta: TokenMetadata, lhs: bool)
    requires NoCalls(base)
    ensures var s := Resolve(program, ctx, typeOf, Expr(ExprKind.Select(base, field), meta), lhs);
            var b := Resolve(program, ctx, typeOf, base, lhs);
            && (b.result.Err? ==> s == b)
            && (b.result.Ok? ==> s == FieldSelection(b.program, b.ctx, typeOf, b.result.value, field, meta))
  {
    var e := Expr(ExprKind.Select(base, field), meta);
    assert Resolve(program, ctx, typeOf, e, lhs) == ResolveSelect(program, ctx, typeOf, e, lhs);
  }

  /** `left op right`: both operands are lowered as values, left first,
      whatever the ambient flag; on success one `Binary` over the two
      handles is appended and returned. */
  lemma BinaryLowering(program: Program, ctx: FunctionContext, typeOf: Handle -> Option<TypeInner>,
                       left: Expr, op: BinaryOperator, right: Expr, meta: TokenMetadata, lhs: bool)
    requires NoCalls(left) && NoCalls(right)
    ensures var s := Resolve(program, ctx, typeOf, Expr(ExprKind.Binary(left, op, right), meta), lhs);
            var l := Resolve(program, ctx, typeOf, left, false);
            && (l.result.Err? ==> s == l)
            && (l.result.Ok? ==>
                  var r := Resolve(l.program, l.ctx, typeOf, right, false);
                  && (r.result.Err? ==> s == r)
                  && (r.result.Ok? ==>
                        var es := r.ctx.func.expressions;
                        s == Lowered(r.program,
                                     WithExpressions(r.ctx, es + [Expression.Binary(op, l.result.value, r.result.value)]),
                                     Ok(|es|))))
  {
    var e := Expr(ExprKind.Binary(left, op, right), meta);
    assert Resolve(program, ctx, typeOf, e, lhs) == ResolveBinary(program, ctx, typeOf, e);
  }

  /** `op operand`: the operand is lowered as a value whatever the ambient
      flag; on success one `Unary` over its handle is appended and
      returned. */
  lemma UnaryLowering(program: Program, ctx: FunctionContext, typeOf: Handle -> Option<TypeInner>,
                      op: UnaryOperator, operand: Expr, meta: TokenMetadata, lhs: bool)
    requires NoCalls(operand)
    ensures var s := Resolve(program, ctx, typeOf, Expr(ExprKind.Unary(op, operand), meta), lhs);
            var o := Resolve(program, ctx, typeOf, operand, false);
            && (o.result.Err? ==> s == o)
            && (o.result.Ok? ==>
                  var es := o.ctx.func.expressions;
                  s == Lowered(o.program,
                               WithExpressions(o.ctx, es + [Expression.Unary(op, o.result.value)]),
                               Ok(|es|)))
  {
    var e := Expr(ExprKind.Unary(op, operand), meta);
    assert Resolve(program, ctx, typeOf, e, lhs) == ResolveUnary(program, ctx, typeOf, e);
  }

  /** `condition ? accept : reject`: the three operands are lowered as
      values, in that order, whatever the ambient flag; on success one
      `Select` over the three handles is appended and returned. */
  lemma ConditionalLowering(program: Program, ctx: FunctionContext, typeOf: Handle -> Option<TypeInner>,
                            condition: Expr, accept: Expr, reject: Expr, meta: TokenMetadata, lhs: bool)
    requires NoCalls(condition) && NoCalls(accept) && NoCalls(reject)
    ensures var s := Resolve(program, ctx, typeOf, Expr(Conditional(condition, accept, reject), meta), lhs);
            var c := Resolve(program, ctx, typeOf, condition, false);
            && (c.result.Err? ==> s == c)
            && (c.result.Ok? ==>
                  var a := Resolve(c.program, c.ctx, typeOf, accept, false);
                  && (a.result.Err? ==> s == a)
                  && (a.result.Ok? ==>
                        var r := Resolve(a.program, a.ctx, typeOf, reject, false);
                        && (r.result.Err? ==> s == r)
                        && (r.result.Ok? ==>
                              var es := r.ctx.func.expressions;
                              s == Lowered(r.program,
                                           WithExpressions(r.ctx, es + [Expression.Select(c.result.value, a.result.value, r.result.value)]),
                                           Ok(|es|)))))
  {
    var e := Expr(Conditional(condition, accept, reject), meta);
    assert Resolve(program, ctx, typeOf, e, lhs) == ResolveConditional(program, ctx, typeOf, e);
  }

  /** `v[w]` in lvalue context, for two variables with loads: the base keeps
      the flag and yields `v`'s storage handle, the index is a value and
      yields `w`'s load; exactly one `Access` of the two is appended. */
  lemma IndexLvalue(program: Program, ctx: FunctionContext, typeOf: Handle -> Option<TypeInner>,
                    v: VariableReference, w: VariableReference, meta: TokenMetadata)
    requires v.load.Some? && w.load.Some?
    ensures var e := Expr(ExprKind.Access(Expr(Variable(v), meta), Expr(Variable(w), meta)), meta);
            && NoCalls(e)
            && Resolve(program, ctx, typeOf, e, true)
            == Lowered(program,
                       WithExpressions(ctx, ctx.func.expressions + [Expression.Access(v.expr, w.load.value)]),
                       Ok(|ctx.func.expressions|))
  {
    AccessLowering(program, ctx, typeOf, Expr(Variable(v), meta), Expr(Variable(w), meta), meta, true);
    assert Resolve(program, ctx, typeOf, Expr(Variable(v), meta), true) == Lowered(program, ctx, Ok(v.expr));
    assert Resolve(program, ctx, typeOf, Expr(Variable(w), meta), false) == Lowered(program, ctx, Ok(w.load.value));
  }

  /** A binary operation on two variables compares their values: the one
      node appended reads the loads of both (or the storage handle of one
      that has none). */
  lemma ResolveBinaryOfVariables(program: Program, ctx: FunctionContext, typeOf: Handle -> Option<TypeInner>,
                                 a: VariableReference, op: BinaryOperator, b: VariableReference,
                                 meta: TokenMetadata, lhs: bool)
    ensures var e := Expr(ExprKind.Binary(Expr(Variable(a), meta), op, Expr(Variable(b), meta)), meta);
            && NoCalls(e)
            && Resolve(program, ctx, typeOf, e, lhs)
            == Lowered(program,
                       WithExpressions(ctx, ctx.func.expressions
                         + [Expression.Binary(op, a.load.UnwrapOr(a.expr), b.load.UnwrapOr(b.expr))]),
                       Ok(|ctx.func.expressions|))
  {
    var e := Expr(ExprKind.Binary(Expr(Variable(a), meta), op, Expr(Variable(b), meta)), meta);
    var l := Resolve(program, ctx, typeOf, Expr(Variable(a), meta), false);
    assert l == Lowered(program, ctx, Ok(a.load.UnwrapOr(a.expr)));
    var r := Resolve(program, ctx, typeOf, Expr(Variable(b), meta), false);
    assert r == Lowered(program, ctx, Ok(b.load.UnwrapOr(b.expr)));
    assert Resolve(program, ctx, typeOf, e, lhs) == ResolveBinary(program, ctx, typeOf, e);
  }

  /** `tgt = value`: the target is lowered as a value (not as an lvalue),
      then the value, in the state the target left; the first failure is
      the result and no statement is added. Otherwise exactly one `Store`
      from the target to the value ends the body, nothing else changes, and
      the assignment evaluates to the value's handle. */
  lemma AssignStoresValue(program: Program, ctx: FunctionContext, typeOf: Handle -> Option<TypeInner>,
                          tgt: Expr, value: Expr, meta: TokenMetadata, lhs: bool)
    requires NoCalls(tgt) && NoCalls(value)
    ensures var s := Resolve(program, ctx, typeOf, Expr(Assign(tgt, value), meta), lhs);
            var t := Resolve(program, ctx, typeOf, tgt, false);
            && (t.result.Err? ==> s == t)
            && (t.result.Ok? ==>
                  var v := Resolve(t.program, t.ctx, typeOf, value, false);
                  && (v.result.Err? ==> s == v)
                  && (v.result.Ok? ==>
                        var body := v.ctx.func.body + [Store(t.result.value, v.result.value)];
                        s == Lowered(v.program, v.ctx.(func := v.ctx.func.(body := body)), v.result)))
  {
    var e := Expr(Assign(tgt, value), meta);
    assert Resolve(program, ctx, typeOf, e, lhs) == ResolveAssign(program, ctx, typeOf, e);
  }

  /** `a = b` for a local `a` and a variable `b`: exactly one statement is
      added, a `Store` of `b`'s value, no expression is appended, and the
      assignment's value is `b`'s value. Because the target is lowered as a
      value, the store's pointer is `a`'s load rather than its storage
      handle. */
  lemma AssignLocal(program: Program, ctx: FunctionContext, typeOf: Handle -> Option<TypeInner>,
                    a: VariableReference, b: VariableReference, meta: TokenMetadata, lhs: bool)
    requires a.load.Some?
    ensures var e := Expr(Assign(Expr(Variable(a), meta), Expr(Variable(b), meta)), meta);
            && NoCalls(e)
            && var s := Resolve(program, ctx, typeOf, e, lhs);
            && s.program == program
            && s.ctx.func.expressions == ctx.func.expressions
            && s.ctx.func.body == ctx.func.body + [Store(a.load.value, b.load.UnwrapOr(b.expr))]
            && s.result == Ok(b.load.UnwrapOr(b.expr))
  {
    var e := Expr(Assign(Expr(Variable(a), meta), Expr(Variable(b), meta)), meta);
    var t := Resolve(program, ctx, typeOf, Expr(Variable(a), meta), false);
    assert t == Lowered(program, ctx, Ok(a.load.value));
    var v := Resolve(program, ctx, typeOf, Expr(Variable(b), meta), false);
    assert v == Lowered(program, ctx, Ok(b.load.UnwrapOr(b.expr)));
    assert Resolve(program, ctx, typeOf, e, lhs) == ResolveAssign(program, ctx, typeOf, e);
  }
}
