/** The front end's own records (src/front/glsl/ast.rs): the per-unit
    `Program`, the per-function `FunctionContext`, variable references, the
    syntax-tree `Expr` consumed by lowering, and the error kinds. */
module Ast {
  import opened Wrappers
  import opened Ir

  datatype Profile = Core

  datatype ShaderStage = Vertex | Fragment | Compute

  /** The build context of one compilation unit: name tables resolved at
      parse time and the module under construction. */
  datatype Program = Program(
    version: nat,
    profile: Profile,
    entryPoints: map<string, ShaderStage>,
    lookupFunction: map<string, Handle>,
    lookupType: map<string, Handle>,
    lookupGlobalVariables: map<string, Handle>,
    lookupConstants: map<string, Handle>,
    irModule: Module)

  /** `Program::new`: version 0, the core profile, the caller's entry-point
      table, and nothing declared yet. */
  function NewProgram(entryPoints: map<string, ShaderStage>): (p: Program)
    ensures p.entryPoints == entryPoints
    ensures p.version == 0 && p.profile == Core
    ensures p.lookupFunction == map[] && p.lookupType == map[]
    ensures p.lookupGlobalVariables == map[] && p.lookupConstants == map[]
    ensures |p.irModule.types| == 0 && |p.irModule.constants| == 0
    ensures |p.irModule.globalVariables| == 0 && |p.irModule.functions| == 0
  {
    Program(0, Core, entryPoints, map[], map[], map[], map[], EmptyModule)
  }

  /** Source location of a syntax node; its contents play no part here. */
  datatype TokenMetadata = TokenMetadata(line: nat, chars: nat)

  /** Why a semantic error was raised (the message text is not modelled). */
  datatype SemanticReason = CantResolveType | BadSwizzleSize | InvalidSwizzle | CantLookupField

  datatype ErrorKind =
    | SemanticError(reason: SemanticReason)
    | UnknownField(meta: TokenMetadata, name: string)
    | NotImplemented(tag: string)

  /** A storage (pointer) expression and, for locals, the load emitted when
      the variable was declared. */
  datatype VariableReference = VariableReference(expr: Handle, load: Option<Handle>)

  type Scope = map<string, VariableReference>

  /** The function being lowered with its scope stack (innermost last) and
      the caches of global-variable and constant expressions. The type
      resolver it owns is modelled as an oracle passed to each operation. */
  datatype FunctionContext = FunctionContext(
    func: Function,
    scopes: seq<Scope>,
    lookupGlobalVarExps: Scope,
    lookupConstantExps: Scope)

  /** The result of lowering one syntax subtree. */
  datatype ExpressionRule = ExpressionRule(
    expression: Handle,
    statements: seq<Statement>,
    sampler: Option<Handle>)

  /** `ExpressionRule::from_expression`: just the handle, nothing else to emit. */
  function FromExpression(expression: Handle): (r: ExpressionRule)
    ensures r.expression == expression
    ensures |r.statements| == 0 && r.sampler.None?
  {
    ExpressionRule(expression, [], None)
  }

  datatype FunctionCallKind = TypeConstructor(ty: Handle) | FunctionName(name: string)

  datatype FunctionCall = FunctionCall(kind: FunctionCallKind, args: seq<Expr>)

  /** A syntax-tree node with its location. */
  datatype Expr = Expr(kind: ExprKind, meta: TokenMetadata)

  datatype ExprKind =
    | Access(base: Expr, index: Expr)
    | Select(base: Expr, field: string)
    | Constant(constant: Handle)
    | Binary(left: Expr, op: BinaryOperator, right: Expr)
    | Unary(unaryOp: UnaryOperator, expr: Expr)
    | Variable(variable: VariableReference)
    | Call(call: FunctionCall)
    | Conditional(condition: Expr, accept: Expr, reject: Expr)
    | Assign(tgt: Expr, value: Expr)

  /** No call anywhere in the tree: lowering a call is `todo!()` in the source. */
  predicate NoCalls(e: Expr) {
    match e.kind
    case Access(base, index) => NoCalls(base) && NoCalls(index)
    case Select(base, _) => NoCalls(base)
    case Constant(_) => true
    case Binary(left, _, right) => NoCalls(left) && NoCalls(right)
    case Unary(_, expr) => NoCalls(expr)
    case Variable(_) => true
    case Call(_) => false
    case Conditional(c, a, r) => NoCalls(c) && NoCalls(a) && NoCalls(r)
    case Assign(tgt, value) => NoCalls(tgt) && NoCalls(value)
  }

  /** Every variable reference in the tree points below `n` in the
      expression arena. */
  predicate RefsBelow(e: Expr, n: nat) {
    match e.kind
    case Access(base, index) => RefsBelow(base, n) && RefsBelow(index, n)
    case Select(base, _) => RefsBelow(base, n)
    case Constant(_) => true
    case Binary(left, _, right) => RefsBelow(left, n) && RefsBelow(right, n)
    case Unary(_, expr) => RefsBelow(expr, n)
    case Variable(v) => v.expr < n && (v.load.Some? ==> v.load.value < n)
    case Call(_) => true
    case Conditional(c, a, r) => RefsBelow(c, n) && RefsBelow(a, n) && RefsBelow(r, n)
    case Assign(tgt, value) => RefsBelow(tgt, n) && RefsBelow(value, n)
  }

  /** A bound that holds for an arena holds for every larger one. */
  lemma {:induction false} RefsBelowMonotone(e: Expr, n: nat, m: nat)
    requires RefsBelow(e, n) && n <= m
    ensures RefsBelow(e, m)
  {
    match e.kind
    case Access(base, index) =>
      RefsBelowMonotone(base, n, m);
      RefsBelowMonotone(index, n, m);
    case Select(base, _) =>
      RefsBelowMonotone(base, n, m);
    case Constant(_) =>
    case Binary(left, _, right) =>
      RefsBelowMonotone(left, n, m);
      RefsBelowMonotone(right, n, m);
    case Unary(_, expr) =>
      RefsBelowMonotone(expr, n, m);
    case Variable(_) =>
    case Call(_) =>
    case Conditional(c, a, r) =>
      RefsBelowMonotone(c, n, m);
      RefsBelowMonotone(a, n, m);
      RefsBelowMonotone(r, n, m);
    case Assign(tgt, value) =>
      RefsBelowMonotone(tgt, n, m);
      RefsBelowMonotone(value, n, m);
  }

  /** The state a fallible lowering step leaves behind together with its
      outcome. Appends made before a failure stay, as they do through the
      source's `&mut` borrows. */
  datatype Lowered<T> = Lowered(program: Program, ctx: FunctionContext, result: Result<T, ErrorKind>)

  /** `s` differs from `(p, c)` only by appends to the type arena, the
      expression arena and the body. */
  predicate Extends<T>(p: Program, c: FunctionContext, s: Lowered<T>) {
    && p.irModule.types <= s.program.irModule.types
    && s.program == p.(irModule := p.irModule.(types := s.program.irModule.types))
    && c.func.expressions <= s.ctx.func.expressions
    && c.func.body <= s.ctx.func.body
    && s.ctx == c.(func := c.func.(
         expressions := s.ctx.func.expressions,
         body := s.ctx.func.body))
  }

  /** The context with its function's expression arena replaced. */
  function WithExpressions(ctx: FunctionContext, expressions: seq<Expression>): FunctionContext {
    ctx.(func := ctx.func.(expressions := expressions))
  }

  /** The program with its module's type arena replaced. */
  function WithTypes(p: Program, types: seq<Type>): Program {
    p.(irModule := p.irModule.(types := types))
  }
}
