/** The slice of the shader intermediate representation (IR) that the GLSL
    front end builds: types, constants, expressions, statements, functions,
    the module that owns their arenas, and the two arena operations the front
    end uses. Every cross-reference is a `Handle`, an index into one arena. */
module Ir {
  import opened Wrappers

  /** An index into an append-only arena. */
  type Handle = nat

  /** Rust's `u8`. */
  type Byte = x: int | 0 <= x < 256

  /** Rust's `u32`. */
  type U32 = x: int | 0 <= x < 0x1_0000_0000

  datatype ScalarKind = Sint | Uint | Float | Bool

  /** Number of components of a vector, or of matrix columns or rows. */
  datatype VectorSize = Bi | Tri | Quad {
    function Count(): (n: nat)
      ensures 2 <= n <= 4
    {
      match this
      case Bi => 2
      case Tri => 3
      case Quad => 4
    }
  }

  /** The extent of an array type. */
  datatype ArraySize = Dynamic | Constant(constant: Handle)

  datatype StructMember = StructMember(name: Option<string>, ty: Handle)

  /** The shape of a type. Storage classes, image dimensions and struct
      layout details play no part in the lowering layer and are not modelled. */
  datatype TypeInner =
    | Scalar(kind: ScalarKind, width: Byte)
    | Vector(size: VectorSize, kind: ScalarKind, width: Byte)
    | Matrix(columns: VectorSize, rows: VectorSize, width: Byte)
    | Pointer(base: Handle)
    | ValuePointer(valueSize: Option<VectorSize>, kind: ScalarKind, width: Byte)
    | Array(base: Handle, arraySize: ArraySize, stride: U32)
    | Struct(block: bool, members: seq<StructMember>)
    | Image(arrayed: bool)
    | Sampler(comparison: bool)

  datatype Type = Type(name: Option<string>, inner: TypeInner)

  datatype ScalarValue = SintValue(i: int) | UintValue(u: nat) | FloatValue(f: real) | BoolValue(b: bool)

  datatype ConstantInner =
    | ScalarConstant(width: Byte, value: ScalarValue)
    | Composite(ty: Handle, components: seq<Handle>)

  datatype Constant = Constant(name: Option<string>, inner: ConstantInner)

  datatype GlobalVariable = GlobalVariable(name: Option<string>, ty: Handle)

  datatype BinaryOperator =
    | Add | Subtract | Multiply | Divide | Modulo
    | Equal | NotEqual | Less | LessEqual | Greater | GreaterEqual
    | And | ExclusiveOr | InclusiveOr | LogicalAnd | LogicalOr
    | ShiftLeft | ShiftRight

  datatype UnaryOperator = Negate | Not

  datatype RelationalFunction = All | Any | IsNan | IsInf | IsFinite | IsNormal

  /** The expression nodes the lowering layer creates. Indices are unbounded naturals:
      the `as u32` casts of the source are not modelled. */
  datatype Expression =
    | Access(base: Handle, index: Handle)
    | AccessIndex(base: Handle, index: nat)
    | Constant(constant: Handle)
    | Compose(ty: Handle, components: seq<Handle>)
    | FunctionArgument(argument: nat)
    | Load(pointer: Handle)
    | Binary(op: BinaryOperator, left: Handle, right: Handle)
    | Unary(unaryOp: UnaryOperator, expr: Handle)
    | Select(condition: Handle, accept: Handle, reject: Handle)
    | Relational(fun: RelationalFunction, argument: Handle)

  /** The only statement the lowering layer emits. */
  datatype Statement = Store(pointer: Handle, value: Handle)

  /** A function argument; its binding is always `None` here. */
  datatype FunctionArgument = FunctionArgument(name: Option<string>, ty: Handle)

  datatype Function = Function(
    name: Option<string>,
    arguments: seq<FunctionArgument>,
    expressions: seq<Expression>,
    body: seq<Statement>)

  datatype Module = Module(
    types: seq<Type>,
    constants: seq<Constant>,
    globalVariables: seq<GlobalVariable>,
    functions: seq<Function>)

  /** `Module::default()`: every arena empty. */
  const EmptyModule := Module([], [], [], [])

  /** The node stored at handle `h` refers only to nodes before it. */
  predicate RefsEarlier(node: Expression, h: Handle) {
    match node
    case Access(base, index) => base < h && index < h
    case AccessIndex(base, _) => base < h
    case Constant(_) => true
    case Compose(_, components) => forall k :: 0 <= k < |components| ==> components[k] < h
    case FunctionArgument(_) => true
    case Load(pointer) => pointer < h
    case Binary(_, left, right) => left < h && right < h
    case Unary(_, expr) => expr < h
    case Select(condition, accept, reject) => condition < h && accept < h && reject < h
    case Relational(_, argument) => argument < h
  }

  /** An expression arena built by appending: every node refers only to
      nodes appended before it, so the graph has no cycle. */
  predicate Acyclic(expressions: seq<Expression>) {
    forall h :: 0 <= h < |expressions| ==> RefsEarlier(expressions[h], h)
  }

  /** A function whose expression graph is acyclic and whose statements
      refer only to nodes of its own arena. */
  predicate WellFormed(f: Function) {
    && Acyclic(f.expressions)
    && forall i :: 0 <= i < |f.body| ==> f.body[i].pointer < |f.expressions| && f.body[i].value < |f.expressions|
  }

  /** Appending a node that only refers to existing nodes keeps an arena
      acyclic. */
  lemma AppendAcyclic(expressions: seq<Expression>, node: Expression)
    ensures Acyclic(expressions) && RefsEarlier(node, |expressions|) ==> Acyclic(expressions + [node])
  {
    var grown := expressions + [node];
    assert forall h :: 0 <= h < |expressions| ==> grown[h] == expressions[h];
  }

  /** Growing a well-formed function's arena to an acyclic extension keeps
      it well-formed: the body's handles still name existing nodes. */
  lemma GrowWellFormed(f: Function, expressions: seq<Expression>)
    requires |f.expressions| <= |expressions|
    ensures WellFormed(f) && Acyclic(expressions) ==> WellFormed(f.(expressions := expressions))
  {
  }

  /** `Arena::append`: the value goes at the end and its handle is the old length. */
  function Append<T>(arena: seq<T>, value: T): (r: (seq<T>, Handle))
    ensures r.0 == arena + [value] && r.1 == |arena|
  {
    (arena + [value], |arena|)
  }

  /** The first position holding `value`, as `Iterator::position`. */
  function Position<T(==)>(arena: seq<T>, value: T): (r: Option<Handle>)
    ensures r.Some? ==> r.value < |arena| && arena[r.value] == value
    ensures r.Some? ==> forall j :: 0 <= j < r.value ==> arena[j] != value
    ensures r.None? <==> value !in arena
  {
    if |arena| == 0 then None
    else if arena[0] == value then Some(0)
    else
      match Position(arena[1..], value)
      case None => None
      case Some(i) => Some(i + 1)
  }

  /** `Arena::fetch_or_append`: reuse the first equal value already in the
      arena, otherwise append it. */
  function FetchOrAppend<T(==)>(arena: seq<T>, value: T): (r: (seq<T>, Handle))
    ensures r.1 < |r.0| && r.0[r.1] == value
    ensures value in arena ==> r.0 == arena && forall j :: 0 <= j < r.1 ==> arena[j] != value
    ensures value !in arena ==> r.0 == arena + [value] && r.1 == |arena|
  {
    match Position(arena, value)
    case Some(i) => (arena, i)
    case None => Append(arena, value)
  }

  /** Fetching the same value twice yields the same handle and leaves the
      arena as the first call left it: types are deduplicated. */
  lemma FetchOrAppendIdempotent<T>(arena: seq<T>, value: T)
    ensures var (a1, h1) := FetchOrAppend(arena, value);
            FetchOrAppend(a1, value) == (a1, h1)
  {
    var (a1, h1) := FetchOrAppend(arena, value);
    assert value in a1;
  }
}
