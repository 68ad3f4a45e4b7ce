/** `Program::type_size` (src/front/glsl/ast.rs): the storage size of a type
    as a `u8`, or a `NotImplemented` error tagged with the kind of type it
    cannot size. */
module TypeSize {
  import opened Wrappers
  import opened Ir
  import opened Ast

  /** Rust's `u8 * u8` as a release build computes it: wrapping modulo 256. */
  function WrappingMul(a: Byte, b: Byte): Byte {
    (a * b) % 256
  }

  /** Indexing the constant arena with the array's size constant must not
      panic: the handle lies inside the arena. */
  predicate SizeConstantInRange(m: Module, inner: TypeInner) {
    inner.Array? && inner.arraySize.Constant? ==> inner.arraySize.constant < |m.constants|
  }

  /** The type kinds whose size `type_size` does not compute. */
  datatype Unsupported =
    | PointerKind | ValuePointerKind | DynamicArray | CompositeSizeArray
    | StructKind | ImageKind | SamplerKind

  /** Which unsupported kind `inner` is, if any. */
  function UnsupportedKind(m: Module, inner: TypeInner): Option<Unsupported>
    requires SizeConstantInRange(m, inner)
  {
    match inner
    case Scalar(_, _) => None
    case Vector(_, _, _) => None
    case Matrix(_, _, _) => None
    case Pointer(_) => Some(PointerKind)
    case ValuePointer(_, _, _) => Some(ValuePointerKind)
    case Array(_, Dynamic, _) => Some(DynamicArray)
    case Array(_, Constant(c), _) =>
      if m.constants[c].inner.Composite? then Some(CompositeSizeArray) else None
    case Struct(_, _) => Some(StructKind)
    case Image(_) => Some(ImageKind)
    case Sampler(_) => Some(SamplerKind)
  }

  /** The error tag the source reports for each unsupported kind. */
  function Tag(k: Unsupported): string {
    match k
    case PointerKind => "type size of pointer"
    case ValuePointerKind => "type size of value pointer"
    case DynamicArray => "type size of dynamic array"
    case CompositeSizeArray => "type size of array with composite item size"
    case StructKind => "type size of struct"
    case ImageKind => "type size of image"
    case SamplerKind => "type size of sampler"
  }

  /** The size as an unbounded product, before any `u8` wrap-around. For an
      array this is the stride truncated to `u8` times the `width` field of
      the scalar size constant: the source multiplies by the constant's width,
      not by its value. */
  function NaturalSize(m: Module, inner: TypeInner): nat
    requires SizeConstantInRange(m, inner)
    requires UnsupportedKind(m, inner).None?
  {
    match inner
    case Scalar(_, width) => width
    case Vector(size, _, width) => size.Count() * width
    case Matrix(columns, rows, width) => columns.Count() * rows.Count() * width
    case Array(_, size, stride) => (stride % 256) * m.constants[size.constant].inner.width
  }

  /** `Program::type_size`. */
  function TypeSize(m: Module, ty: Handle): (r: Result<Byte, ErrorKind>)
    requires ty < |m.types|
    requires SizeConstantInRange(m, m.types[ty].inner)
    ensures r.Ok? <==> UnsupportedKind(m, m.types[ty].inner).None?
    ensures r.Ok? ==> r.value == NaturalSize(m, m.types[ty].inner) % 256
    ensures r.Ok? && NaturalSize(m, m.types[ty].inner) < 256 ==>
              r.value == NaturalSize(m, m.types[ty].inner)
    ensures r.Err? ==> r.error == NotImplemented(Tag(UnsupportedKind(m, m.types[ty].inner).value))
  {
    match m.types[ty].inner
    case Scalar(_, width) => Ok(width)
    case Vector(size, _, width) => Ok(WrappingMul(size.Count(), width))
    case Matrix(columns, rows, width) =>
      assert columns.Count() * rows.Count() <= 16;
      Ok(WrappingMul(WrappingMul(columns.Count(), rows.Count()), width))
    case Pointer(_) => Err(NotImplemented("type size of pointer"))
    case ValuePointer(_, _, _) => Err(NotImplemented("type size of value pointer"))
    case Array(_, size, stride) =>
      (match size
       case Dynamic => Err(NotImplemented("type size of dynamic array"))
       case Constant(c) =>
         (match m.constants[c].inner
          case ScalarConstant(width, _) => Ok(WrappingMul(stride % 256, width))
          case Composite(_, _) => Err(NotImplemented("type size of array with composite item size"))))
    case Struct(_, _) => Err(NotImplemented("type size of struct"))
    case Image(_) => Err(NotImplemented("type size of image"))
    case Sampler(_) => Err(NotImplemented("type size of sampler"))
  }

  /** Every unsupported kind has its own tag. */
  lemma TagInjective(a: Unsupported, b: Unsupported)
    requires Tag(a) == Tag(b)
    ensures a == b
  {
  }

  /** Two failures with the same error concern the same kind of type: the
      tag identifies what could not be sized. */
  lemma TypeSizeErrorsDistinct(m: Module, t1: Handle, t2: Handle)
    requires t1 < |m.types| && t2 < |m.types|
    requires SizeConstantInRange(m, m.types[t1].inner) && SizeConstantInRange(m, m.types[t2].inner)
    requires TypeSize(m, t1).Err? && TypeSize(m, t1) == TypeSize(m, t2)
    ensures UnsupportedKind(m, m.types[t1].inner) == UnsupportedKind(m, m.types[t2].inner)
  {
    TagInjective(UnsupportedKind(m, m.types[t1].inner).value, UnsupportedKind(m, m.types[t2].inner).value);
  }

  /** Worked values: a 3-vector of 4-byte scalars is 12 bytes, a 4x4 matrix
      of 4-byte scalars is 64, an array of stride 16 whose size constant is a
      4-byte scalar holding 10 is 64 (the width, not the count), and structs
      and samplers are rejected with their own tags. */
  lemma TypeSizeExamples()
    ensures TypeSize(Module([Type(None, Vector(Tri, Float, 4))], [], [], []), 0) == Ok(12)
    ensures TypeSize(Module([Type(None, Matrix(Quad, Quad, 4))], [], [], []), 0) == Ok(64)
    ensures TypeSize(Module([Type(None, Array(0, ArraySize.Constant(0), 16))],
                            [Constant.Constant(None, ScalarConstant(4, UintValue(10)))], [], []), 0) == Ok(64)
    ensures TypeSize(Module([Type(None, Struct(false, []))], [], [], []), 0)
            == Err(NotImplemented("type size of struct"))
    ensures TypeSize(Module([Type(None, Sampler(false))], [], [], []), 0)
            == Err(NotImplemented("type size of sampler"))
  {
  }
}
