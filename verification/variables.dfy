/** Name lookup and field/swizzle selection (src/front/glsl/variables.rs). */
module Variables {
  import opened Wrappers
  import opened Ir
  import opened Ast
  import opened Scopes

  /** The builtins whose lookup is `todo!()` in the source when nothing
      binds them. */
  predicate IsUnimplementedBuiltin(name: string) {
    name == "gl_Position" || name == "gl_VertexIndex" || name == "gl_InstanceIndex"
  }

  /** `Program::lookup_variable`: local scopes innermost first, then the
      global-variable cache, then the constant cache; `Ok(None)` when
      nothing binds the name. */
  function LookupVariable(ctx: FunctionContext, name: string): (r: Result<Option<VariableReference>, ErrorKind>)
    requires IsUnimplementedBuiltin(name) ==>
               LookupLocalVar(ctx.scopes, name).Some? || name in ctx.lookupGlobalVarExps || name in ctx.lookupConstantExps
    ensures r.Ok?
    ensures r.value.None? <==>
      && (forall i :: 0 <= i < |ctx.scopes| ==> name !in ctx.scopes[i])
      && name !in ctx.lookupGlobalVarExps
      && name !in ctx.lookupConstantExps
    ensures r.value.Some? ==>
      || (exists i :: InnermostBinding(ctx.scopes, name, i) && ctx.scopes[i][name] == r.value.value)
      || (name in ctx.lookupGlobalVarExps && r.value.value == ctx.lookupGlobalVarExps[name])
      || (name in ctx.lookupConstantExps && r.value.value == ctx.lookupConstantExps[name])
  {
    match LookupLocalVar(ctx.scopes, name)
    case Some(local) => Ok(Some(local))
    case None =>
      if name in ctx.lookupGlobalVarExps then Ok(Some(ctx.lookupGlobalVarExps[name]))
      else if name in ctx.lookupConstantExps then Ok(Some(ctx.lookupConstantExps[name]))
      else Ok(None)
  }

  /** A local binding wins over both caches; without one, a global wins over
      a constant. */
  lemma LookupVariablePrecedence(ctx: FunctionContext, name: string, i: int)
    ensures InnermostBinding(ctx.scopes, name, i) ==>
              LookupVariable(ctx, name) == Ok(Some(ctx.scopes[i][name]))
    ensures (forall j :: 0 <= j < |ctx.scopes| ==> name !in ctx.scopes[j]) && name in ctx.lookupGlobalVarExps ==>
              LookupVariable(ctx, name) == Ok(Some(ctx.lookupGlobalVarExps[name]))
  {
    if InnermostBinding(ctx.scopes, name, i) {
      LookupIsInnermost(ctx.scopes, name, i);
    }
  }

  /** A fresh context resolves no name. */
  lemma NewContextFindsNothing(f: Function, name: string)
    requires !IsUnimplementedBuiltin(name)
    ensures LookupVariable(NewContext(f), name) == Ok(None)
  {
  }

  /** A local declared in a pushed scope hides a global of the same name
      until the scope is removed; then the global is found again. */
  lemma LocalHidesGlobalUntilPopped(ctx: FunctionContext, name: string, expr: Handle)
    requires forall j :: 0 <= j < |ctx.scopes| ==> name !in ctx.scopes[j]
    requires name in ctx.lookupGlobalVarExps
    ensures var inner := AddLocalVar(PushScope(ctx), name, expr);
            && LookupVariable(inner, name) == Ok(Some(VariableReference(expr, Some(|ctx.func.expressions|))))
            && LookupVariable(RemoveCurrentScope(inner), name) == Ok(Some(ctx.lookupGlobalVarExps[name]))
  {
    ShadowThenPop(ctx, name, expr);
  }

  const XYZW: string := "xyzw"
  const RGBA: string := "rgba"
  const STPQ: string := "stpq"

  /** Every character of `name` is among the first `size` letters of `letters`. */
  ghost predicate SwizzleIn(name: string, letters: string, size: nat)
    requires size <= |letters|
  {
    forall k :: 0 <= k < |name| ==> name[k] in letters[..size]
  }

  /** The component index of `c` in `letters` (`str::find`), kept only when
      it is below `size`. */
  function ComponentIndex(letters: string, size: nat, c: char): (r: Option<nat>)
    requires size <= |letters|
    ensures r.Some? <==> c in letters[..size]
    ensures r.Some? ==> r.value < size && letters[r.value] == c
  {
    match Position(letters, c)
    case Some(i) =>
      if i < size then Some(i)
      else
        assert c !in letters[..size] by {
          forall j | 0 <= j < size ensures letters[..size][j] != c {
            assert letters[j] != c;
          }
        }
        None
    case None => None
  }

  /** The closure `check_swizzle_components`: the component index of every
      character of `name`, in order, or `None` if any is missing. */
  function CheckSwizzleComponents(name: string, letters: string, size: nat): (r: Option<seq<nat>>)
    requires size <= |letters|
    ensures r.Some? <==> SwizzleIn(name, letters, size)
    ensures r.Some? ==> |r.value| == |name|
    ensures r.Some? ==> forall k :: 0 <= k < |name| ==> r.value[k] < size && letters[r.value[k]] == name[k]
    decreases |name|
  {
    if |name| == 0 then Some([])
    else
      var first := ComponentIndex(letters, size, name[0]);
      var rest := CheckSwizzleComponents(name[1..], letters, size);
      assert SwizzleIn(name, letters, size) <==> first.Some? && SwizzleIn(name[1..], letters, size) by {
        if first.Some? && SwizzleIn(name[1..], letters, size) {
          forall k | 0 <= k < |name| ensures name[k] in letters[..size] {
            if k > 0 { assert name[k] == name[1..][k - 1]; }
          }
        }
        if SwizzleIn(name, letters, size) {
          forall k | 0 <= k < |name| - 1 ensures name[1..][k] in letters[..size] {
            assert name[1..][k] == name[k + 1];
          }
        }
      }
      if first.Some? && rest.Some? then Some([first.value] + rest.value) else None
  }

  /** The letter a prefix of a letter set can contain. */
  lemma InLetterPrefix(letters: string, size: nat, c: char)
    requires size <= |letters| == 4
    requires c in letters[..size]
    ensures c == letters[0] || c == letters[1] || c == letters[2] || c == letters[3]
  {
    var j :| 0 <= j < size && letters[..size][j] == c;
  }

  /** The three letter sets share no letter, so a non-empty name fits at
      most one of them and the order in which they are tried only matters
      for the empty name. */
  lemma LetterSetsDisjoint(name: string, size: nat)
    requires size <= 4
    ensures |name| > 0 && SwizzleIn(name, XYZW, size) ==> !SwizzleIn(name, RGBA, size) && !SwizzleIn(name, STPQ, size)
    ensures |name| > 0 && SwizzleIn(name, RGBA, size) ==> !SwizzleIn(name, STPQ, size)
  {
    if |name| > 0 {
      var c := name[0];
      if c in XYZW[..size] { InLetterPrefix(XYZW, size, c); }
      if c in RGBA[..size] { InLetterPrefix(RGBA, size, c); }
      if c in STPQ[..size] { InLetterPrefix(STPQ, size, c); }
    }
  }

  /** The three letter sets, tried in order `xyzw`, `rgba`, `stpq`. */
  function SwizzleIndices(name: string, size: nat): (r: Option<seq<nat>>)
    requires size <= 4
    ensures r.Some? <==> SwizzleIn(name, XYZW, size) || SwizzleIn(name, RGBA, size) || SwizzleIn(name, STPQ, size)
    ensures r.Some? ==> |r.value| == |name| && forall k :: 0 <= k < |name| ==> r.value[k] < size
    ensures SwizzleIn(name, XYZW, size) ==> r.Some? && forall k :: 0 <= k < |name| ==> XYZW[r.value[k]] == name[k]
    ensures SwizzleIn(name, RGBA, size) ==> r.Some? && forall k :: 0 <= k < |name| ==> RGBA[r.value[k]] == name[k]
    ensures SwizzleIn(name, STPQ, size) ==> r.Some? && forall k :: 0 <= k < |name| ==> STPQ[r.value[k]] == name[k]
  {
    LetterSetsDisjoint(name, size);
    match CheckSwizzleComponents(name, XYZW, size)
    case Some(v) => Some(v)
    case None =>
      match CheckSwizzleComponents(name, RGBA, size)
      case Some(v) => Some(v)
      case None => CheckSwizzleComponents(name, STPQ, size)
  }

  /** `.xx` of a 3-vector selects component 0 twice. */
  lemma SwizzleRepeats()
    ensures SwizzleIndices("xx", 3) == Some([0, 0])
  {
    var name := "xx";
    assert name[0] == 'x' && name[1] == 'x';
    assert XYZW[0] == 'x' && XYZW[1] == 'y' && XYZW[2] == 'z';
    assert XYZW[..3][0] == 'x';
    assert SwizzleIn(name, XYZW, 3);
    var v := SwizzleIndices(name, 3).value;
    assert XYZW[v[0]] == 'x' && XYZW[v[1]] == 'x';
    assert v[0] == 0 && v[1] == 0;
    assert v == [0, 0];
  }

  /** `.bgr` of a 4-vector reverses the first three components. */
  lemma SwizzleReorders()
    ensures SwizzleIndices("bgr", 4) == Some([2, 1, 0])
  {
    var name := "bgr";
    assert name[0] == 'b' && name[1] == 'g' && name[2] == 'r';
    assert RGBA[0] == 'r' && RGBA[1] == 'g' && RGBA[2] == 'b' && RGBA[3] == 'a';
    assert RGBA[..4][2] == 'b' && RGBA[..4][1] == 'g' && RGBA[..4][0] == 'r';
    assert SwizzleIn(name, RGBA, 4);
    var v := SwizzleIndices(name, 4).value;
    assert RGBA[v[0]] == 'b' && RGBA[v[1]] == 'g' && RGBA[v[2]] == 'r';
    assert v[0] == 2 && v[1] == 1 && v[2] == 0;
    assert v == [2, 1, 0];
  }

  /** A name mixing `xyzw` and `rgba` letters is rejected. */
  lemma SwizzleRejectsMixedSets()
    ensures SwizzleIndices("xg", 4) == None
  {
    var name := "xg";
    assert name[0] == 'x' && name[1] == 'g';
    assert XYZW[0] == 'x' && XYZW[1] == 'y' && XYZW[2] == 'z' && XYZW[3] == 'w';
    assert RGBA[0] == 'r' && RGBA[1] == 'g' && RGBA[2] == 'b' && RGBA[3] == 'a';
    assert STPQ[0] == 's' && STPQ[1] == 't' && STPQ[2] == 'p' && STPQ[3] == 'q';
    InLetterPrefixNot(XYZW, 4, 'g');
    InLetterPrefixNot(RGBA, 4, 'x');
    InLetterPrefixNot(STPQ, 4, 'x');
  }

  /** `.z` of a 2-vector is out of range. */
  lemma SwizzleRejectsOutOfRange()
    ensures SwizzleIndices("z", 2) == None
  {
    var name := "z";
    assert name[0] == 'z';
    assert XYZW[0] == 'x' && XYZW[1] == 'y';
    assert RGBA[0] == 'r' && RGBA[1] == 'g';
    assert STPQ[0] == 's' && STPQ[1] == 't';
    InLetterPrefixNot(XYZW, 2, 'z');
    InLetterPrefixNot(RGBA, 2, 'z');
    InLetterPrefixNot(STPQ, 2, 'z');
  }

  /** Contrapositive form of `InLetterPrefix`, for letters outside a prefix. */
  lemma InLetterPrefixNot(letters: string, size: nat, c: char)
    requires size <= |letters| == 4
    requires forall j :: 0 <= j < size ==> letters[j] != c
    ensures c !in letters[..size]
  {
    assert forall j :: 0 <= j < size ==> letters[..size][j] == letters[j];
  }

  /** The first struct member named `name` (`Iterator::position`); unnamed
      members never match. */
  function MemberIndex(members: seq<StructMember>, name: string): (r: Option<nat>)
    ensures r.None? <==> forall j :: 0 <= j < |members| ==> members[j].name != Some(name)
    ensures r.Some? ==> r.value < |members| && members[r.value].name == Some(name)
    ensures r.Some? ==> forall j :: 0 <= j < r.value ==> members[j].name != Some(name)
  {
    if |members| == 0 then None
    else if members[0].name == Some(name) then Some(0)
    else
      match MemberIndex(members[1..], name)
      case None => None
      case Some(i) => Some(i + 1)
  }

  /** The match on the component count that picks the vector size of a
      composed swizzle. */
  function VectorSizeOf(n: nat): (r: Option<VectorSize>)
    ensures r.Some? <==> 2 <= n <= 4
    ensures r.Some? ==> r.value.Count() == n
  {
    if n == 2 then Some(Bi)
    else if n == 3 then Some(Tri)
    else if n == 4 then Some(Quad)
    else None
  }

  /** One `AccessIndex` of `base` per component index, in order; returns
      the grown arena and the new handles. */
  function AppendAccesses(expressions: seq<Expression>, base: Handle, indices: seq<nat>): (r: (seq<Expression>, seq<Handle>))
    ensures |r.0| == |expressions| + |indices| && r.0[..|expressions|] == expressions
    ensures |r.1| == |indices|
    ensures forall k :: 0 <= k < |indices| ==>
              r.0[|expressions| + k] == AccessIndex(base, indices[k]) && r.1[k] == |expressions| + k
    ensures base < |expressions| && Acyclic(expressions) ==> Acyclic(r.0)
    decreases |indices|
  {
    if |indices| == 0 then (expressions, [])
    else
      AppendAcyclic(expressions, AccessIndex(base, indices[0]));
      var (grown, h) := Append(expressions, AccessIndex(base, indices[0]));
      var (rest, hs) := AppendAccesses(grown, base, indices[1..]);
      assert rest[..|expressions|] == grown[..|expressions|];
      (rest, [h] + hs)
  }

  /** The vector case of `Program::field_selection`: `name` read as a
      swizzle of `expression`, a vector of `size` components of `kind` and
      `width`. */
  function Swizzle(program: Program, ctx: FunctionContext, expression: Handle, name: string,
                   size: VectorSize, kind: ScalarKind, width: Byte): (s: Lowered<Handle>)
    ensures Extends(program, ctx, s)
    ensures s.ctx == WithExpressions(ctx, s.ctx.func.expressions)
    ensures s.result.Ok? ==> |ctx.func.expressions| <= s.result.value < |s.ctx.func.expressions|
    ensures SwizzleIndices(name, size.Count()).None? ==>
              s == Lowered(program, ctx, Err(SemanticError(InvalidSwizzle)))
  {
    match SwizzleIndices(name, size.Count())
    case None => Lowered(program, ctx, Err(SemanticError(InvalidSwizzle)))
    case Some(v) =>
      var (expressions, components) := AppendAccesses(ctx.func.expressions, expression, v);
      if |components| == 1 then
        Lowered(program, WithExpressions(ctx, expressions), Ok(components[0]))
      else
        match VectorSizeOf(|components|)
        case None => Lowered(program, WithExpressions(ctx, expressions), Err(SemanticError(BadSwizzleSize)))
        case Some(vectorSize) =>
          var (types, ty) := FetchOrAppend(program.irModule.types, Type(None, Vector(vectorSize, kind, width)));
          var (composed, h) := Append(expressions, Compose(ty, components));
          assert composed[..|ctx.func.expressions|] == expressions[..|ctx.func.expressions|];
          Lowered(WithTypes(program, types), WithExpressions(ctx, composed), Ok(h))
  }

  /** What a swizzle appends and returns: one `AccessIndex` per character
      of the name, in order; a single character returns its access; two to
      four characters add one `Compose` of the accesses typed by a vector of
      that many components, fetched from the type arena so that an equal type
      is reused and a new one is appended once; any other count fails with
      "bad swizzle size" after the accesses were appended. */
  lemma SwizzleLowering(program: Program, ctx: FunctionContext, expression: Handle, name: string,
                        size: VectorSize, kind: ScalarKind, width: Byte)
    requires SwizzleIndices(name, size.Count()).Some?
    ensures var s := Swizzle(program, ctx, expression, name, size, kind, width);
            var v := SwizzleIndices(name, size.Count());
            var n := |ctx.func.expressions|;
            var es := s.ctx.func.expressions;
            && |es| >= n + |name|
            && (forall k :: 0 <= k < |name| ==> es[n + k] == AccessIndex(expression, v.value[k]))
            && (|name| == 1 ==> s.program == program && |es| == n + 1 && s.result == Ok(n))
            && (|name| == 0 || |name| > 4 ==>
                  s.program == program && |es| == n + |name| && s.result == Err(SemanticError(BadSwizzleSize)))
            && (2 <= |name| <= 4 ==>
                  var types := s.program.irModule.types;
                  && |es| == n + |name| + 1
                  && s.result == Ok(n + |name|)
                  && es[n + |name|].Compose?
                  && var composed := es[n + |name|];
                     && |composed.components| == |name|
                     && (forall k :: 0 <= k < |name| ==> composed.components[k] == n + k)
                     && composed.ty < |types|
                     && types[composed.ty] == Type(None, Vector(VectorSizeOf(|name|).value, kind, width))
                     && (types[composed.ty] in program.irModule.types ==> types == program.irModule.types)
                     && (types[composed.ty] !in program.irModule.types ==>
                           && types == program.irModule.types + [types[composed.ty]]
                           && composed.ty == |program.irModule.types|))
  {
  }

  /** `Program::field_selection`: `name` selected from the expression
      `expression`, whose type the oracle `typeOf` resolves. */
  function FieldSelection(program: Program, ctx: FunctionContext, typeOf: Handle -> Option<TypeInner>,
                          expression: Handle, name: string, meta: TokenMetadata): (s: Lowered<Handle>)
    ensures Extends(program, ctx, s)
    ensures s.ctx == WithExpressions(ctx, s.ctx.func.expressions)
    ensures s.result.Ok? ==> |ctx.func.expressions| <= s.result.value < |s.ctx.func.expressions|
    // the type cannot be resolved, or has no fields
    ensures typeOf(expression).None? ==>
              s == Lowered(program, ctx, Err(SemanticError(CantResolveType)))
    ensures typeOf(expression).Some? && !typeOf(expression).value.Struct? && !typeOf(expression).value.Vector? ==>
              s == Lowered(program, ctx, Err(SemanticError(CantLookupField)))
    // struct member
    ensures typeOf(expression).Some? && typeOf(expression).value.Struct? ==>
              var members := typeOf(expression).value.members;
              var n := |ctx.func.expressions|;
              if forall j :: 0 <= j < |members| ==> members[j].name != Some(name) then
                s == Lowered(program, ctx, Err(UnknownField(meta, name)))
              else
                && s.program == program
                && |s.ctx.func.expressions| == n + 1
                && s.result == Ok(n)
                && s.ctx.func.expressions[n].AccessIndex?
                && s.ctx.func.expressions[n].base == expression
                && var i := s.ctx.func.expressions[n].index;
                   && i < |members| && members[i].name == Some(name)
                   && forall j :: 0 <= j < i ==> members[j].name != Some(name)
    // vector swizzle
    ensures typeOf(expression).Some? && typeOf(expression).value.Vector? ==>
              var t := typeOf(expression).value;
              s == Swizzle(program, ctx, expression, name, t.size, t.kind, t.width)
  {
    match typeOf(expression)
    case None => Lowered(program, ctx, Err(SemanticError(CantResolveType)))
    case Some(Struct(_, members)) =>
      (match MemberIndex(members, name)
       case None => Lowered(program, ctx, Err(UnknownField(meta, name)))
       case Some(i) =>
         var (expressions, h) := Append(ctx.func.expressions, AccessIndex(expression, i));
         Lowered(program, WithExpressions(ctx, expressions), Ok(h)))
    case Some(Vector(size, kind, width)) => Swizzle(program, ctx, expression, name, size, kind, width)
    case Some(_) => Lowered(program, ctx, Err(SemanticError(CantLookupField)))
  }

  /** A swizzle of an existing node keeps a well-formed function
      well-formed: every access and the `Compose` refer to earlier nodes. */
  lemma SwizzleKeepsWellFormed(program: Program, ctx: FunctionContext, expression: Handle, name: string,
                               size: VectorSize, kind: ScalarKind, width: Byte)
    ensures expression < |ctx.func.expressions| && WellFormed(ctx.func) ==>
              WellFormed(Swizzle(program, ctx, expression, name, size, kind, width).ctx.func)
  {
    match SwizzleIndices(name, size.Count())
    case None =>
    case Some(v) =>
      var (expressions, components) := AppendAccesses(ctx.func.expressions, expression, v);
      GrowWellFormed(ctx.func, expressions);
      if |components| != 1 {
        match VectorSizeOf(|components|)
        case None =>
        case Some(vectorSize) =>
          var (types, ty) := FetchOrAppend(program.irModule.types, Type(None, Vector(vectorSize, kind, width)));
          assert RefsEarlier(Compose(ty, components), |expressions|);
          AppendAcyclic(expressions, Compose(ty, components));
          GrowWellFormed(ctx.func, expressions + [Compose(ty, components)]);
      }
  }

  /** A field selection on an existing node keeps a well-formed function
      well-formed. */
  lemma SelectionKeepsWellFormed(program: Program, ctx: FunctionContext, typeOf: Handle -> Option<TypeInner>,
                                 expression: Handle, name: string, meta: TokenMetadata)
    ensures expression < |ctx.func.expressions| && WellFormed(ctx.func) ==>
              WellFormed(FieldSelection(program, ctx, typeOf, expression, name, meta).ctx.func)
  {
    match typeOf(expression)
    case Some(Struct(_, members)) =>
      match MemberIndex(members, name) {
        case None =>
        case Some(i) =>
          AppendAcyclic(ctx.func.expressions, AccessIndex(expression, i));
          GrowWellFormed(ctx.func, ctx.func.expressions + [AccessIndex(expression, i)]);
      }
    case Some(Vector(size, kind, width)) =>
      SwizzleKeepsWellFormed(program, ctx, expression, name, size, kind, width);
    case _ =>
  }

  /** `.xx` of a 3-vector of 4-byte floats: two accesses to component 0
      and a `Compose` of them typed as a 2-vector of 4-byte floats. */
  lemma SwizzleRepeatExample(program: Program, ctx: FunctionContext, typeOf: Handle -> Option<TypeInner>,
                             base: Handle, meta: TokenMetadata)
    requires typeOf(base) == Some(Vector(Tri, Float, 4))
    ensures var s := FieldSelection(program, ctx, typeOf, base, "xx", meta);
            var n := |ctx.func.expressions|;
            var es := s.ctx.func.expressions;
            && s.result == Ok(n + 2)
            && |es| == n + 3
            && es[n] == AccessIndex(base, 0) && es[n + 1] == AccessIndex(base, 0)
            && es[n + 2].Compose? && es[n + 2].components == [n, n + 1]
            && s.program.irModule.types[es[n + 2].ty] == Type(None, Vector(Bi, Float, 4))
  {
    SwizzleRepeats();
    SwizzleOfTwo(program, ctx, base, "xx", Tri, Float, 4, 0, 0);
  }

  /** A two-component swizzle: two accesses and one `Compose` typed as a
      2-vector of the same scalar. */
  lemma SwizzleOfTwo(program: Program, ctx: FunctionContext, base: Handle, name: string,
                     size: VectorSize, kind: ScalarKind, width: Byte, i0: nat, i1: nat)
    requires SwizzleIndices(name, size.Count()) == Some([i0, i1])
    ensures var s := Swizzle(program, ctx, base, name, size, kind, width);
            var n := |ctx.func.expressions|;
            var es := s.ctx.func.expressions;
            && s.result == Ok(n + 2)
            && |es| == n + 3
            && es[n] == AccessIndex(base, i0) && es[n + 1] == AccessIndex(base, i1)
            && es[n + 2].Compose? && es[n + 2].components == [n, n + 1]
            && s.program.irModule.types[es[n + 2].ty] == Type(None, Vector(Bi, kind, width))
  {
    SwizzleLowering(program, ctx, base, name, size, kind, width);
    var es := Swizzle(program, ctx, base, name, size, kind, width).ctx.func.expressions;
    var n := |ctx.func.expressions|;
    assert |name| == 2;
    var v := SwizzleIndices(name, size.Count()).value;
    assert v[0] == i0 && v[1] == i1;
    assert es[n + 0] == AccessIndex(base, v[0]);
    assert es[n + 1] == AccessIndex(base, v[1]);
    assert es[n + 2].components[0] == n && es[n + 2].components[1] == n + 1;
  }
}
