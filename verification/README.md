# GLSL front end: lowering to the arena IR

This project models, in Dafny, the lowering layer of the GLSL front end in
`src/front/glsl`. The layer takes already-parsed expression trees and turns
them into nodes appended to append-only arenas of the shader IR. The model
covers four pieces:

- **Scope stack and name lookup.** A `FunctionContext` keeps a stack of name
  maps. It binds locals and function arguments, and it resolves names with
  shadowing. `Program::lookup_variable` falls back from the local scopes to
  the global-variable cache and then to the constant cache.
- **Expression lowering.** `FunctionContext::resolve` appends `Access`,
  `Constant`, `Binary`, `Unary`, `Select` and `Store` nodes, and threads an
  lvalue flag through the recursion. `Program::equality_expr` reduces a
  vector `==` with `all` and a vector `!=` with `any`.
- **Field and swizzle selection.** `Program::field_selection` looks up
  struct members by name. It also reads vector swizzles over the `xyzw`,
  `rgba` and `stpq` letter sets, the component names of section 5.5 of the
  OpenGL Shading Language specification.
- **Storage size.** `Program::type_size` splits on the kind of type and
  returns a `u8` size or a tagged `NotImplemented` error.

Representation:

- Arenas are `seq`s and handles are `nat` indices. `Ir.Append` returns the
  old length. `Ir.FetchOrAppend` reuses the first equal value already
  present.
- The scope stack is a `seq<map<string, VariableReference>>`, innermost last.
- A fallible step returns `Lowered(program, ctx, result)`. This is the
  updated program and function context together with a `Result`. Appends
  made before a failure are kept, as they are through the source's `&mut`
  borrows. For example, the `AccessIndex` nodes of a swizzle that is too
  long stay in the arena.
- Type resolution (`Program::resolve_type`) is an oracle
  `typeOf: Handle -> Option<TypeInner>` passed to each operation. `None`
  stands for the typifier's failure, which the source reports as a semantic
  error.
- A function is well-formed (`Ir.WellFormed`) when every expression refers
  only to expressions appended before it, and every `Store` names existing
  expressions. The IR builds expressions bottom-up, so an operand's handle
  always exists when its parent is appended. Every lowering step keeps this
  invariant.

Modules follow the source: `Ir` (IR datatypes and arenas), `Ast` (the
records of ast.rs), `Scopes` (the scope-stack methods of
`FunctionContext`), `TypeSize`, `Variables` (variables.rs) and `Lowering`
(the expression helpers of `Program` and `resolve`). `Wrappers` holds
`Option` and `Result`.

The model follows the code in two places where the code differs from the
obvious intent:

- `resolve` lowers the target of an assignment with `lhs = false`
  (src/front/glsl/ast.rs:354). A local variable as target therefore stores
  through its load handle, not through its storage handle. This is stated
  by `Lowering.AssignLocal`.
- `type_size` multiplies an array's stride by the `width` field of the
  scalar size constant, not by its value (src/front/glsl/ast.rs:170-171).
  This is stated by `TypeSize.TypeSizeExamples`.

## Model

| member | source | states |
|---|---|---|
| `Ast.NewProgram` | src/front/glsl/ast.rs:22-33 | A new program has version 0 and the core profile. It keeps the caller's entry-point table. Every lookup table and every module arena is empty. |
| `Ast.FromExpression` | src/front/glsl/ast.rs:373-379 | The rule carries the given handle. It has no pending statements and no sampler. |
| `Scopes.NewContext` | src/front/glsl/ast.rs:210-218 | A new context wraps the given function. It has exactly one scope, which is empty, and both caches are empty. |
| `Scopes.LookupLocalVar` | src/front/glsl/ast.rs:220-227 | The result is `None` exactly when no scope binds the name. Otherwise it is the binding of a scope that binds the name with no scope inside it binding the name. |
| `Scopes.LookupIsInnermost` | src/front/glsl/ast.rs:220-227 | Lookup returns the binding of the innermost scope binding the name, whichever scope that is. |
| `Scopes.ClearScopes` | src/front/glsl/ast.rs:238-241 | Exactly one empty scope remains. Nothing else in the context changes. |
| `Scopes.LookupAfterClear` | src/front/glsl/ast.rs:238-241 | After the scopes are cleared, no name resolves locally, even after another scope is pushed. |
| `Scopes.PushScope` | src/front/glsl/ast.rs:283-285 | The old scopes are kept in order, with one new empty scope innermost. Nothing else changes. |
| `Scopes.RemoveCurrentScope` | src/front/glsl/ast.rs:287-289 | The innermost scope is dropped and the outer scopes are kept. On an empty stack nothing changes. |
| `Scopes.PushThenRemove` | src/front/glsl/ast.rs:283-289 | Pushing a scope and then removing it gives back the same context. |
| `Scopes.LookupAfterPush` | src/front/glsl/ast.rs:220-285 | A freshly pushed empty scope changes no lookup. |
| `Scopes.AddLocalVar` | src/front/glsl/ast.rs:244-259 | With a scope present, exactly one `Load` of `expr` is appended. The name is bound to `{expr, load}` in the innermost scope only, and outer scopes are unchanged. With no scope, the context is unchanged and no load is appended. A well-formed function stays well-formed when the operand handles exist. |
| `Scopes.LookupAfterAddLocalVar` | src/front/glsl/ast.rs:244-259 | After a local is bound, its name resolves to the new binding and every other name resolves as before. |
| `Scopes.ShadowThenPop` | src/front/glsl/ast.rs:220-289 | A local bound in a pushed scope shadows any outer binding. Removing that scope restores the old scope stack, and the name then resolves as it did before the push. |
| `Scopes.AddFunctionArg` | src/front/glsl/ast.rs:262-280 | The argument is always appended at position equal to the old argument count. Only a named argument with a scope present also appends `FunctionArgument(index)` and binds the name with no load. Otherwise only the argument list changes. A well-formed function stays well-formed when the operand handles exist. |
| `TypeSize.TypeSize` | src/front/glsl/ast.rs:148-191 | The size is computed exactly for scalars, vectors, matrices and arrays with a scalar size constant. For those it is the unbounded size reduced modulo 256 (u8 wrap-around), and exactly that size when it is below 256. Every other type fails with `NotImplemented` and the tag of its kind. |
| `TypeSize.TypeSizeErrorsDistinct` | src/front/glsl/ast.rs:157-189 | Two failures with the same error concern the same unsupported kind. Each kind has its own tag. |
| `TypeSize.TypeSizeExamples` | src/front/glsl/ast.rs:148-191 | A 3-vector of width 4 has size 12 and a 4x4 matrix of width 4 has size 64. An array of stride 16 whose size constant has width 4 and value 10 has size 64, using the width and not the count. A struct and a sampler fail with their own tags. |
| `Ir.FetchOrAppend` | src/front/glsl/variables.rs:98-118 | The handle returned holds the value. If an equal value is present, the arena is unchanged and the first such position is returned. Otherwise the value is appended at the old length. (The arena type itself is not part of this model; this is the behaviour the swizzle relies on.) |
| `Ir.FetchOrAppendIdempotent` | src/front/glsl/variables.rs:98-118 | Fetching the same type twice gives the same handle and no further growth, so composed vector types are deduplicated. |
| `Variables.LookupVariable` | src/front/glsl/variables.rs:8-34 | The lookup never fails when it returns. It finds nothing exactly when no scope, no global cache entry and no constant cache entry binds the name. Otherwise it returns the innermost local binding or a cache entry. It is callable for every name except the three builtins `gl_Position`, `gl_VertexIndex` and `gl_InstanceIndex` when nothing binds them, which is where the source reaches `todo!()`. |
| `Variables.LookupVariablePrecedence` | src/front/glsl/variables.rs:13-21 | For every name, builtins included, the innermost local binding wins over both caches. With no local binding, the global-variable cache wins over the constant cache. |
| `Variables.NewContextFindsNothing` | src/front/glsl/variables.rs:13-33 | In a new function context every non-builtin name resolves to `Ok(None)`. |
| `Variables.LocalHidesGlobalUntilPopped` | src/front/glsl/variables.rs:13-21 | For every name, a local declared in a pushed scope hides a global of the same name. Once that scope is removed, the global is found again. |
| `Variables.MemberIndex` | src/front/glsl/variables.rs:45-48 | Returns the position of the first member whose name equals the field. The result is `None` exactly when no member has that name. Unnamed members never match. |
| `Variables.ComponentIndex` | src/front/glsl/variables.rs:62-64 | A character maps to an index exactly when it is among the first `size` letters of the set. The index is below `size` and names that letter. |
| `Variables.CheckSwizzleComponents` | src/front/glsl/variables.rs:59-74 | A letter set accepts a name exactly when every character is among its first `size` letters. The indices then follow the name's characters in order and repetition is allowed. |
| `Variables.LetterSetsDisjoint` | src/front/glsl/variables.rs:76-78 | The three letter sets share no letter. A non-empty name fits at most one of them, so a name that mixes sets is rejected. |
| `Variables.SwizzleIndices` | src/front/glsl/variables.rs:76-78 | The name is accepted exactly when one of `xyzw`, `rgba` or `stpq` accepts it. There is one in-range index per character, and each index names that character in whichever set accepts the name. |
| `Variables.SwizzleRepeats` | src/front/glsl/variables.rs:59-78 | `.xx` on a 3-vector gives the indices `[0, 0]`. |
| `Variables.SwizzleReorders` | src/front/glsl/variables.rs:59-78 | `.bgr` on a 4-vector gives the indices `[2, 1, 0]`. |
| `Variables.SwizzleRejectsMixedSets` | src/front/glsl/variables.rs:59-78 | `.xg` is rejected because it mixes two letter sets. |
| `Variables.SwizzleRejectsOutOfRange` | src/front/glsl/variables.rs:59-78 | `.z` on a 2-vector is rejected because `z` is at or beyond the vector size. |
| `Variables.VectorSizeOf` | src/front/glsl/variables.rs:103-116 | A vector size exists exactly for counts 2 to 4, and its component count equals that count. |
| `Variables.AppendAccesses` | src/front/glsl/variables.rs:81-92 | Exactly one `AccessIndex` of the base is appended per index, in order. The handles returned are the consecutive new positions, and the old arena is a prefix of the new one. When the base exists, an acyclic arena stays acyclic. |
| `Variables.Swizzle` | src/front/glsl/variables.rs:58-127 | A swizzle only appends, to the expression and type arenas. The function body, the arguments, the scopes and the caches are unchanged. A success names a newly appended node. A name that no letter set accepts fails with "invalid swizzle" and changes nothing. |
| `Variables.SwizzleLowering` | src/front/glsl/variables.rs:80-121 | An accepted swizzle appends one `AccessIndex` per character. One character returns that access. Two to four characters append one `Compose` of the accesses in order, typed by the vector of that many components with the same kind and width, and an equal type already in the arena is reused; otherwise the type is appended once, at the old length of the type arena. Other counts fail with "bad swizzle size" after the accesses were appended, without touching the type arena. |
| `Variables.SwizzleRepeatExample` | src/front/glsl/variables.rs:80-120 | `.xx` on a 3-vector of 4-byte floats appends two accesses to component 0 and a `Compose` of them, typed as a 2-vector of 4-byte floats. |
| `Variables.SwizzleOfTwo` | src/front/glsl/variables.rs:80-120 | A two-letter swizzle appends the two accesses it names and one `Compose` of them, typed as a 2-vector of the same scalar kind and width, and returns the `Compose`. |
| `Variables.SwizzleKeepsWellFormed` | src/front/glsl/variables.rs:80-120 | A swizzle of an existing node keeps a well-formed function well-formed. Its accesses and its `Compose` refer only to earlier nodes. |
| `Variables.SelectionKeepsWellFormed` | src/front/glsl/variables.rs:36-132 | A field selection on an existing node keeps a well-formed function well-formed. |
| `Variables.FieldSelection` | src/front/glsl/variables.rs:36-132 | An unresolvable type fails with a semantic error and changes nothing. For a struct, exactly one `AccessIndex` is appended at the first member with that name; if no member has it, the result is `UnknownField(meta, name)`. A vector is read as a swizzle. Any other type fails with a semantic error and changes nothing. In every case only the expression and type arenas may change. The function body, the arguments, the scopes and the caches stay as they were. |
| `Lowering.BinaryExpr` | src/front/glsl/ast.rs:35-47 | Exactly one `Binary` node over the two operand handles is appended. The rule returned points at it. A well-formed function stays well-formed when the operand handles exist. |
| `Lowering.UnaryExpr` | src/front/glsl/ast.rs:49-59 | Exactly one `Unary` node over the operand handle is appended. The rule returned points at it. A well-formed function stays well-formed when the operand handles exist. |
| `Lowering.EqualityExpr` | src/front/glsl/ast.rs:64-104 | It succeeds exactly when both operand types resolve; on failure nothing changes. It appends one `Equal` node, or `NotEqual` when `equals` is false. It appends one `All` or `Any` node over that node exactly when both operands are vectors, and returns the last node appended. A well-formed function stays well-formed when the operand handles exist. |
| `Lowering.Resolve` | src/front/glsl/ast.rs:291-362 | Lowering only appends, to the expression arena, the body and the type arena. Nothing else in the program or context changes. If the tree's variable references name existing nodes, a success names an existing node and a well-formed function stays well-formed. |
| `Lowering.ResolveAccess` | src/front/glsl/ast.rs:298-305 | Lowering an access is append-only and keeps well-formedness. A success returns the last node appended, which is an `Access`. |
| `Lowering.ResolveSelect` | src/front/glsl/ast.rs:306-310 | Lowering a field selection is append-only and keeps well-formedness. A success returns a newly appended `AccessIndex` or `Compose`. |
| `Lowering.ResolveBinary` | src/front/glsl/ast.rs:315-322 | Lowering a binary operation is append-only and keeps well-formedness. A success returns the last node appended, a `Binary` with the same operator. |
| `Lowering.ResolveUnary` | src/front/glsl/ast.rs:323-329 | Lowering a unary operation is append-only and keeps well-formedness. A success returns the last node appended, a `Unary` with the same operator. |
| `Lowering.ResolveConditional` | src/front/glsl/ast.rs:338-352 | Lowering a conditional is append-only and keeps well-formedness. A success returns the last node appended, a `Select`. |
| `Lowering.ResolveAssign` | src/front/glsl/ast.rs:353-360 | Lowering an assignment is append-only and keeps well-formedness. A success has grown the body, and its last statement stores the returned handle. |
| `Lowering.ResolveVariable` | src/front/glsl/ast.rs:330-336 | A variable appends nothing. In lvalue context it yields its storage handle; otherwise it yields its load, or its storage handle when it has no load. |
| `Lowering.LhsIrrelevant` | src/front/glsl/ast.rs:297-361 | The lvalue flag only matters where it reaches a variable with a load along access and selection bases. Binary, unary, conditional, constant and assignment trees lower the same either way, because their children are lowered as values. |
| `Lowering.ResolveConstant` | src/front/glsl/ast.rs:311-314 | A constant appends exactly one `Constant` node over the constant handle, changes nothing else, and yields that node. |
| `Lowering.AccessLowering` | src/front/glsl/ast.rs:298-305 | The base is lowered with the ambient lvalue flag, then the index with `lhs = false` in the state the base left. The first failure is the result. Otherwise one `Access` over the two handles is appended and returned. |
| `Lowering.SelectLowering` | src/front/glsl/ast.rs:306-310 | The base is lowered with the ambient lvalue flag. A failure is the result; otherwise the result is `field_selection` applied to the base's handle in the state the base left. |
| `Lowering.BinaryLowering` | src/front/glsl/ast.rs:315-322 | Left, then right, are lowered with `lhs = false`, whatever the ambient flag. The first failure is the result. Otherwise one `Binary` with the same operator over the two handles is appended and returned. |
| `Lowering.UnaryLowering` | src/front/glsl/ast.rs:323-329 | The operand is lowered with `lhs = false`. A failure is the result; otherwise one `Unary` with the same operator over its handle is appended and returned. |
| `Lowering.ConditionalLowering` | src/front/glsl/ast.rs:338-352 | Condition, accept and reject are lowered in that order with `lhs = false`. The first failure is the result. Otherwise one `Select` over the three handles is appended and returned. |
| `Lowering.IndexLvalue` | src/front/glsl/ast.rs:298-305 | `v[w]` in lvalue context, for two variables with loads, appends exactly `Access(v.expr, w.load)`: the base keeps the flag and the index is read as a value. |
| `Lowering.ResolveBinaryOfVariables` | src/front/glsl/ast.rs:315-336 | A binary operation on two variables appends exactly one node, over the two variables' values (their loads), whatever the ambient lvalue flag. |
| `Lowering.AssignStoresValue` | src/front/glsl/ast.rs:353-360 | The target is lowered with `lhs = false`, then the value, in the state the target left. The first failure is the result and no `Store` is pushed. Otherwise exactly one `Store` from the target's handle to the value's handle ends the body, nothing else changes, and the assignment evaluates to the value's handle. |
| `Lowering.AssignLocal` | src/front/glsl/ast.rs:353-360 | `a = b` for a local `a` adds one statement, `Store(a's load, b's value)`, appends no expression, and evaluates to `b`'s value. |

## Left out

- Type resolution: `Program::resolve_type` wraps the typifier, which is not part of this model. It is an oracle from expression handle to type. The typifier's memoisation and any types it adds to the type arena while resolving are not modelled.
- `Program::solve_constant` delegates to the constant solver, which is not part of this model. It only maps that solver's error to a semantic error.
- Calls (`ExprKind::Call`) are `todo!()` in the source (src/front/glsl/ast.rs:337). The `NoCalls` precondition excludes every tree that contains a call, including one whose call would never be reached because an earlier sibling fails. The builtins `gl_Position`, `gl_VertexIndex` and `gl_InstanceIndex` are `todo!()` only when nothing binds them, and `Variables.LookupVariable` excludes only that case.
- TypeSize.TypeSize: the `u8` products wrap modulo 256, as a release build computes them. A debug build panics on that overflow, and the panic is not modelled.
- The `as u32` casts of struct member and swizzle indices and of function-argument positions are not modelled. These indices are unbounded naturals.
- Error message texts are not modelled. Semantic errors carry a reason tag instead of a formatted message. `TokenMetadata` contents are not modelled either.
- `FastHashMap` hashing is not modelled. Name tables are Dafny maps.
- Storage classes, image dimensions and classes, struct member offsets, argument bindings and constant specialisation are left out of the IR datatypes because the modelled lowering layer never reads them.
- The declaration and qualifier datatypes (`TypeQualifier`, `VarDeclaration`, `StorageQualifier`, `StructLayout`) are unused by the modelled operations.
- `lookup_local_var_current_scope` is feature-gated and not modelled.
- tests/tests/vertex_indices/mod.rs is an end-to-end GPU test (device, buffers, render passes) and is not part of this model.
- Lowering.Resolve: its own contract states only append-only growth, handle validity and well-formedness. The per-case behaviour is stated by lemmas about it: `ResolveVariable`, `ResolveConstant`, `AccessLowering`, `SelectLowering`, `BinaryLowering`, `UnaryLowering`, `ConditionalLowering` and `AssignStoresValue` together cover every case except calls.
