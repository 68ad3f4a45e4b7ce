/** The scope stack of a `FunctionContext` (src/front/glsl/ast.rs): creation,
    lookup with shadowing, pushing and popping scopes, and binding locals and
    arguments in the innermost scope. */
module Scopes {
  import opened Wrappers
  import opened Ir
  import opened Ast

  /** `FunctionContext::new`: one empty scope and empty caches. */
  function NewContext(f: Function): (ctx: FunctionContext)
    ensures ctx.func == f
    ensures |ctx.scopes| == 1 && ctx.scopes[0] == map[]
    ensures ctx.lookupGlobalVarExps == map[] && ctx.lookupConstantExps == map[]
  {
    FunctionContext(f, [map[]], map[], map[])
  }

  /** Scope `i` binds `name` and no scope inside it does. */
  ghost predicate InnermostBinding(scopes: seq<Scope>, name: string, i: int) {
    && 0 <= i < |scopes|
    && name in scopes[i]
    && forall j :: i < j < |scopes| ==> name !in scopes[j]
  }

  /** `FunctionContext::lookup_local_var`: search the scopes from the
      innermost outwards and return the first binding of `name`. */
  function LookupLocalVar(scopes: seq<Scope>, name: string): (r: Option<VariableReference>)
    ensures r.None? <==> forall i :: 0 <= i < |scopes| ==> name !in scopes[i]
    ensures r.Some? ==> exists i :: InnermostBinding(scopes, name, i) && scopes[i][name] == r.value
    decreases |scopes|
  {
    if |scopes| == 0 then None
    else if name in scopes[|scopes| - 1] then
      assert InnermostBinding(scopes, name, |scopes| - 1);
      Some(scopes[|scopes| - 1][name])
    else
      var outer := scopes[..|scopes| - 1];
      assert forall i :: InnermostBinding(outer, name, i) ==> InnermostBinding(scopes, name, i);
      LookupLocalVar(outer, name)
  }

  /** At most one scope is the innermost binding a name. */
  lemma InnermostUnique(scopes: seq<Scope>, name: string, i: int, k: int)
    requires InnermostBinding(scopes, name, i) && InnermostBinding(scopes, name, k)
    ensures i == k
  {
  }

  /** The binding found is the unique innermost one: whichever scope is
      innermost among those binding `name` decides the lookup. */
  lemma LookupIsInnermost(scopes: seq<Scope>, name: string, i: int)
    requires InnermostBinding(scopes, name, i)
    ensures LookupLocalVar(scopes, name) == Some(scopes[i][name])
  {
    var r := LookupLocalVar(scopes, name);
    var k :| InnermostBinding(scopes, name, k) && scopes[k][name] == r.value;
    InnermostUnique(scopes, name, i, k);
  }

  /** `FunctionContext::clear_scopes`: exactly one empty scope remains. */
  function ClearScopes(ctx: FunctionContext): (r: FunctionContext)
    ensures |r.scopes| == 1 && r.scopes[0] == map[]
    ensures r == ctx.(scopes := r.scopes)
  {
    ctx.(scopes := [map[]])
  }

  /** `FunctionContext::push_scope`: a new empty innermost scope. */
  function PushScope(ctx: FunctionContext): (r: FunctionContext)
    ensures |r.scopes| == |ctx.scopes| + 1
    ensures r.scopes[..|ctx.scopes|] == ctx.scopes && r.scopes[|ctx.scopes|] == map[]
    ensures r == ctx.(scopes := r.scopes)
  {
    ctx.(scopes := ctx.scopes + [map[]])
  }

  /** `FunctionContext::remove_current_scope`: drop the innermost scope;
      popping an empty stack does nothing, as `Vec::pop` does. */
  function RemoveCurrentScope(ctx: FunctionContext): (r: FunctionContext)
    ensures |ctx.scopes| == 0 ==> r == ctx
    ensures |ctx.scopes| > 0 ==> |r.scopes| == |ctx.scopes| - 1 && r.scopes == ctx.scopes[..|r.scopes|]
    ensures r == ctx.(scopes := r.scopes)
  {
    if |ctx.scopes| == 0 then ctx else ctx.(scopes := ctx.scopes[..|ctx.scopes| - 1])
  }

  /** Replace the innermost scope with `scope`. */
  function SetInnermost(scopes: seq<Scope>, scope: Scope): seq<Scope>
    requires |scopes| > 0
  {
    scopes[..|scopes| - 1] + [scope]
  }

  /** `FunctionContext::add_local_var`: emit one load of `expr` and bind
      `name` to the pair in the innermost scope. With no scope, nothing
      happens at all (not even the load). */
  function AddLocalVar(ctx: FunctionContext, name: string, expr: Handle): (r: FunctionContext)
    ensures |ctx.scopes| == 0 ==> r == ctx
    ensures |ctx.scopes| > 0 ==>
      var n := |ctx.scopes| - 1;
      && r.func == ctx.func.(expressions := ctx.func.expressions + [Load(expr)])
      && |r.scopes| == |ctx.scopes|
      && r.scopes[..n] == ctx.scopes[..n]
      && r.scopes[n] == ctx.scopes[n][name := VariableReference(expr, Some(|ctx.func.expressions|))]
      && r == ctx.(func := r.func, scopes := r.scopes)
    ensures WellFormed(ctx.func) && expr < |ctx.func.expressions| ==> WellFormed(r.func)
  {
    if |ctx.scopes| == 0 then ctx
    else
      var (expressions, load) := Append(ctx.func.expressions, Load(expr));
      var current := ctx.scopes[|ctx.scopes| - 1];
      ctx.(func := ctx.func.(expressions := expressions),
           scopes := SetInnermost(ctx.scopes, current[name := VariableReference(expr, Some(load))]))
  }

  /** `FunctionContext::add_function_arg`: the argument always goes at
      position `|arguments|`; only a named argument with a scope to live in
      also gets a `FunctionArgument` expression and a binding without load. */
  function AddFunctionArg(ctx: FunctionContext, name: Option<string>, ty: Handle): (r: FunctionContext)
    ensures r.func.arguments == ctx.func.arguments + [FunctionArgument.FunctionArgument(name, ty)]
    ensures name.None? || |ctx.scopes| == 0 ==>
      r == ctx.(func := ctx.func.(arguments := r.func.arguments))
    ensures name.Some? && |ctx.scopes| > 0 ==>
      var n := |ctx.scopes| - 1;
      var binding := VariableReference(|ctx.func.expressions|, None);
      && r.func.expressions == ctx.func.expressions + [Expression.FunctionArgument(|ctx.func.arguments|)]
      && |r.scopes| == |ctx.scopes|
      && r.scopes[..n] == ctx.scopes[..n]
      && r.scopes[n] == ctx.scopes[n][name.value := binding]
      && r == ctx.(func := r.func, scopes := r.scopes)
      && r.func == ctx.func.(arguments := r.func.arguments, expressions := r.func.expressions)
    ensures WellFormed(ctx.func) ==> WellFormed(r.func)
  {
    var (arguments, index) := Append(ctx.func.arguments, FunctionArgument.FunctionArgument(name, ty));
    var withArg := ctx.(func := ctx.func.(arguments := arguments));
    if name.Some? && |ctx.scopes| > 0 then
      var (expressions, expr) := Append(withArg.func.expressions, Expression.FunctionArgument(index));
      var current := ctx.scopes[|ctx.scopes| - 1];
      withArg.(func := withArg.func.(expressions := expressions),
               scopes := SetInnermost(ctx.scopes, current[name.value := VariableReference(expr, None)]))
    else
      withArg
  }

  /** A fresh empty scope changes no lookup. */
  lemma LookupAfterPush(ctx: FunctionContext, name: string)
    ensures LookupLocalVar(PushScope(ctx).scopes, name) == LookupLocalVar(ctx.scopes, name)
  {
    var s := PushScope(ctx).scopes;
    assert s[..|s| - 1] == ctx.scopes;
  }

  /** Clearing the scopes forgets every local: no name resolves locally
      afterwards, and a scope pushed onto the cleared stack binds nothing
      either. */
  lemma LookupAfterClear(ctx: FunctionContext, name: string)
    ensures LookupLocalVar(ClearScopes(ctx).scopes, name).None?
    ensures LookupLocalVar(PushScope(ClearScopes(ctx)).scopes, name).None?
  {
    LookupAfterPush(ClearScopes(ctx), name);
  }

  /** Pushing a scope and removing it again gives back the same context. */
  lemma PushThenRemove(ctx: FunctionContext)
    ensures RemoveCurrentScope(PushScope(ctx)) == ctx
  {
    assert (ctx.scopes + [map[]])[..|ctx.scopes|] == ctx.scopes;
  }

  /** After binding a local, looking its name up finds the new binding;
      every other name resolves as before. */
  lemma LookupAfterAddLocalVar(ctx: FunctionContext, name: string, expr: Handle, other: string)
    requires |ctx.scopes| > 0
    requires other != name
    ensures LookupLocalVar(AddLocalVar(ctx, name, expr).scopes, name)
         == Some(VariableReference(expr, Some(|ctx.func.expressions|)))
    ensures LookupLocalVar(AddLocalVar(ctx, name, expr).scopes, other) == LookupLocalVar(ctx.scopes, other)
  {
    var s := AddLocalVar(ctx, name, expr).scopes;
    var n := |s| - 1;
    assert s[..n] == ctx.scopes[..n];
  }

  /** Shadowing: a local bound in a pushed scope hides any outer binding of
      the same name, and removing that scope makes the outer binding (or its
      absence) visible again, with the scope stack exactly as before. */
  lemma ShadowThenPop(ctx: FunctionContext, name: string, expr: Handle)
    ensures var inner := AddLocalVar(PushScope(ctx), name, expr);
            && LookupLocalVar(inner.scopes, name) == Some(VariableReference(expr, Some(|ctx.func.expressions|)))
            && RemoveCurrentScope(inner).scopes == ctx.scopes
            && LookupLocalVar(RemoveCurrentScope(inner).scopes, name) == LookupLocalVar(ctx.scopes, name)
  {
    var pushed := PushScope(ctx);
    var inner := AddLocalVar(pushed, name, expr);
    assert pushed.scopes[..|ctx.scopes|] == ctx.scopes;
    assert inner.scopes[..|ctx.scopes|] == ctx.scopes;
  }
}
