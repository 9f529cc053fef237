/** Permissions and the caller's context (core/const.go, core/context.go, auth/jwt.go). */
module Permissions {
  import opened Records

  const PERM_READ := "read"
  const PERM_WRITE := "write"
  const PERM_SIGN := "sign"
  const PERM_ADMIN := "admin"

  const PERM_ARR := [PERM_READ, PERM_WRITE, PERM_SIGN, PERM_ADMIN]

  predicate IsValid(perm: string) { perm in PERM_ARR }

  function AdaptOldStrategy(perm: string): seq<string>
  {
    if perm == PERM_ADMIN then [PERM_READ, PERM_WRITE, PERM_SIGN, PERM_ADMIN]
    else if perm == PERM_SIGN then [PERM_READ, PERM_WRITE, PERM_SIGN]
    else if perm == PERM_WRITE then [PERM_READ, PERM_WRITE]
    else if perm == PERM_READ then [PERM_READ]
    else []
  }

  // Position in PERM_ARR: the order the strategy unfolds.
  function Rank(perm: string): nat
  {
    if perm == PERM_READ then 1 else if perm == PERM_WRITE then 2 else if perm == PERM_SIGN then 3
    else if perm == PERM_ADMIN then 4 else 0
  }

  // What a request carries: the permission list and the account name, if set.
  datatype Ctx = Ctx(perms: Option<seq<string>>, name: Option<string>)

  function CtxWithPerm(ctx: Ctx, perm: string): Ctx { ctx.(perms := Some(AdaptOldStrategy(perm))) }

  predicate HasPerm(ctx: Ctx, defaultPerms: seq<string>, perm: string)
  {
    perm in (if ctx.perms.Some? then ctx.perms.value else defaultPerms)
  }

  datatype PermError = PermissionNotFound | PermissionDeny | UsernameNotFound | BadToken

  // None: the check passes.
  function PermCheck(ctx: Ctx, need: string): Option<PermError>
  {
    if ctx.perms.None? then Some(PermissionNotFound)
    else if need in ctx.perms.value then None
    else Some(PermissionDeny)
  }

  function NameCheck(ctx: Ctx, user: string): Option<PermError>
  {
    if ctx.name.None? then Some(UsernameNotFound)
    else if ctx.name.value == user then None
    else Some(PermissionDeny)
  }

  // The context's own list holds the permission.
  predicate Granted(ctx: Ctx, perm: string) { ctx.perms.Some? && perm in ctx.perms.value }

  // A check passes for the permissions in the caller's list and no others. A caller without a list
  // passes none of them, and is told apart from one whose list is too short; HasPerm alone falls back
  // on defaults for it.
  lemma PermCheckExact(ctx: Ctx, need: string, defaults: seq<string>)
    ensures PermCheck(ctx, need).None? <==> Granted(ctx, need)
    ensures PermCheck(ctx, need) == Some(PermissionNotFound) <==> ctx.perms.None?
    ensures PermCheck(ctx, need) == Some(PermissionDeny) <==> ctx.perms.Some? && need !in ctx.perms.value
    ensures HasPerm(ctx, defaults, need) <==> Granted(ctx, need) || (ctx.perms.None? && need in defaults)
  {
  }

  // The permissions form a chain: a caller given `held` passes exactly the checks for the valid
  // permissions that do not outrank it, and a larger permission passes at least the same checks.
  lemma PermissionChain(ctx: Ctx, held: string, need: string, defaults: seq<string>)
    ensures PermCheck(CtxWithPerm(ctx, held), need).None? <==>
            IsValid(held) && IsValid(need) && Rank(need) <= Rank(held)
    ensures HasPerm(CtxWithPerm(ctx, held), defaults, need) <==> PermCheck(CtxWithPerm(ctx, held), need).None?
    ensures IsValid(need) <==> Rank(need) > 0
    ensures IsValid(need) ==> PERM_ARR[Rank(need) - 1] == need
    ensures CtxWithPerm(ctx, held).name == ctx.name
  {
    assert forall p :: p in AdaptOldStrategy(held) ==> p in PERM_ARR;
    assert PERM_ARR[0] == PERM_READ && PERM_ARR[1] == PERM_WRITE;
    assert PERM_ARR[2] == PERM_SIGN && PERM_ARR[3] == PERM_ADMIN;
    assert |PERM_READ| == 4 && |PERM_WRITE| == 5 && |PERM_SIGN| == 4 && |PERM_ADMIN| == 5;
    assert PERM_READ[0] == 'r' && PERM_SIGN[0] == 's' && PERM_WRITE[0] == 'w' && PERM_ADMIN[0] == 'a';
    var ps := AdaptOldStrategy(held);
    assert Rank(held) >= 1 ==> ps[0] == PERM_READ;
    assert Rank(held) >= 2 ==> ps[1] == PERM_WRITE;
    assert Rank(held) >= 3 ==> ps[2] == PERM_SIGN;
    assert Rank(held) >= 4 ==> ps[3] == PERM_ADMIN;
  }
}
