/**
 * The role gate: lets a request through only when the caller is a stored
 * user whose role is one of the roles it is built with. The server defines
 * this middleware but mounts it on no route.
 */
module Role {
  import opened Wrappers
  import opened Store
  import opened Http

  const ACCESS_DENIED := "Acesso negado. Você não tem permissão para realizar esta ação."
  const ROLE_CHECK_ERROR := "Erro ao validar permissões."

  /** The caller's stored role is one of `roles`. */
  predicate HasAllowedRole(roles: seq<string>, users: map<Id, User>, caller: Id) {
    caller in users && users[caller].role in roles
  }

  /**
   * checkRole(roles): a request without a caller id makes the lookup fail
   * (500); an unknown caller or one whose role is not listed is refused
   * (403); anyone else passes.
   */
  function CheckRole(roles: seq<string>, users: map<Id, User>, caller: Option<Id>): (gate: Gate)
    ensures gate == Next <==> caller.Some? && HasAllowedRole(roles, users, caller.value)
    ensures caller.None? ==> gate == Halt(INTERNAL_ERROR, ROLE_CHECK_ERROR)
    ensures caller.Some? && caller.value !in users ==> gate == Halt(FORBIDDEN, ACCESS_DENIED)
    ensures caller.Some? && !HasAllowedRole(roles, users, caller.value) ==> gate == Halt(FORBIDDEN, ACCESS_DENIED)
  {
    if caller.None? then Halt(INTERNAL_ERROR, ROLE_CHECK_ERROR)
    else if !HasAllowedRole(roles, users, caller.value) then Halt(FORBIDDEN, ACCESS_DENIED)
    else Next
  }

  /** With no allowed roles every caller is refused. */
  lemma NoRolesRefusesEveryone(users: map<Id, User>, caller: Option<Id>)
    ensures CheckRole([], users, caller) != Next
  {
  }

  /** Allowing more roles never shuts out a caller who passed before. */
  lemma MoreRolesAdmitMore(roles: seq<string>, more: seq<string>, users: map<Id, User>, caller: Option<Id>)
    requires CheckRole(roles, users, caller) == Next
    ensures CheckRole(roles + more, users, caller) == Next
  {
  }

  /** The gate depends on the caller's role only: two callers with the same stored role are treated alike. */
  lemma SameRoleSameGate(roles: seq<string>, users: map<Id, User>, a: Id, b: Id)
    requires a in users && b in users && users[a].role == users[b].role
    ensures CheckRole(roles, users, Some(a)) == CheckRole(roles, users, Some(b))
  {
  }
}
