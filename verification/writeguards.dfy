/**
 * The write guards: directory groups are read-only, a local group may not
 * take the name of a directory group, and directory groups become members of
 * local groups only when the policy flag is exactly `true`.
 */
module WriteGuards {
  import opened Types
  import opened Directory
  import opened LocalStore

  /** A write either raises a storage exception or is handed on to the local store. */
  datatype WriteOutcome = Rejected(error: StorageError) | Delegated(op: LocalOp)

  /** The local store is only ever asked to change local groups. */
  predicate TargetsLocalGroup(op: LocalOp) {
    match op
    case Save(g) => g.id < LdapMappingBase
    case AddUser(g, _) => g < LdapMappingBase
    case AddGroup(p, _) => p < LdapMappingBase
    case RemoveUser(g, _) => g < LdapMappingBase
    case RemoveAllMembers(g) => g < LdapMappingBase
    case RemoveGroup(p, _) => p < LdapMappingBase
    case Delete(g) => g < LdapMappingBase
  }

  /** saveGroup: directory IDs are refused first, then names a directory group already has. */
  function SaveGroup(dir: Dir, g: Group): (r: WriteOutcome)
    ensures g.id >= LdapMappingBase ==> r == Rejected(CantSaveLdapGroup(g.name))
    ensures g.id < LdapMappingBase && HasMatch(dir, g.name, ByName) ==> r == Rejected(SameGroupInLdap(g.name))
    ensures r.Delegated? <==> g.id < LdapMappingBase && !HasMatch(dir, g.name, ByName)
    ensures r.Delegated? ==> r.op == Save(g)
  {
    SearchNonEmptyIffMatch(dir, g.name, ByName);
    if g.id >= LdapMappingBase then Rejected(CantSaveLdapGroup(g.name))
    else if SearchGroups(dir, g.name, ByName) != [] then Rejected(SameGroupInLdap(g.name))
    else Delegated(Save(g))
  }

  /** The guard shared by the writes that name a single group. */
  function GuardGroup(groupId: int, op: LocalOp): WriteOutcome {
    if groupId >= LdapMappingBase then Rejected(CantModifyLdapGroup(groupId)) else Delegated(op)
  }

  /** addUserToGroup */
  function AddUserToGroup(groupId: int, userId: int): (r: WriteOutcome)
    ensures groupId >= LdapMappingBase ==> r == Rejected(CantModifyLdapGroup(groupId))
    ensures groupId < LdapMappingBase ==> r == Delegated(AddUser(groupId, userId))
  {
    GuardGroup(groupId, AddUser(groupId, userId))
  }

  /** removeUserFromGroup */
  function RemoveUserFromGroup(groupId: int, userId: int): (r: WriteOutcome)
    ensures groupId >= LdapMappingBase ==> r == Rejected(CantModifyLdapGroup(groupId))
    ensures groupId < LdapMappingBase ==> r == Delegated(RemoveUser(groupId, userId))
  {
    GuardGroup(groupId, RemoveUser(groupId, userId))
  }

  /** removeAllMembersFromGroup */
  function RemoveAllMembersFromGroup(groupId: int): (r: WriteOutcome)
    ensures groupId >= LdapMappingBase ==> r == Rejected(CantModifyLdapGroup(groupId))
    ensures groupId < LdapMappingBase ==> r == Delegated(RemoveAllMembers(groupId))
  {
    GuardGroup(groupId, RemoveAllMembers(groupId))
  }

  /** deleteGroup */
  function DeleteGroup(groupId: int): (r: WriteOutcome)
    ensures groupId >= LdapMappingBase ==> r == Rejected(CantModifyLdapGroup(groupId))
    ensures groupId < LdapMappingBase ==> r == Delegated(Delete(groupId))
  {
    GuardGroup(groupId, Delete(groupId))
  }

  /** The guard shared by addGroupToGroup and removeGroupFromGroup: the parent
      must be local; a directory child needs the flag to be exactly `true`. */
  function GuardLink(allow: ConfigValue, parentId: int, childId: int, op: LocalOp): WriteOutcome {
    if parentId >= LdapMappingBase then Rejected(CantModifyLdapGroup(parentId))
    else if !IsExactlyTrue(allow) && childId >= LdapMappingBase then Rejected(CantModifyLdapGroup(childId))
    else Delegated(op)
  }

  /** addGroupToGroup */
  function AddGroupToGroup(allow: ConfigValue, parentId: int, childId: int): (r: WriteOutcome)
    ensures parentId >= LdapMappingBase ==> r == Rejected(CantModifyLdapGroup(parentId))
    ensures parentId < LdapMappingBase && childId >= LdapMappingBase && allow != BoolValue(true) ==>
              r == Rejected(CantModifyLdapGroup(childId))
    ensures r.Delegated? <==> parentId < LdapMappingBase && (childId < LdapMappingBase || allow == BoolValue(true))
    ensures r.Delegated? ==> r.op == AddGroup(parentId, childId)
  {
    GuardLink(allow, parentId, childId, AddGroup(parentId, childId))
  }

  /** removeGroupFromGroup */
  function RemoveGroupFromGroup(allow: ConfigValue, parentId: int, childId: int): (r: WriteOutcome)
    ensures parentId >= LdapMappingBase ==> r == Rejected(CantModifyLdapGroup(parentId))
    ensures parentId < LdapMappingBase && childId >= LdapMappingBase && allow != BoolValue(true) ==>
              r == Rejected(CantModifyLdapGroup(childId))
    ensures r.Delegated? <==> parentId < LdapMappingBase && (childId < LdapMappingBase || allow == BoolValue(true))
    ensures r.Delegated? ==> r.op == RemoveGroup(parentId, childId)
  {
    GuardLink(allow, parentId, childId, RemoveGroup(parentId, childId))
  }

  /** Any write request, routed to its guard. */
  function Write(dir: Dir, allow: ConfigValue, req: LocalOp): WriteOutcome {
    match req
    case Save(g) => SaveGroup(dir, g)
    case AddUser(g, u) => AddUserToGroup(g, u)
    case AddGroup(p, c) => AddGroupToGroup(allow, p, c)
    case RemoveUser(g, u) => RemoveUserFromGroup(g, u)
    case RemoveAllMembers(g) => RemoveAllMembersFromGroup(g)
    case RemoveGroup(p, c) => RemoveGroupFromGroup(allow, p, c)
    case Delete(g) => DeleteGroup(g)
  }

  /** Immutability of directory groups: a write either hands exactly the
      requested operation to the local store, and then only for a local target
      group, or it is refused, and then a request aimed at a directory group is
      refused with the directory-group error naming that group. */
  lemma WritesOnlyReachLocalGroups(dir: Dir, allow: ConfigValue, req: LocalOp)
    ensures Write(dir, allow, req).Delegated? ==>
              Write(dir, allow, req).op == req && TargetsLocalGroup(req)
    ensures !TargetsLocalGroup(req) ==>
              Write(dir, allow, req) == Rejected(match req
                                                 case Save(g) => CantSaveLdapGroup(g.name)
                                                 case AddUser(g, _) => CantModifyLdapGroup(g)
                                                 case AddGroup(p, _) => CantModifyLdapGroup(p)
                                                 case RemoveUser(g, _) => CantModifyLdapGroup(g)
                                                 case RemoveAllMembers(g) => CantModifyLdapGroup(g)
                                                 case RemoveGroup(p, _) => CantModifyLdapGroup(p)
                                                 case Delete(g) => CantModifyLdapGroup(g))
  {
  }
}
