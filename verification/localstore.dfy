/**
 * The local group store the resolver extends. Its internals are not part of
 * this model: reads are the answers it gives, writes are the operations the
 * resolver hands on to it.
 */
module LocalStore {
  import opened Wrappers
  import opened Types

  /** The answers of the local store's read operations. */
  datatype Local = Local(
    /** All local groups. */
    groups: seq<Group>,
    groupByName: string -> Option<Group>,
    groupById: int -> Option<Group>,
    groupExists: int -> bool,
    /** Membership of a child (of the given kind) in a parent, directly or recursively. */
    hasGroupMember: (int, int, MemberKind, bool) -> bool,
    /** The direct groups of a member, as (name, id) pairs. */
    groupsOfMember: (int, MemberKind) -> seq<(string, int)>,
    /** Groups whose name contains a search string, as a name-to-ID array. */
    matchingGroups: string -> seq<(string, int)>,
    /** The direct member IDs of a group (null for a user name without an ID). */
    membersOfGroup: (int, MemberKind) -> seq<Option<int>>
  )

  /** A write operation handed on to the local store. */
  datatype LocalOp =
    | Save(group: Group)
    | AddUser(groupId: int, userId: int)
    | AddGroup(parentId: int, childId: int)
    | RemoveUser(groupId: int, userId: int)
    | RemoveAllMembers(groupId: int)
    | RemoveGroup(parentId: int, childId: int)
    | Delete(groupId: int)
}
