/** Identifiers, the shared group shape and the storage errors. */
module Types {

  /** IDs at or above this offset stand for directory groups; IDs below it for local ones. */
  const LdapMappingBase: int := 1000000

  /** A distinguished name of a directory entry. */
  type Dn = string

  /** Where a group comes from: the local database or the directory (GROUP_TYPE_LDAP). */
  datatype Origin = Local | Ldap

  /** The fields of a group object the resolver fills in. */
  datatype Group = Group(id: int, name: string, origin: Origin)

  /** The member type argument: a user, a group, or any other (invalid) value. */
  datatype MemberKind = UserMember | GroupMember | OtherMember

  /** The storage exceptions the resolver raises. */
  datatype StorageError =
    | CantSaveLdapGroup(name: string)
    | SameGroupInLdap(name: string)
    | CantModifyLdapGroup(id: int)

  /** A PHP configuration value, as far as the resolver distinguishes them. */
  datatype ConfigValue = Unset | BoolValue(b: bool) | IntValue(i: int) | StringValue(s: string)

  /** The `=== true` test the source applies to its policy flag. */
  predicate IsExactlyTrue(v: ConfigValue) {
    v == BoolValue(true)
  }
}
