/** The foreign calls and configuration the resolver consults, as fixed inputs. */
module Config {
  import opened Wrappers
  import opened Types

  datatype Env = Env(
    /** User::whoIs: the name of the user with an ID. */
    userName: int -> string,
    /** User::idFromName: the ID of the user with a name (null when unknown). */
    userId: string -> Option<int>,
    /** getUserDN of the authentication plugin: the directory DN of a user name. */
    userDn: string -> Dn,
    /** getSearchString of the authentication plugin: the DN used to look up a user's groups. */
    searchString: string -> Dn,
    /** getGroups of the authentication plugin followed by its 'dn' list: the
        directory groups of a member DN (null for a group ID without a DN). */
    ldapGroupsOf: Option<Dn> -> seq<Dn>,
    /** Whether user names are lower-cased before their DN is looked up. */
    lowerCaseUsername: bool,
    /** The policy flag that allows directory groups as members of local groups. */
    allowLdapGroupMembers: ConfigValue
  )
}
