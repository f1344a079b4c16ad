# A verified model of the hybrid group store `HACLStorageLDAP`

`HACLStorageLDAP` (storage/HACL_StorageLDAP.php) is the storage back end for
HaloACL groups. It combines two sources of groups. The first is a local SQL store,
which can be written. The second is an LDAP directory, which is read-only. Directory
groups have no numeric IDs of their own. They receive synthetic IDs from an
append-only mapping table: the ID of a DN is its auto-increment row id plus
`LDAP_MAPPING_BASE` (1000000). The class routes each call by ID space. It merges
results by name, and a directory group shadows a local group with the same name. It
refuses every write that targets a directory group. It answers membership questions
by walking the directory's member-of relation upwards from the child's DN with a
work list.

The Dafny modules follow that structure:

| module | file | what it holds |
|---|---|---|
| `Types`, `Wrappers`, `Text` | types.dfy, wrappers.dfy, text.dfy | IDs, the offset, groups, errors, `Option`, ASCII `strtolower`, PHP string truthiness |
| `Config`, `LocalStore` | config.dfy, localstore.dfy | the foreign calls and settings as fixed inputs; the local store as the answers it gives and the write operations handed on to it |
| `Assoc` | assoc.dfy | PHP arrays with string keys: in-place overwrite, append, last assignment wins |
| `IdMapper` | idmapper.dfy | getGroupIDForDN / getGroupDNForID over the mapping table, threaded through every call |
| `Directory` | directory.dfy | directory entries, the four filters of searchLDAPGroups, and searchGroupMembers |
| `WriteGuards` | writeguards.dfy | saveGroup and the six member/delete writes |
| `Lookup` | lookup.dfy | createGroupFromLDAP, groupNameForID, groupExists, getGroupByName, isOverloaded, getGroupByID |
| `Listing` | listing.dfy | getGroups: root detection and the name-shadowing merge |
| `Merges` | merges.dfy | getGroupsOfMember, searchMatchingGroups, getMembersOfGroup |
| `Membership` | membership.dfy | hasGroupMember as a work-list method |

Modelling choices:
- **The directory** is a sequence of entries in server order. Each entry holds a DN, a
  name (the `cn`), member values and an object class. The `online` flag being false
  stands for a failing `ldap_search`: every search then returns nothing.
- **Case rules.** Matching on the directory side (DNs, member values, names) ignores
  ASCII letter case. Comparisons on the PHP side are exact: array keys, `array_search`
  and the `searchedGroups` set.
- **The mapping table** stores lower-cased DNs. A lookup succeeds only when exactly one
  row matches. A row is appended only when the lookup fails and allocation is requested.
  `IdMapper.IdForDn` matches the DN exactly, as an escaped SELECT would. The source's
  unescaped SELECT is modelled separately as `IdMapper.IdForDnAsWritten` (see "## Findings").
- **Threading.** Every operation that may allocate an ID returns the new table beside
  its result.
- **Directory validity.** `Directory.Valid` states what a directory itself guarantees:
  DNs are well formed, and no two entries have DNs equal up to case. Contracts that need
  it say so.

## Model

| member | source | states |
|---|---|---|
| IdMapper.IdForDn | storage/HACL_StorageLDAP.php:861-888 | the DN is lower-cased before lookup; an ID it returns is above the offset and getGroupDNForID maps it back to the lower-cased DN; with allocation there is always an ID; the table only grows; a valid table (lower-case, duplicate-free) stays valid, and its single-row SELECT then finds the returned ID |
| IdMapper.Select | storage/HACL_StorageLDAP.php:864-875 | the SELECT by lower-cased DN yields an ID only when one row matches; that ID is offset + row id and its row holds the DN |
| IdMapper.SelectOneRow | storage/HACL_StorageLDAP.php:864-875 | the SELECT yields an ID exactly when one row, and no other, holds the DN (`numRows == 1`) |
| IdMapper.IdForDnTable | storage/HACL_StorageLDAP.php:861-888 | a stored DN leaves the table unchanged; a missing DN with allocation is appended as the next row and gets offset + new row count; a missing DN without allocation yields no ID and an unchanged table |
| IdMapper.IdForDnAddsOnly | storage/HACL_StorageLDAP.php:861-888 | the only row a lookup may add is the lower-cased form of the DN it was given |
| IdMapper.DnForId | storage/HACL_StorageLDAP.php:917-936 | IDs at or below the offset have no DN; an ID has a DN exactly when offset < ID <= offset + number of rows, and that DN is a stored row |
| IdMapper.IdForDnIgnoresCase | storage/HACL_StorageLDAP.php:861-888 | DNs that differ only in ASCII letter case get the same ID and leave the same table |
| IdMapper.IdForDnIdempotent | storage/HACL_StorageLDAP.php:861-888 | after a DN has been given an ID, asking again, with or without allocation, returns the same ID and does not change the table |
| IdMapper.DnForIdRoundTrip | storage/HACL_StorageLDAP.php:917-936 | in a valid table, the DN stored under an ID maps back to that ID, and the table is unchanged |
| IdMapper.DnForIdStable | storage/HACL_StorageLDAP.php:917-936 | appending rows never changes the DN of an existing ID |
| IdMapper.Column | storage/HACL_StorageLDAP.php:82 | the dn column, a VARCHAR(255), keeps at most 255 characters of a value: a prefix of it, and the whole value when it fits |
| IdMapper.IdForDnAsWritten | storage/HACL_StorageLDAP.php:861-888 | the lookup as written: the table only grows; with allocation there is an ID above the offset that getGroupDNForID resolves; a changed table is the old one plus the lower-cased DN as the column keeps it, under the new row's ID |
| IdMapper.AsWrittenAgrees | storage/HACL_StorageLDAP.php:861-888 | when the SELECT literal reads back as the DN itself and the DN fits the column, the lookup as written gives the same ID and table as IdForDn |
| IdMapper.AsWrittenAddsAgain | storage/HACL_StorageLDAP.php:861-888 | when the literal reads as a string that is neither stored nor what the column keeps, two calls store the DN twice under two different IDs |
| IdMapper.EscapedCommaAddedTwice | storage/HACL_StorageLDAP.php:866-867 | the instance `cn=smith\, john`, with the backslash dropped when the literal is read, gets two IDs from two calls on an empty table |
| Text.EqualIgnoringCaseIffSameLower | storage/HACL_StorageLDAP.php:863 | two strings are equal up to ASCII case exactly when their strtolower forms are equal |
| Directory.SearchGroups | storage/HACL_StorageLDAP.php:765-806 | a hit is exactly the (name, DN) pair of a directory group that satisfies the filter of the mode: member value, name, name substring, or DN; `*` is passed on unescaped and turns the first three into presence tests; a BY_DN search is based at the escaped DN; there are no hits offline |
| Directory.SearchNonEmptyIffMatch | storage/HACL_StorageLDAP.php:765-806 | a search returns something exactly when some directory group satisfies its filter |
| Directory.SearchByDnStored | storage/HACL_StorageLDAP.php:790-793 | in a valid directory, a search based at any spelling of a group's DN returns that group alone, when the escaping leaves that spelling as it is |
| Directory.EntriesAt | storage/HACL_StorageLDAP.php:204 | a query based at a DN finds exactly the entries whose DN matches it, and nothing offline |
| Directory.EntriesAtStored | storage/HACL_StorageLDAP.php:204 | in a valid directory, a query based at an entry's DN finds that entry alone |
| Directory.HoldersAt | storage/HACL_StorageLDAP.php:827-833 | the first member read at a group DN finds the group entries there that have at least one member value |
| Directory.LookupMembers | storage/HACL_StorageLDAP.php:835-843 | each entry found is a directory entry of the requested class that one of the member values names; there are no more entries than values |
| Directory.LookupMembersComplete | storage/HACL_StorageLDAP.php:835-843 | in a valid directory, every entry of the requested class that a member value names is found |
| Directory.MemberEntries | storage/HACL_StorageLDAP.php:815-846 | every member entry returned is a directory entry of the class that the member type asks for (user for users, group otherwise) |
| Directory.MemberEntriesExact | storage/HACL_StorageLDAP.php:815-846 | in a valid directory, the member entries of a group are exactly the entries of the requested class that its member values name |
| WriteGuards.SaveGroup | storage/HACL_StorageLDAP.php:160-176 | an ID at or above the offset is refused with CANT_SAVE_LDAP_GROUP before the name is checked; otherwise a name that a directory group has is refused with SAME_GROUP_IN_LDAP; the save is handed on exactly when neither holds, and unchanged |
| WriteGuards.AddUserToGroup | storage/HACL_StorageLDAP.php:327-333 | a directory group ID is refused with CANT_MODIFY_LDAP_GROUP; a local one hands the same request on |
| WriteGuards.AddGroupToGroup | storage/HACL_StorageLDAP.php:349-365 | a directory parent is refused first; a directory child is refused unless the policy flag is exactly boolean true; otherwise the request is handed on |
| WriteGuards.RemoveUserFromGroup | storage/HACL_StorageLDAP.php:381-387 | a directory group ID is refused with CANT_MODIFY_LDAP_GROUP; a local one hands the same request on |
| WriteGuards.RemoveAllMembersFromGroup | storage/HACL_StorageLDAP.php:400-408 | a directory group ID is refused with CANT_MODIFY_LDAP_GROUP; a local one hands the same request on |
| WriteGuards.RemoveGroupFromGroup | storage/HACL_StorageLDAP.php:424-440 | the same guards as addGroupToGroup, handing on the removal |
| WriteGuards.DeleteGroup | storage/HACL_StorageLDAP.php:640-647 | a directory group ID is refused with CANT_MODIFY_LDAP_GROUP; a local one hands the deletion on |
| WriteGuards.WritesOnlyReachLocalGroups | storage/HACL_StorageLDAP.php:327-440 | any write that reaches the local store is the unchanged request and targets a local group; any request that targets a directory group is refused with the error that names it |
| Lookup.CreateGroupFromLdap | storage/HACL_StorageLDAP.php:899-906 | the group object takes the hit's name, the directory origin, and an ID above the offset that maps back to the hit's lower-cased DN; the only row added is the hit's lower-cased DN |
| Lookup.CreateAll | storage/HACL_StorageLDAP.php:221-228 | one group object per hit, in order, each carrying the hit's name and an ID that maps back to the hit's DN in the final table; the only rows added are the hits' lower-cased DNs |
| Lookup.NamedIds | storage/HACL_StorageLDAP.php:749-753 | one (name, ID) pair per hit, in order; each ID maps back to the hit's DN; the only rows added are the hits' lower-cased DNs |
| Lookup.GroupNameForId | storage/HACL_StorageLDAP.php:126-140 | an unmapped ID has no name; a name returned is the name of a directory group whose DN matches the escaped mapped DN |
| Lookup.GroupNameForIdOfStored | storage/HACL_StorageLDAP.php:126-140 | in a valid directory, an ID mapped to a group's DN yields exactly that group's name, when the escaping leaves the stored DN as it is |
| Lookup.GroupExists | storage/HACL_StorageLDAP.php:659-667 | local IDs are answered by the local store; directory IDs exist exactly when they fall inside the mapped row range |
| Lookup.GroupExistsIffMapped | storage/HACL_StorageLDAP.php:659-667 | a directory ID exists exactly when some stored DN maps to it |
| Lookup.GetGroupByName | storage/HACL_StorageLDAP.php:258-267 | if some directory group has the name, the result is a directory group with that name whose ID maps back to that group's DN; otherwise it is the local store's answer, and the table is unchanged; the only row added is the lower-cased DN of a hit of the name search |
| Lookup.IsOverloaded | storage/HACL_StorageLDAP.php:680-696 | true exactly when the local store has the name and either a directory group has it or the local group's ID is in the directory range; the only row added is the lower-cased DN of a hit of the name search |
| Lookup.OverloadedIffBothDefine | storage/HACL_StorageLDAP.php:680-696 | when local groups have local IDs, a name is overloaded exactly when both a directory group and a local group carry it |
| Lookup.GetGroupById | storage/HACL_StorageLDAP.php:282-312 | IDs up to and including the offset go to the local store; an unmapped ID, or a mapped DN the directory no longer has, gives null with the table unchanged; a group returned comes from the directory, has the name of a group at the escaped mapped DN, and has an ID that maps back to that group's DN; the only row added is the lower-cased DN of a hit of the search at the mapped DN |
| Lookup.GetGroupByIdOfDn | storage/HACL_StorageLDAP.php:282-312 | round trip: the ID allocated for a directory group's DN leads back to that group, under that ID, without further allocation, when the escaping leaves the stored DN as it is |
| Listing.GroupDns | storage/HACL_StorageLDAP.php:190-199 | the candidate DNs are exactly the DNs of the directory's group entries |
| Listing.Dedup | storage/HACL_StorageLDAP.php:195-199 | used as array keys, the DNs are kept once each, and the set of DNs is unchanged |
| Listing.RootGroups | storage/HACL_StorageLDAP.php:195-213 | a DN is a root exactly when it is a group DN that no member value read at a group DN equals verbatim; roots are distinct |
| Listing.MembersAt | storage/HACL_StorageLDAP.php:204-209 | the member values read at a DN, with the count slot dropped, are those of an entry whose DN matches it; none when there is no such entry |
| Listing.MembersAtStored | storage/HACL_StorageLDAP.php:204-209 | in a valid directory, the member values read at an entry's DN are that entry's member values |
| Listing.RootGroupsExact | storage/HACL_StorageLDAP.php:195-213 | in a valid directory, the roots are exactly the group DNs that no group's member values contain |
| Listing.ListedIffListedByGroup | storage/HACL_StorageLDAP.php:203-213 | the member scan over all group DNs removes a DN exactly when some directory group lists it |
| Listing.RefsAtGroupDns | storage/HACL_StorageLDAP.php:221-229 | in a valid directory, the searches based at the root DNs yield one hit per root, in order, each being the group with that DN, when the escaping leaves those DNs as they are |
| Listing.Unshadowed | storage/HACL_StorageLDAP.php:231-239 | a local group is kept exactly when no directory hit has its name; with no hits, all local groups are kept as they are |
| Listing.UnshadowedOrder | storage/HACL_StorageLDAP.php:231-239 | the kept groups are a subsequence of the local list, in its order, each unshadowed group as often as the local store lists it and each shadowed one not at all |
| Listing.GetGroups | storage/HACL_StorageLDAP.php:186-242 | first one directory group per root hit, carrying the hit's name and an ID that maps back to its DN, then exactly the local groups no hit shadows by name; offline, the local groups alone; the only rows added are the lower-cased DNs of the root hits |
| Listing.GetGroupsLocalPart | storage/HACL_StorageLDAP.php:231-241 | after the directory groups comes exactly the unshadowed local list, in the local store's order and with its multiplicities |
| Listing.GetGroupsOnePerRoot | storage/HACL_StorageLDAP.php:186-242 | in a valid directory whose group DNs the escaping leaves as they are, the result starts with one directory group per root, in root order, each named after and mapped to that root's group |
| Merges.Truthies | storage/HACL_StorageLDAP.php:517-518 | the DNs that pass `!empty` are exactly those other than "" and "0", in order |
| Merges.MemberDn | storage/HACL_StorageLDAP.php:508-512 | a user always has a DN to ask for; a non-user member has one exactly when its ID is in the mapped range |
| Merges.MemberDnMapsBack | storage/HACL_StorageLDAP.php:508-512 | in a valid table, the DN asked for a group member maps back to the member's own ID without allocation |
| Merges.NamedGroupIds | storage/HACL_StorageLDAP.php:517-523 | one (name, ID) pair per non-empty DN, in order; the ID maps back to the DN, and the name is what groupNameForID gives for it (the empty key when there is none) |
| Merges.NamedGroupIdsAddsOnly | storage/HACL_StorageLDAP.php:517-523 | the only rows the per-DN loop adds are the lower-cased non-empty DNs it was given |
| Merges.LdapGroupsOfMember | storage/HACL_StorageLDAP.php:506-523 | the directory pairs come from the groups that the authentication plugin reports for the member's DN, with the same per-DN guarantees; the only rows added are the lower-cased non-empty DNs the plugin reported |
| Merges.GetGroupsOfMember | storage/HACL_StorageLDAP.php:496-532 | the merged result has each name once; the only rows added are the lower-cased non-empty DNs the plugin reported for the member |
| Merges.GroupsOfMemberLdapWins | storage/HACL_StorageLDAP.php:496-532 | under a name, the ID is the last one the directory assigned, or else the last local one; a name is present exactly when either side has it |
| Merges.SearchMatchingGroups | storage/HACL_StorageLDAP.php:742-755 | if the local matches have unique names, the merged result does too; the only rows added are the lower-cased DNs of the matching hits |
| Merges.SearchMatchingLdapWins | storage/HACL_StorageLDAP.php:742-755 | a name carried by some matching directory group maps to an ID that stands for the DN of such a group; every other name keeps its local ID or stays absent |
| Merges.HitKeys | storage/HACL_StorageLDAP.php:747-753 | a name is among the directory keys exactly when some matching directory group carries it |
| Merges.HitDn | storage/HACL_StorageLDAP.php:747-753 | the last directory ID under a name stands for the DN of a matching group with that name |
| Merges.MemberIds | storage/HACL_StorageLDAP.php:467-477 | one value per member entry, in order: for group members an ID that maps back to the entry's DN; otherwise the local user ID of the entry's name; the only rows added are the lower-cased DNs of the member entries |
| Merges.GroupIds | storage/HACL_StorageLDAP.php:467-470 | each member group gets an ID (allocated when new) that maps back to its lower-cased DN |
| Merges.GroupIdsAddsOnly | storage/HACL_StorageLDAP.php:467-470 | the only rows added are the lower-cased DNs of the member group entries |
| Merges.GetMembersOfGroup | storage/HACL_StorageLDAP.php:453-482 | local IDs go to the local store; a directory ID without a DN has no members; otherwise one value per member entry of the mapped group, as for MemberIds; the only rows added are the lower-cased DNs of the mapped group's member entries |
| Merges.MembersOfStoredGroup | storage/HACL_StorageLDAP.php:453-482 | in a valid directory, the members reported for a mapped group are those of exactly the entries of the requested class that its member values name |
| Merges.GroupMembersExact | storage/HACL_StorageLDAP.php:453-482 | in a valid directory, the DNs that the reported member-group IDs stand for are exactly the lower-cased DNs of the group entries its member values name |
| Merges.GroupIdsCover | storage/HACL_StorageLDAP.php:467-470 | some reported ID stands for a DN exactly when that DN is the lower-cased DN of one of the member entries |
| Merges.UserMembersExact | storage/HACL_StorageLDAP.php:453-482 | in a valid directory, the reported member-user values are exactly the local user IDs of the names of the user entries its member values name |
| Merges.UserIdsCover | storage/HACL_StorageLDAP.php:471-475 | a value is reported exactly when it is the user ID of some member entry's name |
| Membership.HasGroupMember | storage/HACL_StorageLDAP.php:558-621 | true only if the local store answers yes for a local parent, or some member-of chain from the child's DN ends in a group that is the parent or (recursively) sits in it locally; when every directory DN is well formed, every such chain is found; without recursion only one step counts; a local hit or a missing start DN leaves the table unchanged, and otherwise the only rows added are lower-cased DNs of directory groups reachable from the start DN |
| Membership.StartDn | storage/HACL_StorageLDAP.php:566-586 | a user always has a start DN; a group ID below the offset or an unknown member type has none; a directory group has one exactly when its ID is in the mapped range |
| Membership.StartDnMapsBack | storage/HACL_StorageLDAP.php:578-584 | in a valid table, the start DN of a directory child group maps back to the child's own ID without allocation |
| Membership.Walk | storage/HACL_StorageLDAP.php:588-620 | the work-list loop terminates, and returns true exactly when a qualifying chain from the start DN exists, with completeness holding when every directory DN is well formed; the only rows added are lower-cased DNs of directory groups reachable from the start DN |
| Membership.Expand | storage/HACL_StorageLDAP.php:592-614 | one search step: either the first hit that qualifies is found, every earlier hit having been checked and found not to qualify, at the end of an extended chain; or every parent of the DN is checked, the unsearched ones are queued, and the termination measure decreases. The only rows added are lower-cased DNs reachable from the start |
| Membership.CheckParents | storage/HACL_StorageLDAP.php:597-613 | the loop stops at the first hit whose ID is the parent or, recursively, sits in the parent locally, every earlier hit having been checked and found not to qualify; otherwise every hit has been checked, and the hits not yet searched are appended to the queue in order; the only rows added are the hits' lower-cased DNs |
| Membership.CheckHit | storage/HACL_StorageLDAP.php:598-608 | the ID allocated for a hit is compared with the parent and, when recursive, is checked by the local store; the only row added is the hit's lower-cased DN |
| Membership.NewDns | storage/HACL_StorageLDAP.php:610-612 | the queued DNs are exactly the hit DNs not yet searched |
| Assoc.Put | storage/HACL_StorageLDAP.php:521 | after assigning under a key, that key reads the new value and every other key reads as before |
| Assoc.PutKeys | storage/HACL_StorageLDAP.php:521 | an existing key is overwritten in place; a new key is appended at the end; keys stay unique |
| Assoc.PutAllGet | storage/HACL_StorageLDAP.php:517-523 | after a sequence of assignments, each key reads its last assigned value, or its old value when it was never assigned |
| Assoc.PutAllKeys | storage/HACL_StorageLDAP.php:517-523 | assignments keep keys unique, and the keys are the old ones plus the assigned ones |

## Findings

| source | as written | input that shows it | evidently intended | confidence | as-written member | corrected member |
|---|---|---|---|---|---|---|
| storage/HACL_StorageLDAP.php:866-867 | getGroupIDForDN puts the DN into `WHERE dn = '$dn'` without escaping it, while the INSERT at line 881 escapes it | `cn=smith\, john,ou=groups` on MySQL in its default mode: the literal reads as `cn=smith, john,ou=groups`, so the stored row is never found again and every call inserts it again under a new ID; a DN with an apostrophe makes the SELECT invalid SQL | the SELECT matches the stored DN exactly, as an escaped literal would, so a DN keeps the ID it was first given | not executed; high for the backslash case on MySQL with default settings | IdMapper.IdForDnAsWritten, IdMapper.AsWrittenAddsAgain, IdMapper.EscapedCommaAddedTwice | IdMapper.IdForDn, IdMapper.IdForDnIdempotent |

## Left out

- The DDL of the mapping table (initDatabaseTables, dropDatabaseTables) is left out. It is schema setup with no logic.
- ldapQuery and bindLDAPServer are left out. A failed bind does not stop the searches: bindLDAPServer goes on as the connecting user when the proxy bind fails (lines 985-987), and ldapQuery searches anyway (lines 941-943). A search is a pure function of the directory value, which is what those searches see, whichever account bound. Only a failed `ldap_search` (line 946) is modelled, as an offline directory that returns nothing. The `array("dn"=>array())` value it returns then is not modelled.
- createUsersFromLDAP is left out. It creates wiki user accounts as a side effect, which is outside group resolution.
- getUserDN, getSearchString, the authentication plugin's getGroups, User::whoIs and User::idFromName are fixed, uninterpreted functions in `Env`.
- LDAP escaping (getLdapEscapedString) is an uninterpreted function, the `escape` field of `Dir`. searchLDAPGroups applies it to every value except `*`. In a BY_DN search the escaped string is the search base, and the model searches there. In the three filter modes an escaped assertion value stands for the value itself, so the model matches the value as given. The lemmas about BY_DN searches at stored DNs hold only for DNs that the escaping leaves as they are, and they say so.
- The search base DN is ignored. Every search sees every entry. A search based at a DN sees only the entry with that DN, because group entries are taken to be leaves of the directory tree.
- Attribute names are fixed. The group name attribute is `cn` (createGroupFromLDAP reads the `cn` field of a hit). There is one member attribute and one object class per kind.
- Directory matching ignores ASCII letter case only. Unicode case folding and other LDAP matching rules are not modelled.
- Concurrency and the connection to the mapping table are left out. The table is a value threaded through calls, so two calls never interleave their inserts.
- PHP's conversion of numeric-string array keys to integers is not modelled, and neither is the loose comparison of `array_search`. Names are compared as exact strings.
- The null name that groupNameForID returns for a DN the directory no longer has becomes the empty key, as PHP's array keys do.
- The parent class's internals are not part of this model. The local store is the answers it gives (`Local`) and the write operations handed on to it (`LocalOp`).
- Session globals and per-domain configuration arrays are fixed inputs in `Env`.
- Membership.HasGroupMember: completeness (every qualifying chain is found) is stated only when every directory DN is well formed. A queued DN that PHP treats as false ("" or "0") ends the source's loop early. Soundness holds without that condition.
- Membership.HasGroupMember: a directory child group with no mapped DN is answered false without searching. The source searches with a null DN, which escapes to the empty value; the model treats that search as returning nothing.
- Merges.MemberIds: for a member type other than user or group, searchGroupMembers looks for group entries, and getMembersOfGroup then reads each entry's user-name attribute. The model reads the entry's name there, because it keeps one name per entry.
- Lookup.GetGroupById: the local branch uses `<=` the offset, while the other operations use `<`. ID 1000000 therefore goes to the local store here, but is a directory ID elsewhere. This is modelled as written. The ID can never be allocated, because row ids start at 1.
- IdMapper.IdForDn: models the corrected lookup of "## Findings", which matches the DN exactly. The source as written is IdMapper.IdForDnAsWritten. It differs for a DN that the unescaped literal alters (a backslash on MySQL), for a DN with an apostrophe (the query fails with a database error, which the model has no value for), and for a DN longer than 255 characters, which the column cuts. For such DNs the source may not find the returned ID again, and the table may gain duplicate rows.
- IdMapper.Select: compares the column with the DN itself, as in the corrected lookup; the source compares it with what the unescaped literal reads as (IdMapper.IdForDnAsWritten).
- IdMapper.SelectOneRow: "a row holds the DN" is exact equality, as in the corrected lookup; in the source, the row must equal the string the unescaped literal reads as.
- IdMapper.IdForDnTable: "a stored DN leaves the table unchanged" holds for the corrected lookup; in the source, a stored DN that the literal alters or the column cut is inserted again (IdMapper.AsWrittenAddsAgain).
- IdMapper.IdForDnIdempotent: holds for the corrected lookup only; IdMapper.EscapedCommaAddedTwice shows the source as written giving a second ID.
- IdMapper.DnForIdRoundTrip: holds for the corrected lookup; in the source, the stored DN maps back through the SELECT only when the literal reads back as the DN (IdMapper.AsWrittenAgrees).
- IdMapper.Column: the whole model except IdMapper.IdForDnAsWritten stores DNs of any length. A DN longer than 255 characters is cut by MySQL outside strict mode and refused in strict mode; neither happens in the corrected lookup.
- Lookup.GetGroupByIdOfDn: the round trip rests on IdMapper.IdForDnIdempotent, so it holds for the corrected lookup only.
- Merges.MemberDnMapsBack: holds for the corrected lookup only; in the source, a DN the literal alters maps to no ID or to a new one.
- Membership.StartDnMapsBack: holds for the corrected lookup only, for the same reason.
- Membership.Walk: completeness compares each hit's ID, as the corrected lookup gives it, with the parent. In the source, a hit whose DN the literal alters gets a fresh ID on every lookup, which never equals the parent, so the source can answer false where the model answers true.
- Membership.HasGroupMember: completeness rests on Membership.Walk and carries the same difference.
