/**
 * The name-keyed merges of getGroupsOfMember and searchMatchingGroups, where
 * directory entries overwrite local entries of the same name, and the member
 * listing of getMembersOfGroup.
 */
module Merges {
  import opened Wrappers
  import opened Text
  import opened Types
  import opened IdMapper
  import opened Directory
  import opened LocalStore
  import opened Config
  import opened Assoc
  import opened Lookup

  /** The DN whose directory groups getGroupsOfMember asks for: the search
      string of the user's name for a user, the mapped DN for anything else. */
  function MemberDn(env: Env, t: MapTable, memberId: int, kind: MemberKind): (r: Option<Dn>)
    ensures kind == UserMember ==> r.Some?
    ensures kind != UserMember ==> (r.Some? <==> LdapMappingBase < memberId <= LdapMappingBase + |t.rows|)
  {
    if kind == UserMember then Some(env.searchString(env.userName(memberId))) else DnForId(t, memberId)
  }

  /** In a valid table, the DN asked for a group member is the DN its ID was
      allocated for: looking it up again gives the member's ID back. */
  lemma MemberDnMapsBack(env: Env, t: MapTable, memberId: int, kind: MemberKind)
    requires IdMapper.Valid(t) && kind != UserMember && MemberDn(env, t, memberId, kind).Some?
    ensures IdForDn(t, MemberDn(env, t, memberId, kind).value, false) == Threaded(Some(memberId), t)
  {
    DnForIdRoundTrip(t, memberId, false);
  }

  /** The DNs PHP's empty() lets through, in order. */
  function Truthies(dns: seq<Dn>): (r: seq<Dn>)
    ensures forall d :: d in r <==> d in dns && Truthy(d)
  {
    if |dns| == 0 then []
    else
      assert forall d :: d in dns <==> d == dns[0] || d in dns[1..];
      (if Truthy(dns[0]) then [dns[0]] else []) + Truthies(dns[1..])
  }

  /** The non-empty DNs of a list whose first DN is non-empty: that DN and
      the non-empty DNs of the rest. */
  lemma TruthyDnsCons(dns: seq<Dn>)
    requires |dns| > 0 && Truthy(dns[0])
    ensures {dns[0]} <= DnSet(Truthies(dns)) && DnSet(Truthies(dns[1..])) <= DnSet(Truthies(dns))
  {
    assert Truthies(dns) == [dns[0]] + Truthies(dns[1..]);
  }

  /** For each non-empty DN in turn: its ID (allocated when new) and the name
      groupNameForID gives that ID, the empty key when the directory has no
      such group. */
  function NamedGroupIds(dir: Dir, t: MapTable, dns: seq<Dn>): (r: Threaded<seq<(string, int)>>)
    ensures |r.value| == |Truthies(dns)|
    ensures forall i :: 0 <= i < |r.value| ==>
              && r.value[i].1 > LdapMappingBase
              && DnForId(r.table, r.value[i].1) == Some(ToLower(Truthies(dns)[i]))
              && r.value[i].0 == GroupNameForId(dir, r.table, r.value[i].1).GetOr("")
    ensures Extends(t, r.table) && (IdMapper.Valid(t) ==> IdMapper.Valid(r.table))
    decreases |dns|
  {
    if |dns| == 0 then Threaded([], t)
    else if !Truthy(dns[0]) then
      assert Truthies(dns) == Truthies(dns[1..]);
      NamedGroupIds(dir, t, dns[1..])
    else
      assert Truthies(dns) == [dns[0]] + Truthies(dns[1..]);
      var l := IdForDn(t, dns[0], true);
      var id := l.value.value;
      var name := GroupNameForId(dir, l.table, id).GetOr("");
      var rest := NamedGroupIds(dir, l.table, dns[1..]);
      KeepsName(dir, l.table, rest.table, id);
      Threaded([(name, id)] + rest.value, rest.table)
  }

  /** The only rows NamedGroupIds adds are the lower-cased non-empty DNs it was given. */
  lemma {:induction false} NamedGroupIdsAddsOnly(dir: Dir, t: MapTable, dns: seq<Dn>)
    ensures AddsOnly(t, NamedGroupIds(dir, t, dns).table, DnSet(Truthies(dns)))
    decreases |dns|
  {
    if |dns| > 0 {
      NamedGroupIdsAddsOnly(dir, IdForDn(t, dns[0], true).table, dns[1..]);
      NamedGroupIdsAddsOnly(dir, t, dns[1..]);
      if Truthy(dns[0]) {
        var l := IdForDn(t, dns[0], true);
        IdForDnAddsOnly(t, dns[0], true);
        TruthyDnsCons(dns);
        AddsOnlyTrans(t, l.table, NamedGroupIds(dir, l.table, dns[1..]).table, {dns[0]}, DnSet(Truthies(dns[1..])), DnSet(Truthies(dns)));
      } else {
        assert Truthies(dns) == Truthies(dns[1..]);
      }
    }
  }

  /** Appending rows keeps the DN and the name an existing ID stands for. */
  lemma KeepsName(dir: Dir, t: MapTable, t': MapTable, id: int)
    requires Extends(t, t') && DnForId(t, id).Some?
    ensures DnForId(t', id) == DnForId(t, id)
    ensures GroupNameForId(dir, t', id) == GroupNameForId(dir, t, id)
  {
    DnForIdStable(t, t', id);
  }

  /** The directory half of getGroupsOfMember. */
  function LdapGroupsOfMember(dir: Dir, env: Env, t: MapTable, memberId: int, kind: MemberKind): (r: Threaded<seq<(string, int)>>)
    ensures var dns := Truthies(env.ldapGroupsOf(MemberDn(env, t, memberId, kind)));
            && |r.value| == |dns|
            && forall i :: 0 <= i < |r.value| ==>
                 && DnForId(r.table, r.value[i].1) == Some(ToLower(dns[i]))
                 && r.value[i].0 == GroupNameForId(dir, r.table, r.value[i].1).GetOr("")
    ensures Extends(t, r.table) && (IdMapper.Valid(t) ==> IdMapper.Valid(r.table))
    ensures AddsOnly(t, r.table, DnSet(Truthies(env.ldapGroupsOf(MemberDn(env, t, memberId, kind)))))
  {
    NamedGroupIdsAddsOnly(dir, t, env.ldapGroupsOf(MemberDn(env, t, memberId, kind)));
    NamedGroupIds(dir, t, env.ldapGroupsOf(MemberDn(env, t, memberId, kind)))
  }

  /** getGroupsOfMember: the local (name, ID) pairs, then the directory ones
      assigned over them by name. */
  function GetGroupsOfMember(dir: Dir, env: Env, local: Local, t: MapTable, memberId: int, kind: MemberKind): (r: Threaded<Assoc<int>>)
    ensures DistinctKeys(r.value)
    ensures Extends(t, r.table) && (IdMapper.Valid(t) ==> IdMapper.Valid(r.table))
    ensures AddsOnly(t, r.table, DnSet(Truthies(env.ldapGroupsOf(MemberDn(env, t, memberId, kind)))))
  {
    var ldap := LdapGroupsOfMember(dir, env, t, memberId, kind);
    var merged := PutAll(PutAll([], local.groupsOfMember(memberId, kind)), ldap.value);
    PutAllKeys([], local.groupsOfMember(memberId, kind), "");
    PutAllKeys(PutAll([], local.groupsOfMember(memberId, kind)), ldap.value, "");
    Threaded(merged, ldap.table)
  }

  /** Directory groups win: the ID under a name is the last directory ID
      assigned to it, or else the last local one; a name is present when either
      side has it. */
  lemma GroupsOfMemberLdapWins(dir: Dir, env: Env, local: Local, t: MapTable, memberId: int, kind: MemberKind, name: string)
    ensures var r := GetGroupsOfMember(dir, env, local, t, memberId, kind);
            var ldap := LdapGroupsOfMember(dir, env, t, memberId, kind).value;
            var mine := local.groupsOfMember(memberId, kind);
            && Get(r.value, name) == (if LastValue(ldap, name).Some? then LastValue(ldap, name) else LastValue(mine, name))
            && (name in KeysOf(r.value) <==> name in KeysOf(mine) || name in KeysOf(ldap))
  {
    var ldap := LdapGroupsOfMember(dir, env, t, memberId, kind).value;
    var mine := local.groupsOfMember(memberId, kind);
    PutAllGet(PutAll([], mine), ldap, name);
    PutAllGet([], mine, name);
    PutAllKeys(PutAll([], mine), ldap, name);
    PutAllKeys([], mine, name);
  }

  /** searchMatchingGroups: the local matches, then each directory group whose
      name contains the search string assigned over them by name. */
  function SearchMatchingGroups(dir: Dir, local: Local, t: MapTable, search: string): (r: Threaded<Assoc<int>>)
    ensures DistinctKeys(local.matchingGroups(search)) ==> DistinctKeys(r.value)
    ensures Extends(t, r.table) && (IdMapper.Valid(t) ==> IdMapper.Valid(r.table))
    ensures AddsOnly(t, r.table, HitDns(SearchGroups(dir, search, ByNameFilter)))
  {
    var hits := NamedIds(t, SearchGroups(dir, search, ByNameFilter));
    PutAllKeys(local.matchingGroups(search), hits.value, "");
    Threaded(PutAll(local.matchingGroups(search), hits.value), hits.table)
  }

  /** Directory matches win: a name that some matching directory group carries
      maps to the ID of the last such group in search order, which stands for
      that group's DN; any other name keeps its local ID. */
  lemma SearchMatchingLdapWins(dir: Dir, local: Local, t: MapTable, search: string, name: string)
    ensures var r := SearchMatchingGroups(dir, local, t, search);
            var named := exists e :: e in dir.entries && Matches(search, ByNameFilter, e) && e.name == name;
            && (!(dir.online && named) ==> Get(r.value, name) == Get(local.matchingGroups(search), name))
            && (dir.online && named ==>
                  && Get(r.value, name).Some?
                  && exists e :: && e in dir.entries && Matches(search, ByNameFilter, e) && e.name == name
                                 && DnForId(r.table, Get(r.value, name).value) == Some(ToLower(e.dn)))
  {
    var r := SearchMatchingGroups(dir, local, t, search);
    var hits := NamedIds(t, SearchGroups(dir, search, ByNameFilter));
    assert r.value == PutAll(local.matchingGroups(search), hits.value) && r.table == hits.table;
    PutAllGet(local.matchingGroups(search), hits.value, name);
    LastValueExists(hits.value, name);
    HitKeys(dir, t, search, name);
    if name in KeysOf(hits.value) {
      HitDn(dir, t, search, name);
    }
  }

  /** A name is among the hits' keys exactly when some matching directory group carries it. */
  lemma HitKeys(dir: Dir, t: MapTable, search: string, name: string)
    ensures var refs := SearchGroups(dir, search, ByNameFilter);
            var named := dir.online && exists e :: e in dir.entries && Matches(search, ByNameFilter, e) && e.name == name;
            name in KeysOf(NamedIds(t, refs).value) <==> named
  {
    var refs := SearchGroups(dir, search, ByNameFilter);
    var keys := KeysOf(NamedIds(t, refs).value);
    if dir.online && exists e :: e in dir.entries && Matches(search, ByNameFilter, e) && e.name == name {
      var e :| e in dir.entries && Matches(search, ByNameFilter, e) && e.name == name;
      assert RefOf(e) in refs;
      var i :| 0 <= i < |refs| && refs[i] == RefOf(e);
      assert keys[i] == name;
    }
    if name in keys {
      var i :| 0 <= i < |keys| && keys[i] == name;
      assert refs[i] in refs;
    }
  }

  /** The last hit under a name stands for the DN of a matching directory group with that name. */
  lemma HitDn(dir: Dir, t: MapTable, search: string, name: string)
    requires name in KeysOf(NamedIds(t, SearchGroups(dir, search, ByNameFilter)).value)
    ensures var hits := NamedIds(t, SearchGroups(dir, search, ByNameFilter));
            && LastValue(hits.value, name).Some?
            && exists e :: && e in dir.entries && Matches(search, ByNameFilter, e) && e.name == name
                           && DnForId(hits.table, LastValue(hits.value, name).value) == Some(ToLower(e.dn))
  {
    var refs := SearchGroups(dir, search, ByNameFilter);
    var hits := NamedIds(t, refs);
    LastValueExists(hits.value, name);
    LastValueIsSome(hits.value, name);
    var j :| 0 <= j < |hits.value| && hits.value[j] == (name, LastValue(hits.value, name).value);
    assert refs[j] in refs;
    var e :| e in dir.entries && Matches(search, ByNameFilter, e) && refs[j] == RefOf(e);
    assert DnForId(hits.table, hits.value[j].1) == Some(ToLower(e.dn));
  }

  /** The last value under a key is the value of one of the pairs with that key. */
  lemma {:induction false} LastValueIsSome<V>(kvs: seq<(string, V)>, k: string)
    requires LastValue(kvs, k).Some?
    ensures exists j :: 0 <= j < |kvs| && kvs[j] == (k, LastValue(kvs, k).value)
  {
    if LastValue(kvs[1..], k).Some? {
      LastValueIsSome(kvs[1..], k);
      var j :| 0 <= j < |kvs[1..]| && kvs[1..][j] == (k, LastValue(kvs[1..], k).value);
      assert kvs[j + 1] == kvs[1..][j];
    } else {
      assert kvs[0] == (k, LastValue(kvs, k).value);
    }
  }

  /** The IDs getMembersOfGroup reports for the member entries found: the
      mapped ID of each group, or the local user ID of each user's name. */
  function MemberIds(env: Env, t: MapTable, ms: seq<Entry>, kind: MemberKind): (r: Threaded<seq<Option<int>>>)
    ensures |r.value| == |ms|
    ensures forall i :: 0 <= i < |ms| ==>
              if kind == GroupMember then r.value[i].Some? && DnForId(r.table, r.value[i].value) == Some(ToLower(ms[i].dn))
              else r.value[i] == env.userId(ms[i].name)
    ensures kind != GroupMember ==> r.table == t
    ensures Extends(t, r.table) && (IdMapper.Valid(t) ==> IdMapper.Valid(r.table))
    ensures AddsOnly(t, r.table, EntryDns(ms))
  {
    GroupIdsAddsOnly(t, ms);
    if kind == GroupMember then GroupIds(t, ms)
    else Threaded(seq(|ms|, i requires 0 <= i < |ms| => env.userId(ms[i].name)), t)
  }

  /** The mapped ID of each member group, allocated when new. */
  function GroupIds(t: MapTable, ms: seq<Entry>): (r: Threaded<seq<Option<int>>>)
    ensures |r.value| == |ms|
    ensures forall i :: 0 <= i < |ms| ==> r.value[i].Some? && DnForId(r.table, r.value[i].value) == Some(ToLower(ms[i].dn))
    ensures Extends(t, r.table) && (IdMapper.Valid(t) ==> IdMapper.Valid(r.table))
    decreases |ms|
  {
    if |ms| == 0 then Threaded([], t)
    else
      var l := IdForDn(t, ms[0].dn, true);
      var rest := GroupIds(l.table, ms[1..]);
      DnForIdStable(l.table, rest.table, l.value.value);
      assert forall i :: 0 < i < |ms| ==> ms[i] == ms[1..][i - 1];
      Threaded([l.value] + rest.value, rest.table)
  }

  /** The only rows GroupIds adds are the lower-cased DNs of the member entries. */
  lemma {:induction false} GroupIdsAddsOnly(t: MapTable, ms: seq<Entry>)
    ensures AddsOnly(t, GroupIds(t, ms).table, EntryDns(ms))
    decreases |ms|
  {
    if |ms| > 0 {
      var l := IdForDn(t, ms[0].dn, true);
      GroupIdsAddsOnly(l.table, ms[1..]);
      IdForDnAddsOnly(t, ms[0].dn, true);
      EntryDnsCons(ms);
      AddsOnlyTrans(t, l.table, GroupIds(l.table, ms[1..]).table, {ms[0].dn}, EntryDns(ms[1..]), EntryDns(ms));
    }
  }

  /** getMembersOfGroup: local IDs go to the local store; a directory ID
      without a DN has no members; otherwise the member entries of the group
      the DN names are reported. */
  function GetMembersOfGroup(dir: Dir, env: Env, local: Local, t: MapTable, groupId: int, kind: MemberKind): (r: Threaded<seq<Option<int>>>)
    ensures groupId < LdapMappingBase ==> r == Threaded(local.membersOfGroup(groupId, kind), t)
    ensures groupId >= LdapMappingBase && DnForId(t, groupId).None? ==> r == Threaded([], t)
    ensures groupId >= LdapMappingBase && DnForId(t, groupId).Some? ==>
              var ms := MemberEntries(dir, DnForId(t, groupId).value, kind);
              && |r.value| == |ms|
              && forall i :: 0 <= i < |ms| ==>
                   if kind == GroupMember then r.value[i].Some? && DnForId(r.table, r.value[i].value) == Some(ToLower(ms[i].dn))
                   else r.value[i] == env.userId(ms[i].name)
    ensures Extends(t, r.table) && (IdMapper.Valid(t) ==> IdMapper.Valid(r.table))
    ensures groupId >= LdapMappingBase && DnForId(t, groupId).Some? ==>
              AddsOnly(t, r.table, EntryDns(MemberEntries(dir, DnForId(t, groupId).value, kind)))
  {
    if groupId >= LdapMappingBase then
      match DnForId(t, groupId)
      case None => Threaded([], t)
      case Some(dn) => MemberIds(env, t, MemberEntries(dir, dn, kind), kind)
    else Threaded(local.membersOfGroup(groupId, kind), t)
  }

  /** The member groups of a directory group: the DNs the reported IDs stand
      for are exactly the (lower-cased) DNs of the group entries its member
      values name. */
  lemma GroupMembersExact(dir: Dir, env: Env, local: Local, t: MapTable, groupId: int, g: Entry, d: Dn)
    requires Directory.Valid(dir) && dir.online && g in dir.entries && g.objectClass == GroupClass
    requires DnForId(t, groupId) == Some(ToLower(g.dn))
    ensures var r := GetMembersOfGroup(dir, env, local, t, groupId, GroupMember);
            (exists id :: Some(id) in r.value && DnForId(r.table, id) == Some(d)) <==>
            (exists x :: x in dir.entries && x.objectClass == GroupClass && ListsValue(g.members, x.dn) && d == ToLower(x.dn))
  {
    var ms := MembersOfStoredGroup(dir, env, local, t, groupId, g, GroupMember);
    GroupIdsCover(env, t, ms, d);
  }

  /** For a directory group with a mapped ID, getMembersOfGroup reports the
      member entries of exactly the requested class that the group names. */
  lemma MembersOfStoredGroup(dir: Dir, env: Env, local: Local, t: MapTable, groupId: int, g: Entry, kind: MemberKind)
    returns (ms: seq<Entry>)
    requires Directory.Valid(dir) && dir.online && g in dir.entries && g.objectClass == GroupClass
    requires DnForId(t, groupId) == Some(ToLower(g.dn))
    ensures GetMembersOfGroup(dir, env, local, t, groupId, kind) == MemberIds(env, t, ms, kind)
    ensures forall x :: x in ms <==> x in dir.entries && x.objectClass == ClassFor(kind) && ListsValue(g.members, x.dn)
  {
    ms := MemberEntries(dir, ToLower(g.dn), kind);
    MemberEntriesOfStored(dir, g, kind);
  }

  lemma MemberEntriesOfStored(dir: Dir, g: Entry, kind: MemberKind)
    requires Directory.Valid(dir) && dir.online && g in dir.entries && g.objectClass == GroupClass
    ensures forall x :: x in MemberEntries(dir, ToLower(g.dn), kind) <==>
              x in dir.entries && x.objectClass == ClassFor(kind) && ListsValue(g.members, x.dn)
  {
    SameMemberEntries(dir, g.dn, ToLower(g.dn), kind);
    forall x
      ensures x in MemberEntries(dir, ToLower(g.dn), kind) <==>
              x in dir.entries && x.objectClass == ClassFor(kind) && ListsValue(g.members, x.dn)
    {
      MemberEntriesExact(dir, g, kind, x);
    }
  }

  /** The IDs reported for member groups stand for exactly their DNs. */
  lemma GroupIdsCover(env: Env, t: MapTable, ms: seq<Entry>, d: Dn)
    ensures var r := MemberIds(env, t, ms, GroupMember);
            (exists id :: Some(id) in r.value && DnForId(r.table, id) == Some(d)) <==>
            (exists x :: x in ms && d == ToLower(x.dn))
  {
    var r := MemberIds(env, t, ms, GroupMember);
    if exists x :: x in ms && d == ToLower(x.dn) {
      var x :| x in ms && d == ToLower(x.dn);
      var i :| 0 <= i < |ms| && ms[i] == x;
      assert r.value[i] in r.value;
    }
    if exists id :: Some(id) in r.value && DnForId(r.table, id) == Some(d) {
      var id :| Some(id) in r.value && DnForId(r.table, id) == Some(d);
      var i :| 0 <= i < |r.value| && r.value[i] == Some(id);
      assert ms[i] in ms;
    }
  }

  /** The member users of a directory group: the reported values are exactly
      the local user IDs of the names of the user entries its member values name. */
  lemma UserMembersExact(dir: Dir, env: Env, local: Local, t: MapTable, groupId: int, g: Entry, u: Option<int>)
    requires Directory.Valid(dir) && dir.online && g in dir.entries && g.objectClass == GroupClass
    requires DnForId(t, groupId) == Some(ToLower(g.dn))
    ensures var r := GetMembersOfGroup(dir, env, local, t, groupId, UserMember);
            u in r.value <==>
            exists x :: x in dir.entries && x.objectClass == UserClass && ListsValue(g.members, x.dn) && u == env.userId(x.name)
  {
    var ms := MembersOfStoredGroup(dir, env, local, t, groupId, g, UserMember);
    UserIdsCover(env, t, ms, u);
  }

  /** The values reported for member users are exactly their names' user IDs. */
  lemma UserIdsCover(env: Env, t: MapTable, ms: seq<Entry>, u: Option<int>)
    ensures u in MemberIds(env, t, ms, UserMember).value <==> exists x :: x in ms && u == env.userId(x.name)
  {
    var r := MemberIds(env, t, ms, UserMember);
    if exists x :: x in ms && u == env.userId(x.name) {
      var x :| x in ms && u == env.userId(x.name);
      var i :| 0 <= i < |ms| && ms[i] == x;
      assert r.value[i] == u;
    }
    if u in r.value {
      var i :| 0 <= i < |r.value| && r.value[i] == u;
      assert ms[i] in ms;
    }
  }

  /** Member lookups depend on the group DN only up to letter case. */
  lemma SameMemberEntries(dir: Dir, a: Dn, b: Dn, kind: MemberKind)
    requires ToLower(a) == ToLower(b)
    ensures MemberEntries(dir, a, kind) == MemberEntries(dir, b, kind)
  {
    EqualLowerSameEntries(dir, a, b);
  }
}
