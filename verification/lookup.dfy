/**
 * Group lookups that join the directory and the local store: by ID, by name,
 * existence, and the overloading diagnostic. Directory groups shadow local
 * groups of the same name.
 */
module Lookup {
  import opened Wrappers
  import opened Text
  import opened Types
  import opened IdMapper
  import opened Directory
  import opened LocalStore

  /** createGroupFromLDAP: a directory group object whose ID is its DN's mapped ID. */
  function CreateGroupFromLdap(t: MapTable, ref: GroupRef): (r: Threaded<Group>)
    ensures r.value.name == ref.cn && r.value.origin == Ldap
    ensures r.value.id > LdapMappingBase && DnForId(r.table, r.value.id) == Some(ToLower(ref.dn))
    ensures Extends(t, r.table) && (IdMapper.Valid(t) ==> IdMapper.Valid(r.table))
    ensures AddsOnly(t, r.table, {ref.dn})
  {
    IdForDnAddsOnly(t, ref.dn, true);
    var l := IdForDn(t, ref.dn, true);
    Threaded(Group(l.value.value, ref.cn, Ldap), l.table)
  }

  /** createGroupFromLDAP applied to a list of hits in order, each call seeing
      the table the previous one left. */
  function CreateAll(t: MapTable, refs: seq<GroupRef>): (r: Threaded<seq<Group>>)
    ensures |r.value| == |refs|
    ensures forall i :: 0 <= i < |refs| ==>
              && r.value[i].name == refs[i].cn && r.value[i].origin == Ldap && r.value[i].id > LdapMappingBase
              && DnForId(r.table, r.value[i].id) == Some(ToLower(refs[i].dn))
    ensures Extends(t, r.table) && (IdMapper.Valid(t) ==> IdMapper.Valid(r.table))
    ensures AddsOnly(t, r.table, HitDns(refs))
    decreases |refs|
  {
    if |refs| == 0 then Threaded([], t)
    else
      var g := CreateGroupFromLdap(t, refs[0]);
      var rest := CreateAll(g.table, refs[1..]);
      DnForIdStable(g.table, rest.table, g.value.id);
      HitDnsCons(refs);
      AddsOnlyTrans(t, g.table, rest.table, {refs[0].dn}, HitDns(refs[1..]), HitDns(refs));
      Threaded([g.value] + rest.value, rest.table)
  }

  /** The name-to-ID pairs of a list of hits, allocating IDs in order. */
  function NamedIds(t: MapTable, refs: seq<GroupRef>): (r: Threaded<seq<(string, int)>>)
    ensures |r.value| == |refs|
    ensures forall i :: 0 <= i < |refs| ==>
              && r.value[i].0 == refs[i].cn && r.value[i].1 > LdapMappingBase
              && DnForId(r.table, r.value[i].1) == Some(ToLower(refs[i].dn))
    ensures Extends(t, r.table) && (IdMapper.Valid(t) ==> IdMapper.Valid(r.table))
    ensures AddsOnly(t, r.table, HitDns(refs))
  {
    var gs := CreateAll(t, refs);
    Threaded(seq(|gs.value|, i requires 0 <= i < |gs.value| => (gs.value[i].name, gs.value[i].id)), gs.table)
  }

  /** groupNameForID: the name of the directory group mapped to `id`, if the
      directory still has it. */
  function GroupNameForId(dir: Dir, t: MapTable, id: int): (r: Option<string>)
    ensures DnForId(t, id).None? ==> r == None
    ensures r.Some? ==> exists e :: e in dir.entries && Matches(QueryValue(dir, DnForId(t, id).value, ByDn), ByDn, e) && r.value == e.name
  {
    match DnForId(t, id)
    case None => None
    case Some(dn) =>
      var found := SearchGroups(dir, dn, ByDn);
      if found == [] then None
      else
        assert found[0] in found;
        Some(found[0].cn)
  }

  /** In a valid directory, the name of an ID mapped to a group's DN is that
      group's name, when the escaping leaves the stored DN as it is. */
  lemma GroupNameForIdOfStored(dir: Dir, t: MapTable, id: int, e: Entry)
    requires Directory.Valid(dir) && dir.online && e in dir.entries && e.objectClass == GroupClass
    requires DnForId(t, id) == Some(ToLower(e.dn)) && EscapeKeeps(dir, ToLower(e.dn))
    ensures GroupNameForId(dir, t, id) == Some(e.name)
  {
    ToLowerNormalizes(e.dn);
    SearchByDnStored(dir, e, ToLower(e.dn));
  }

  /** groupExists: directory IDs exist when they are mapped, local IDs when the
      local store has them. */
  function GroupExists(local: Local, t: MapTable, id: int): (r: bool)
    ensures id < LdapMappingBase ==> r == local.groupExists(id)
    ensures id >= LdapMappingBase ==> (r <==> LdapMappingBase < id <= LdapMappingBase + |t.rows|)
  {
    if id >= LdapMappingBase then DnForId(t, id) != None else local.groupExists(id)
  }

  /** A directory ID exists exactly when some stored DN maps to it. */
  lemma GroupExistsIffMapped(local: Local, t: MapTable, id: int)
    requires IdMapper.Valid(t) && id >= LdapMappingBase
    ensures GroupExists(local, t, id) <==> exists d :: d in t.rows && IdForDn(t, d, false).value == Some(id)
  {
    if GroupExists(local, t, id) {
      DnForIdRoundTrip(t, id, false);
    }
    if exists d :: d in t.rows && IdForDn(t, d, false).value == Some(id) {
      var d :| d in t.rows && IdForDn(t, d, false).value == Some(id);
      assert DnForId(IdForDn(t, d, false).table, id).Some?;
    }
  }

  /** getGroupByName: the first directory group found by name wins; otherwise the local group. */
  function GetGroupByName(dir: Dir, local: Local, t: MapTable, name: string): (r: Threaded<Option<Group>>)
    ensures HasMatch(dir, name, ByName) ==>
              && r.value.Some? && r.value.value.origin == Ldap && r.value.value.id > LdapMappingBase
              && exists e :: e in dir.entries && Matches(name, ByName, e) && r.value.value.name == e.name
                             && DnForId(r.table, r.value.value.id) == Some(ToLower(e.dn))
    ensures !HasMatch(dir, name, ByName) ==> r == Threaded(local.groupByName(name), t)
    ensures Extends(t, r.table) && (IdMapper.Valid(t) ==> IdMapper.Valid(r.table))
    ensures AddsOnly(t, r.table, HitDns(SearchGroups(dir, name, ByName)))
  {
    var found := SearchGroups(dir, name, ByName);
    SearchNonEmptyIffMatch(dir, name, ByName);
    if found != [] then
      assert found[0] in found;
      var g := CreateGroupFromLdap(t, found[0]);
      AddsOnlyWider(t, g.table, {found[0].dn}, HitDns(found));
      Threaded(Some(g.value), g.table)
    else
      Threaded(local.groupByName(name), t)
  }

  /** isOverloaded: the name resolves to a directory group and the local store
      has a group of that name too. */
  function IsOverloaded(dir: Dir, local: Local, t: MapTable, name: string): (r: Threaded<bool>)
    ensures r.value <==> local.groupByName(name).Some? &&
                         (HasMatch(dir, name, ByName) || local.groupByName(name).value.id >= LdapMappingBase)
    ensures Extends(t, r.table) && (IdMapper.Valid(t) ==> IdMapper.Valid(r.table))
    ensures AddsOnly(t, r.table, HitDns(SearchGroups(dir, name, ByName)))
  {
    var g := GetGroupByName(dir, local, t, name);
    if g.value.None? then Threaded(false, g.table)
    else if g.value.value.id >= LdapMappingBase then Threaded(local.groupByName(name).Some?, g.table)
    else Threaded(false, g.table)
  }

  /** With a local store whose groups have local IDs, a name is overloaded
      exactly when both a directory group and a local group carry it. */
  lemma OverloadedIffBothDefine(dir: Dir, local: Local, t: MapTable, name: string)
    requires local.groupByName(name).Some? ==> local.groupByName(name).value.id < LdapMappingBase
    ensures IsOverloaded(dir, local, t, name).value <==>
              HasMatch(dir, name, ByName) && local.groupByName(name).Some?
  {
  }

  /** getGroupByID: IDs up to and including the offset go to the local store;
      higher IDs are looked up in the mapping table and then in the directory. */
  function GetGroupById(dir: Dir, local: Local, t: MapTable, id: int): (r: Threaded<Option<Group>>)
    ensures id <= LdapMappingBase ==> r == Threaded(local.groupById(id), t)
    ensures id > LdapMappingBase && DnForId(t, id).None? ==> r == Threaded(None, t)
    ensures id > LdapMappingBase && DnForId(t, id).Some? && !HasMatch(dir, DnForId(t, id).value, ByDn) ==>
              r == Threaded(None, t)
    ensures id > LdapMappingBase && r.value.Some? ==>
              && r.value.value.origin == Ldap
              && exists e :: && e in dir.entries && Matches(QueryValue(dir, DnForId(t, id).value, ByDn), ByDn, e)
                             && r.value.value.name == e.name && DnForId(r.table, r.value.value.id) == Some(ToLower(e.dn))
    ensures Extends(t, r.table) && (IdMapper.Valid(t) ==> IdMapper.Valid(r.table))
    ensures id > LdapMappingBase && DnForId(t, id).Some? ==> AddsOnly(t, r.table, HitDns(SearchGroups(dir, DnForId(t, id).value, ByDn)))
  {
    if id <= LdapMappingBase then Threaded(local.groupById(id), t)
    else
      match DnForId(t, id)
      case None => Threaded(None, t)
      case Some(dn) =>
        var found := SearchGroups(dir, dn, ByDn);
        SearchNonEmptyIffMatch(dir, dn, ByDn);
        if found == [] then Threaded(None, t)
        else
          assert found[0] in found;
          var g := CreateGroupFromLdap(t, found[0]);
          AddsOnlyWider(t, g.table, {found[0].dn}, HitDns(found));
          Threaded(Some(g.value), g.table)
  }

  /** Round trip through the ID space: the ID allocated for a directory group
      leads back to that group, under the same ID and with the table unchanged. */
  lemma GetGroupByIdOfDn(dir: Dir, local: Local, t: MapTable, e: Entry)
    requires IdMapper.Valid(t) && Directory.Valid(dir) && dir.online && e in dir.entries && e.objectClass == GroupClass
    requires EscapeKeeps(dir, ToLower(e.dn))
    ensures var l := IdForDn(t, e.dn, true);
            GetGroupById(dir, local, l.table, l.value.value) == Threaded(Some(Group(l.value.value, e.name, Ldap)), l.table)
  {
    var l := IdForDn(t, e.dn, true);
    var id := l.value.value;
    ToLowerNormalizes(e.dn);
    SearchByDnStored(dir, e, ToLower(e.dn));
    IdForDnIdempotent(t, e.dn, true);
  }
}
