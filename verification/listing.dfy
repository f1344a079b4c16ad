/**
 * getGroups: the top-level directory groups (those no group lists as a
 * member) followed by the local groups that no such directory group shadows.
 */
module Listing {
  import opened Wrappers
  import opened Text
  import opened Types
  import opened IdMapper
  import opened Directory
  import opened LocalStore
  import opened Lookup

  /** The DNs of a list of entries. */
  function DnsOf(es: seq<Entry>): (r: seq<Dn>)
    ensures |r| == |es|
    ensures forall i :: 0 <= i < |es| ==> r[i] == es[i].dn
  {
    seq(|es|, i requires 0 <= i < |es| => es[i].dn)
  }

  /** The DNs of all group entries, in the order the directory returns them. */
  function GroupDns(dir: Dir): (r: seq<Dn>)
    ensures forall d :: d in r <==> dir.online && exists e :: e in dir.entries && e.objectClass == GroupClass && e.dn == d
  {
    if dir.online then
      var gs := OfClass(dir.entries, GroupClass);
      var r := DnsOf(gs);
      assert forall e :: e in gs ==> e.dn in r by {
        forall e | e in gs ensures e.dn in r {
          var i :| 0 <= i < |gs| && gs[i] == e;
          assert r[i] == e.dn;
        }
      }
      r
    else []
  }

  /** Each value of `s` once, at its first position: what using the values as
      keys of a PHP array keeps. */
  function Dedup(s: seq<Dn>): (r: seq<Dn>)
    ensures forall d :: d in r <==> d in s
    ensures forall i, j :: 0 <= i < j < |r| ==> r[i] != r[j]
  {
    if |s| == 0 then []
    else
      var front := Dedup(s[..|s| - 1]);
      assert s == s[..|s| - 1] + [s[|s| - 1]];
      if s[|s| - 1] in front then front else front + [s[|s| - 1]]
  }

  /** The member values read from the entry a search based at `d` returns
      first (nothing when there is no such entry). */
  function MembersAt(dir: Dir, d: Dn): (r: seq<Dn>)
    ensures r != [] ==> exists e :: dir.online && e in dir.entries && ToLower(e.dn) == ToLower(d) && r == e.members
  {
    var es := EntriesAt(dir, d);
    if es == [] then []
    else
      assert es[0] in es;
      es[0].members
  }

  /** In a valid directory, the member values read at a stored DN are those of
      the entry with that DN. */
  lemma MembersAtStored(dir: Dir, e: Entry)
    requires Directory.Valid(dir) && dir.online && e in dir.entries
    ensures MembersAt(dir, e.dn) == e.members
  {
    EntriesAtStored(dir, e);
  }

  /** `d` is, verbatim, one of the member values read at one of `scanned`. */
  predicate Listed(dir: Dir, scanned: seq<Dn>, d: Dn) {
    exists s :: s in scanned && d in MembersAt(dir, s)
  }

  /** The values of `ds` that no group of `scanned` lists, in order. */
  function Unlisted(dir: Dir, scanned: seq<Dn>, ds: seq<Dn>): (r: seq<Dn>)
    ensures forall d :: d in r <==> d in ds && !Listed(dir, scanned, d)
    ensures (forall i, j :: 0 <= i < j < |ds| ==> ds[i] != ds[j]) ==> (forall i, j :: 0 <= i < j < |r| ==> r[i] != r[j])
  {
    if |ds| == 0 then []
    else
      var rest := Unlisted(dir, scanned, ds[1..]);
      assert forall d :: d in ds <==> d == ds[0] || d in ds[1..];
      assert (forall i, j :: 0 <= i < j < |ds| ==> ds[i] != ds[j]) ==> ds[0] !in ds[1..];
      if Listed(dir, scanned, ds[0]) then rest else [ds[0]] + rest
  }

  /** Root detection of getGroups: every group DN, as an array key, minus each
      value that the member attribute of some group lists. Keys are compared
      verbatim, so a member value that differs from a group DN in letter case
      does not remove it. */
  function RootGroups(dir: Dir): (r: seq<Dn>)
    ensures forall d :: d in r <==> d in GroupDns(dir) && !Listed(dir, GroupDns(dir), d)
    ensures forall i, j :: 0 <= i < j < |r| ==> r[i] != r[j]
  {
    var all := Dedup(GroupDns(dir));
    Unlisted(dir, all, all)
  }

  /** In a valid directory the roots are exactly the group DNs that no
      group's member values contain. */
  lemma RootGroupsExact(dir: Dir, d: Dn)
    requires Directory.Valid(dir)
    ensures d in RootGroups(dir) <==>
              && dir.online
              && (exists e :: e in dir.entries && e.objectClass == GroupClass && e.dn == d)
              && !(exists g :: g in dir.entries && g.objectClass == GroupClass && d in g.members)
  {
    ListedIffListedByGroup(dir, d);
  }

  /** Scanning all group DNs finds `d` exactly when some group lists it. */
  lemma ListedIffListedByGroup(dir: Dir, d: Dn)
    requires Directory.Valid(dir)
    ensures Listed(dir, GroupDns(dir), d) <==> dir.online && exists g :: g in dir.entries && g.objectClass == GroupClass && d in g.members
  {
    var all := GroupDns(dir);
    if Listed(dir, all, d) {
      var s :| s in all && d in MembersAt(dir, s);
      var g :| g in dir.entries && g.objectClass == GroupClass && g.dn == s;
      EntriesAtStored(dir, g);
      assert d in g.members;
    }
    if dir.online && exists g :: g in dir.entries && g.objectClass == GroupClass && d in g.members {
      var g :| g in dir.entries && g.objectClass == GroupClass && d in g.members;
      EntriesAtStored(dir, g);
      assert g.dn in all && d in MembersAt(dir, g.dn);
    }
  }

  /** The hits of a search based at each DN of `ds`, concatenated in order. */
  function RefsAt(dir: Dir, ds: seq<Dn>): seq<GroupRef> {
    if |ds| == 0 then [] else SearchGroups(dir, ds[0], ByDn) + RefsAt(dir, ds[1..])
  }

  /** Searching at the DN of a group entry finds just that group, so in a valid
      directory there is one hit per DN, in the same order, when the escaping
      leaves those DNs as they are. */
  lemma RefsAtGroupDns(dir: Dir, ds: seq<Dn>)
    requires Directory.Valid(dir) && dir.online
    requires forall d :: d in ds ==> EscapeKeeps(dir, d) && exists e :: e in dir.entries && e.objectClass == GroupClass && e.dn == d
    ensures |RefsAt(dir, ds)| == |ds|
    ensures forall i :: 0 <= i < |ds| ==> HitAt(dir, ds[i], RefsAt(dir, ds)[i])
  {
    forall d | d in ds
      ensures OneHit(dir, d)
    {
      var e :| e in dir.entries && e.objectClass == GroupClass && e.dn == d;
      SearchByDnStored(dir, e, d);
    }
    RefsAtLength(dir, ds);
    forall i | 0 <= i < |ds|
      ensures HitAt(dir, ds[i], RefsAt(dir, ds)[i])
    {
      RefsAtIndex(dir, ds, i);
    }
  }

  /** `ref` is the hit for the directory group with DN `d`. */
  ghost predicate HitAt(dir: Dir, d: Dn, ref: GroupRef) {
    exists e :: e in dir.entries && e.objectClass == GroupClass && e.dn == d && ref == RefOf(e)
  }

  /** A search based at `d` finds exactly the directory group with that DN. */
  ghost predicate OneHit(dir: Dir, d: Dn) {
    exists e :: e in dir.entries && e.objectClass == GroupClass && e.dn == d && SearchGroups(dir, d, ByDn) == [RefOf(e)]
  }

  lemma {:induction false} RefsAtLength(dir: Dir, ds: seq<Dn>)
    requires forall d :: d in ds ==> OneHit(dir, d)
    ensures |RefsAt(dir, ds)| == |ds|
  {
    if |ds| > 0 {
      assert ds[0] in ds;
      assert forall d :: d in ds[1..] ==> d in ds;
      RefsAtLength(dir, ds[1..]);
    }
  }

  lemma {:induction false} RefsAtIndex(dir: Dir, ds: seq<Dn>, i: int)
    requires (forall d :: d in ds ==> OneHit(dir, d)) && 0 <= i < |ds|
    ensures |RefsAt(dir, ds)| == |ds|
    ensures exists e :: e in dir.entries && e.objectClass == GroupClass && e.dn == ds[i] && RefsAt(dir, ds)[i] == RefOf(e)
  {
    RefsAtLength(dir, ds);
    assert ds[0] in ds;
    var e :| e in dir.entries && e.objectClass == GroupClass && e.dn == ds[0] && SearchGroups(dir, ds[0], ByDn) == [RefOf(e)];
    var r := RefsAt(dir, ds);
    var rest := RefsAt(dir, ds[1..]);
    assert r == [RefOf(e)] + rest;
    if i == 0 {
      assert r[0] == RefOf(e);
    } else {
      assert forall d :: d in ds[1..] ==> d in ds;
      RefsAtIndex(dir, ds[1..], i - 1);
      assert r[i] == rest[i - 1] && ds[i] == ds[1..][i - 1];
    }
  }

  /** `name` is the name of one of the hits. */
  predicate NamedIn(refs: seq<GroupRef>, name: string) {
    exists g :: g in refs && g.cn == name
  }

  /** `a` is `b` with some elements left out, the rest in their order. */
  predicate Subsequence<T(==)>(a: seq<T>, b: seq<T>)
    decreases |b|
  {
    |a| == 0 || (|b| > 0 && if a[0] == b[0] then Subsequence(a[1..], b[1..]) else Subsequence(a, b[1..]))
  }

  /** The local groups whose names no directory hit carries, in order: each
      unshadowed group occurs as often as in the local list, a shadowed one
      not at all. */
  function Unshadowed(groups: seq<Group>, refs: seq<GroupRef>): (r: seq<Group>)
    ensures forall g :: g in r <==> g in groups && !NamedIn(refs, g.name)
    ensures refs == [] ==> r == groups
  {
    if |groups| == 0 then []
    else
      assert forall g :: g in groups <==> g == groups[0] || g in groups[1..];
      var rest := Unshadowed(groups[1..], refs);
      assert refs == [] ==> [groups[0]] + rest == groups;
      if NamedIn(refs, groups[0].name) then rest else [groups[0]] + rest
  }

  /** The unshadowed groups keep the local order, and each occurs as often as
      in the local list, a shadowed one not at all. */
  lemma {:induction false} UnshadowedOrder(groups: seq<Group>, refs: seq<GroupRef>)
    ensures var r := Unshadowed(groups, refs);
            && Subsequence(r, groups)
            && forall g :: multiset(r)[g] == if NamedIn(refs, g.name) then 0 else multiset(groups)[g]
  {
    if |groups| > 0 {
      var r := Unshadowed(groups, refs);
      var rest := Unshadowed(groups[1..], refs);
      UnshadowedOrder(groups[1..], refs);
      assert groups == [groups[0]] + groups[1..];
      if NamedIn(refs, groups[0].name) {
        assert |rest| > 0 ==> rest[0] in rest && rest[0] != groups[0];
      } else {
        assert r[1..] == rest;
      }
    }
  }

  /** getGroups: the directory groups of the roots, then the unshadowed local groups. */
  function GetGroups(dir: Dir, local: Local, t: MapTable): (r: Threaded<seq<Group>>)
    ensures var refs := RefsAt(dir, RootGroups(dir));
            && |refs| <= |r.value|
            && (forall i :: 0 <= i < |refs| ==>
                  && r.value[i].origin == Ldap && r.value[i].name == refs[i].cn && r.value[i].id > LdapMappingBase
                  && DnForId(r.table, r.value[i].id) == Some(ToLower(refs[i].dn)))
            && (forall g :: g in r.value[|refs|..] <==> g in local.groups && !NamedIn(refs, g.name))
    ensures !dir.online ==> r == Threaded(local.groups, t)
    ensures Extends(t, r.table) && (IdMapper.Valid(t) ==> IdMapper.Valid(r.table))
    ensures AddsOnly(t, r.table, HitDns(RefsAt(dir, RootGroups(dir))))
  {
    var refs := RefsAt(dir, RootGroups(dir));
    var ldap := CreateAll(t, refs);
    var rest := Unshadowed(local.groups, refs);
    assert (ldap.value + rest)[|refs|..] == rest;
    Threaded(ldap.value + rest, ldap.table)
  }

  /** After the directory groups, getGroups lists the unshadowed local groups
      in the order the local store gives them, each as often as it gives it. */
  lemma GetGroupsLocalPart(dir: Dir, local: Local, t: MapTable)
    ensures var refs := RefsAt(dir, RootGroups(dir));
            var r := GetGroups(dir, local, t);
            && |refs| <= |r.value|
            && r.value[|refs|..] == Unshadowed(local.groups, refs)
            && Subsequence(r.value[|refs|..], local.groups)
            && forall g :: multiset(r.value[|refs|..])[g] == if NamedIn(refs, g.name) then 0 else multiset(local.groups)[g]
  {
    var refs := RefsAt(dir, RootGroups(dir));
    var ldap := CreateAll(t, refs);
    var rest := Unshadowed(local.groups, refs);
    assert (ldap.value + rest)[|refs|..] == rest;
    UnshadowedOrder(local.groups, refs);
  }

  /** In a valid directory getGroups starts with one directory group per root,
      in root order, carrying that group's name and an ID that maps back to its
      DN, when the escaping leaves group DNs as they are. */
  lemma GetGroupsOnePerRoot(dir: Dir, local: Local, t: MapTable)
    requires Directory.Valid(dir)
    requires forall e :: e in dir.entries && e.objectClass == GroupClass ==> EscapeKeeps(dir, e.dn)
    ensures var roots := RootGroups(dir);
            var r := GetGroups(dir, local, t);
            && |roots| <= |r.value|
            && forall i :: 0 <= i < |roots| ==> RootGroupAt(dir, roots[i], r.value[i], r.table)
  {
    var roots := RootGroups(dir);
    var refs := RefsAt(dir, roots);
    var r := GetGroups(dir, local, t);
    if dir.online {
      RootsAreGroupDns(dir);
      RefsAtGroupDns(dir, roots);
    } else {
      NoRootsOffline(dir);
    }
    assert |refs| == |roots|;
    assert |refs| <= |r.value|;
    assert forall i :: 0 <= i < |refs| ==>
             r.value[i].origin == Ldap && r.value[i].name == refs[i].cn && DnForId(r.table, r.value[i].id) == Some(ToLower(refs[i].dn));
    OnePerRef(dir, roots, refs, r.value, r.table);
  }

  /** An offline directory has no roots. */
  lemma NoRootsOffline(dir: Dir)
    requires !dir.online
    ensures RootGroups(dir) == []
  {
  }

  /** `g` is the directory group with DN `root`: it carries that group's name
      and an ID that maps back to its DN. */
  ghost predicate RootGroupAt(dir: Dir, root: Dn, g: Group, table: MapTable) {
    exists e :: && e in dir.entries && e.objectClass == GroupClass && e.dn == root
                && g == Group(g.id, e.name, Ldap)
                && DnForId(table, g.id) == Some(ToLower(e.dn))
  }

  /** Groups made from one hit per root, each hit being the group at its root,
      are one directory group per root, in root order. */
  lemma OnePerRef(dir: Dir, roots: seq<Dn>, refs: seq<GroupRef>, gs: seq<Group>, table: MapTable)
    requires |refs| == |roots| <= |gs|
    requires forall i :: 0 <= i < |roots| ==> HitAt(dir, roots[i], refs[i])
    requires forall i :: 0 <= i < |refs| ==>
               gs[i].origin == Ldap && gs[i].name == refs[i].cn && DnForId(table, gs[i].id) == Some(ToLower(refs[i].dn))
    ensures forall i :: 0 <= i < |roots| ==> RootGroupAt(dir, roots[i], gs[i], table)
  {
    forall i | 0 <= i < |roots|
      ensures RootGroupAt(dir, roots[i], gs[i], table)
    {
      assert i < |refs| && gs[i].name == refs[i].cn;
      var e :| e in dir.entries && e.objectClass == GroupClass && e.dn == roots[i] && refs[i] == RefOf(e);
      assert refs[i].dn == e.dn && refs[i].cn == e.name;
      assert gs[i] == Group(gs[i].id, e.name, Ldap);
    }
  }

  /** Every root is the DN of a group entry, so the escaping keeps it when it
      keeps all group DNs. */
  lemma RootsAreGroupDns(dir: Dir)
    requires forall e :: e in dir.entries && e.objectClass == GroupClass ==> EscapeKeeps(dir, e.dn)
    ensures forall d :: d in RootGroups(dir) ==>
              EscapeKeeps(dir, d) && exists e :: e in dir.entries && e.objectClass == GroupClass && e.dn == d
  {
    forall d | d in RootGroups(dir)
      ensures EscapeKeeps(dir, d) && exists e :: e in dir.entries && e.objectClass == GroupClass && e.dn == d
    {
      assert d in GroupDns(dir);
      var e :| e in dir.entries && e.objectClass == GroupClass && e.dn == d;
    }
  }
}
