/**
 * The read-only directory and the group searches the resolver issues
 * against it (searchLDAPGroups and searchGroupMembers).
 */
module Directory {
  import opened Wrappers
  import opened Text
  import opened Types

  datatype ObjectClass = GroupClass | UserClass | OtherClass

  /** One directory entry: its DN, the value of its name attribute, the values of
      its membership attribute (as read after the leading count slot that the
      LDAP client puts in front of them has been dropped) and its object class. */
  datatype Entry = Entry(dn: Dn, name: string, members: seq<Dn>, objectClass: ObjectClass)

  /** The directory in the order the server returns entries. `online` is false
      when the connection cannot be used: every search then returns nothing.
      `escape` is the authentication plugin's getLdapEscapedString, which
      searchLDAPGroups applies to every value except the probe "*". */
  datatype Dir = Dir(online: bool, entries: seq<Entry>, escape: string -> string)

  /** The four search modes of searchLDAPGroups. */
  datatype SearchMode = AsMember | ByName | ByDn | ByNameFilter

  /** One search hit as the resolver keeps it: the group's name and DN. */
  datatype GroupRef = GroupRef(cn: string, dn: Dn)

  function RefOf(e: Entry): GroupRef {
    GroupRef(e.name, e.dn)
  }

  /** A syntactically possible DN: it has at least one attribute=value part. */
  predicate WellFormedDn(d: Dn) {
    '=' in d
  }

  /** Every DN of the directory is well formed. */
  predicate WellFormedDns(dir: Dir) {
    forall i :: 0 <= i < |dir.entries| ==> WellFormedDn(dir.entries[i].dn)
  }

  /** What the directory itself guarantees: DNs are well formed and no two
      entries have DNs that match under the (case-insensitive) DN matching rule. */
  predicate Valid(dir: Dir) {
    && WellFormedDns(dir)
    && (forall i, j :: 0 <= i < j < |dir.entries| ==> ToLower(dir.entries[i].dn) != ToLower(dir.entries[j].dn))
  }

  /** `value` occurs among `values` under case-insensitive matching. */
  predicate ListsValue(values: seq<string>, value: string) {
    exists m :: m in values && ToLower(m) == ToLower(value)
  }

  /** The filter each search mode builds, applied to one entry. Every mode
      restricts to the group object class. The probe "*" is passed on
      unescaped, so it turns the equality and substring filters into presence
      filters. A search based at a DN returns the entry with that DN only
      (group entries are leaves of the directory tree). */
  predicate Matches(value: string, mode: SearchMode, e: Entry) {
    && e.objectClass == GroupClass
    && match mode
       case AsMember => if value == "*" then |e.members| > 0 else ListsValue(e.members, value)
       case ByName => value == "*" || ToLower(e.name) == ToLower(value)
       case ByNameFilter => value == "*" || IsSubstring(ToLower(value), ToLower(e.name))
       case ByDn => ToLower(e.dn) == ToLower(value)
  }

  /** The hits among `es` for one filter, in order. */
  function SelectGroups(es: seq<Entry>, value: string, mode: SearchMode): (r: seq<GroupRef>)
    ensures |r| <= |es|
    ensures forall g :: g in r <==> exists e :: e in es && Matches(value, mode, e) && g == RefOf(e)
  {
    if |es| == 0 then []
    else
      var rest := SelectGroups(es[1..], value, mode);
      assert forall e :: e in es <==> e == es[0] || e in es[1..];
      (if Matches(value, mode, es[0]) then [RefOf(es[0])] else []) + rest
  }

  /** The value searchLDAPGroups puts into its query. In the three filter
      modes the escaped value is an assertion value that stands for the value
      itself, so matching uses the value as given. In BY_DN mode the escaped
      string becomes the search base as it is. */
  function QueryValue(dir: Dir, value: string, mode: SearchMode): string {
    if mode == ByDn && value != "*" then dir.escape(value) else value
  }

  /** The escaping leaves `d` as it is, as it does for a DN that has none of the
      characters an LDAP filter value must escape. */
  predicate EscapeKeeps(dir: Dir, d: Dn) {
    dir.escape(d) == d
  }

  /** searchLDAPGroups: one directory search in the given mode. */
  function SearchGroups(dir: Dir, value: string, mode: SearchMode): (r: seq<GroupRef>)
    ensures !dir.online ==> r == []
    ensures forall g :: g in r <==> dir.online && exists e :: e in dir.entries && Matches(QueryValue(dir, value, mode), mode, e) && g == RefOf(e)
  {
    if dir.online then SelectGroups(dir.entries, QueryValue(dir, value, mode), mode) else []
  }

  /** The DNs of a list of hits, as a set. */
  ghost function HitDns(refs: seq<GroupRef>): set<Dn> {
    set g | g in refs :: g.dn
  }

  /** The hit DNs of a non-empty list: the first hit's DN and those of the rest. */
  lemma HitDnsCons(refs: seq<GroupRef>)
    requires |refs| > 0
    ensures {refs[0].dn} <= HitDns(refs) && HitDns(refs[1..]) <= HitDns(refs)
  {
    assert refs[0] in refs;
    assert forall g :: g in refs[1..] ==> g in refs;
  }

  /** The DNs of a list of entries, as a set. */
  ghost function EntryDns(es: seq<Entry>): set<Dn> {
    set e | e in es :: e.dn
  }

  /** The entry DNs of a non-empty list: the first entry's DN and those of the rest. */
  lemma EntryDnsCons(es: seq<Entry>)
    requires |es| > 0
    ensures {es[0].dn} <= EntryDns(es) && EntryDns(es[1..]) <= EntryDns(es)
  {
    assert es[0] in es;
    assert forall e :: e in es[1..] ==> e in es;
  }

  /** Some directory group satisfies the filter of `mode` for `value`. */
  predicate HasMatch(dir: Dir, value: string, mode: SearchMode) {
    dir.online && exists e :: e in dir.entries && Matches(QueryValue(dir, value, mode), mode, e)
  }

  /** A search is non-empty exactly when some directory group satisfies its filter. */
  lemma SearchNonEmptyIffMatch(dir: Dir, value: string, mode: SearchMode)
    ensures SearchGroups(dir, value, mode) != [] <==> HasMatch(dir, value, mode)
  {
    var r := SearchGroups(dir, value, mode);
    if r != [] {
      assert r[0] in r;
    }
    if HasMatch(dir, value, mode) {
      var e :| e in dir.entries && Matches(QueryValue(dir, value, mode), mode, e);
      assert RefOf(e) in r;
    }
  }

  /** The entries a search based at `d` can return: those whose DN matches `d`. */
  function EntriesAt(dir: Dir, d: Dn): (r: seq<Entry>)
    ensures forall e :: e in r <==> dir.online && e in dir.entries && ToLower(e.dn) == ToLower(d)
  {
    if dir.online then EntriesWithDn(dir.entries, d) else []
  }

  function EntriesWithDn(es: seq<Entry>, d: Dn): (r: seq<Entry>)
    ensures forall e :: e in r <==> e in es && ToLower(e.dn) == ToLower(d)
  {
    if |es| == 0 then []
    else
      assert forall e :: e in es <==> e == es[0] || e in es[1..];
      (if ToLower(es[0].dn) == ToLower(d) then [es[0]] else []) + EntriesWithDn(es[1..], d)
  }

  /** In a valid directory, a search based at an entry's DN returns that entry alone. */
  lemma EntriesAtStored(dir: Dir, e: Entry)
    requires Valid(dir) && dir.online && e in dir.entries
    ensures EntriesAt(dir, e.dn) == [e]
  {
    EntriesWithDnUnique(dir.entries, e);
  }

  lemma {:induction false} EntriesWithDnUnique(es: seq<Entry>, e: Entry)
    requires forall i, j :: 0 <= i < j < |es| ==> ToLower(es[i].dn) != ToLower(es[j].dn)
    requires e in es
    ensures EntriesWithDn(es, e.dn) == [e]
  {
    var rest := EntriesWithDn(es[1..], e.dn);
    if es[0] == e {
      assert forall x :: x in es[1..] ==> ToLower(x.dn) != ToLower(e.dn);
      NoEntryWithDn(es[1..], e.dn);
    } else {
      var k :| 0 < k < |es| && es[k] == e;
      assert ToLower(es[0].dn) != ToLower(e.dn);
      EntriesWithDnUnique(es[1..], e);
    }
  }

  lemma {:induction false} NoEntryWithDn(es: seq<Entry>, d: Dn)
    requires forall x :: x in es ==> ToLower(x.dn) != ToLower(d)
    ensures EntriesWithDn(es, d) == []
  {
    if |es| > 0 {
      assert es[0] in es;
      NoEntryWithDn(es[1..], d);
    }
  }

  /** In a valid directory, searching by (any spelling of) a group's DN finds
      that group alone, when the escaping leaves that spelling as it is. */
  lemma SearchByDnStored(dir: Dir, e: Entry, d: Dn)
    requires Valid(dir) && dir.online && e in dir.entries && e.objectClass == GroupClass
    requires ToLower(d) == ToLower(e.dn) && EscapeKeeps(dir, d)
    ensures SearchGroups(dir, d, ByDn) == [RefOf(e)]
  {
    assert QueryValue(dir, d, ByDn) == d;
    SelectByDnUnique(dir.entries, e, d);
  }

  lemma {:induction false} SelectByDnUnique(es: seq<Entry>, e: Entry, d: Dn)
    requires forall i, j :: 0 <= i < j < |es| ==> ToLower(es[i].dn) != ToLower(es[j].dn)
    requires e in es && e.objectClass == GroupClass && ToLower(d) == ToLower(e.dn)
    ensures SelectGroups(es, d, ByDn) == [RefOf(e)]
  {
    if es[0] == e {
      assert forall x :: x in es[1..] ==> ToLower(x.dn) != ToLower(e.dn);
      NoSelectByDn(es[1..], d);
    } else {
      var k :| 0 < k < |es| && es[k] == e;
      assert ToLower(es[0].dn) != ToLower(e.dn);
      SelectByDnUnique(es[1..], e, d);
    }
  }

  lemma {:induction false} NoSelectByDn(es: seq<Entry>, d: Dn)
    requires forall x :: x in es ==> ToLower(x.dn) != ToLower(d)
    ensures SelectGroups(es, d, ByDn) == []
  {
    if |es| > 0 {
      assert es[0] in es;
      NoSelectByDn(es[1..], d);
    }
  }

  /** The entries of `es` of object class `cls`, in order. */
  function OfClass(es: seq<Entry>, cls: ObjectClass): (r: seq<Entry>)
    ensures forall x :: x in r <==> x in es && x.objectClass == cls
  {
    if |es| == 0 then []
    else
      assert forall e :: e in es <==> e == es[0] || e in es[1..];
      (if es[0].objectClass == cls then [es[0]] else []) + OfClass(es[1..], cls)
  }

  /** The member lookups of searchGroupMembers: for each member value, the first
      entry of class `cls` that a search based at that value returns. */
  function LookupMembers(dir: Dir, values: seq<Dn>, cls: ObjectClass): (r: seq<Entry>)
    ensures |r| <= |values|
    ensures forall x :: x in r ==> x in dir.entries && x.objectClass == cls && ListsValue(values, x.dn)
  {
    if |values| == 0 then []
    else
      var hits := OfClass(EntriesAt(dir, values[0]), cls);
      var rest := LookupMembers(dir, values[1..], cls);
      assert forall x :: ListsValue(values[1..], x) ==> ListsValue(values, x);
      if hits == [] then rest
      else
        assert hits[0] in hits;
        [hits[0]] + rest
  }

  /** The entries a group-membership read finds at `groupDn`: a group entry
      there that has at least one member value. */
  function HoldersAt(dir: Dir, groupDn: Dn): (r: seq<Entry>)
    ensures |r| <= |EntriesAt(dir, groupDn)|
    ensures forall x :: x in r <==> x in EntriesAt(dir, groupDn) && x.objectClass == GroupClass && |x.members| > 0
  {
    Holders(EntriesAt(dir, groupDn))
  }

  function Holders(es: seq<Entry>): (r: seq<Entry>)
    ensures |r| <= |es|
    ensures forall x :: x in r <==> x in es && x.objectClass == GroupClass && |x.members| > 0
  {
    if |es| == 0 then []
    else
      assert forall e :: e in es <==> e == es[0] || e in es[1..];
      (if es[0].objectClass == GroupClass && |es[0].members| > 0 then [es[0]] else []) + Holders(es[1..])
  }

  /** searchGroupMembers: read the member values of the group at `groupDn`, then
      look each value up as a user entry (kind UserMember) or as a group entry
      (any other kind). */
  function MemberEntries(dir: Dir, groupDn: Dn, kind: MemberKind): (r: seq<Entry>)
    ensures forall x :: x in r ==> x in dir.entries && x.objectClass == ClassFor(kind)
  {
    var holders := HoldersAt(dir, groupDn);
    var values := if holders == [] then [] else holders[0].members;
    LookupMembers(dir, values, ClassFor(kind))
  }

  /** The object class searchGroupMembers looks for. */
  function ClassFor(kind: MemberKind): ObjectClass {
    if kind == UserMember then UserClass else GroupClass
  }

  /** Completeness of the member lookups in a valid directory: every entry of
      the class looked for that one of the values names is found. */
  lemma {:induction false} LookupMembersComplete(dir: Dir, values: seq<Dn>, cls: ObjectClass, x: Entry)
    requires Valid(dir) && dir.online
    requires x in dir.entries && x.objectClass == cls && ListsValue(values, x.dn)
    ensures x in LookupMembers(dir, values, cls)
  {
    var hits := OfClass(EntriesAt(dir, values[0]), cls);
    if ToLower(values[0]) == ToLower(x.dn) {
      EntriesAtStored(dir, x);
      EqualLowerSameEntries(dir, values[0], x.dn);
      assert EntriesAt(dir, values[0]) == [x];
      assert [x][1..] == [];
      assert OfClass([x], cls) == [x] + OfClass([], cls);
      assert hits == [x];
    } else {
      var m :| m in values && ToLower(m) == ToLower(x.dn);
      assert m in values[1..];
      LookupMembersComplete(dir, values[1..], cls, x);
    }
  }

  /** A search based at a DN depends on the DN only up to letter case. */
  lemma EqualLowerSameEntries(dir: Dir, a: Dn, b: Dn)
    requires ToLower(a) == ToLower(b)
    ensures EntriesAt(dir, a) == EntriesAt(dir, b)
  {
    if dir.online {
      EqualLowerSameEntriesIn(dir.entries, a, b);
    }
  }

  lemma {:induction false} EqualLowerSameEntriesIn(es: seq<Entry>, a: Dn, b: Dn)
    requires ToLower(a) == ToLower(b)
    ensures EntriesWithDn(es, a) == EntriesWithDn(es, b)
  {
    if |es| > 0 {
      EqualLowerSameEntriesIn(es[1..], a, b);
    }
  }

  /** Group-member lookups return exactly the entries of the requested class
      named by the group's member values. */
  lemma MemberEntriesExact(dir: Dir, g: Entry, kind: MemberKind, x: Entry)
    requires Valid(dir) && dir.online && g in dir.entries && g.objectClass == GroupClass
    ensures x in MemberEntries(dir, g.dn, kind) <==>
              x in dir.entries && x.objectClass == ClassFor(kind) && ListsValue(g.members, x.dn)
  {
    EntriesAtStored(dir, g);
    var holders := HoldersAt(dir, g.dn);
    if |g.members| > 0 {
      assert g in holders;
      assert holders == [g] by {
        assert forall y :: y in holders ==> y == g;
        assert |holders| <= |EntriesAt(dir, g.dn)|;
      }
      if x in dir.entries && x.objectClass == ClassFor(kind) && ListsValue(g.members, x.dn) {
        LookupMembersComplete(dir, g.members, ClassFor(kind), x);
      }
    } else {
      assert holders == [] by {
        assert forall y :: y !in holders;
      }
    }
  }
}
