/**
 * The DN-to-ID mapper: an append-only table that gives every directory group
 * DN a synthetic group ID above the local ID space.
 */
module IdMapper {
  import opened Wrappers
  import opened Text
  import opened Types

  /** The persisted mapping table: rows[k] is the DN stored under the
      auto-increment row id k + 1. Rows are only ever appended. */
  datatype MapTable = MapTable(rows: seq<Dn>)

  /** A result together with the mapping table as it stands after the call. */
  datatype Threaded<T> = Threaded(value: T, table: MapTable)

  /** The table invariant: stored DNs are lower-case and pairwise distinct. */
  predicate Valid(t: MapTable) {
    && (forall k :: 0 <= k < |t.rows| ==> IsLower(t.rows[k]))
    && (forall j, k :: 0 <= j < k < |t.rows| ==> t.rows[j] != t.rows[k])
  }

  /** `t'` is `t` with zero or more rows appended. */
  predicate Extends(t: MapTable, t': MapTable) {
    t.rows <= t'.rows
  }

  /** `x` is the lower-cased form of one of the DNs `ds`. */
  ghost predicate LowerOf(x: Dn, ds: set<Dn>) {
    exists d :: d in ds && x == ToLower(d)
  }

  /** `t'` is `t` with rows appended, each the lower-cased form of one of the
      DNs `ds`: the only rows a lookup of those DNs may add. */
  ghost predicate AddsOnly(t: MapTable, t': MapTable, ds: set<Dn>) {
    && Extends(t, t')
    && forall k :: |t.rows| <= k < |t'.rows| ==> LowerOf(t'.rows[k], ds)
  }

  /** The DNs of a list, as a set. */
  ghost function DnSet(ds: seq<Dn>): set<Dn> {
    set d | d in ds
  }

  /** Two calls in a row add only rows for DNs that either call may add. */
  lemma AddsOnlyTrans(t1: MapTable, t2: MapTable, t3: MapTable, ds1: set<Dn>, ds2: set<Dn>, ds: set<Dn>)
    requires AddsOnly(t1, t2, ds1) && AddsOnly(t2, t3, ds2) && ds1 <= ds && ds2 <= ds
    ensures AddsOnly(t1, t3, ds)
  {
    forall k | |t1.rows| <= k < |t3.rows|
      ensures LowerOf(t3.rows[k], ds)
    {
      if k < |t2.rows| {
        assert t3.rows[k] == t2.rows[k];
        var d :| d in ds1 && t2.rows[k] == ToLower(d);
      } else {
        assert LowerOf(t3.rows[k], ds2);
      }
    }
  }

  /** Rows allowed for some DNs are allowed for more. */
  lemma AddsOnlyWider(t: MapTable, t': MapTable, ds: set<Dn>, ds': set<Dn>)
    requires AddsOnly(t, t', ds) && ds <= ds'
    ensures AddsOnly(t, t', ds')
  {
    forall k | |t.rows| <= k < |t'.rows|
      ensures LowerOf(t'.rows[k], ds')
    {
      assert LowerOf(t'.rows[k], ds);
      var d :| d in ds && t'.rows[k] == ToLower(d);
      assert d in ds';
    }
  }

  /** The row ids (1-based, increasing) of the rows whose dn column equals `d`. */
  function RowIds(rows: seq<Dn>, d: Dn): (ids: seq<int>)
    ensures forall k :: k in ids <==> 1 <= k <= |rows| && rows[k - 1] == d
    ensures forall i, j :: 0 <= i < j < |ids| ==> ids[i] < ids[j]
    ensures forall i :: 0 <= i < |ids| ==> 1 <= ids[i] <= |rows|
  {
    if |rows| == 0 then []
    else RowIds(rows[..|rows| - 1], d) + (if rows[|rows| - 1] == d then [|rows|] else [])
  }

  /** The SELECT by dn: a group ID only when exactly one row matches. */
  function Select(t: MapTable, d: Dn): (r: Option<int>)
    ensures r.Some? ==> LdapMappingBase < r.value <= LdapMappingBase + |t.rows| && t.rows[r.value - LdapMappingBase - 1] == d
  {
    var ids := RowIds(t.rows, d);
    if |ids| == 1 then
      assert ids[0] in ids;
      Some(ids[0] + LdapMappingBase)
    else None
  }

  /** The SELECT yields an ID exactly when one row, and no other, holds `d`. */
  lemma SelectOneRow(t: MapTable, d: Dn)
    ensures Select(t, d).Some? <==>
              exists k :: 0 <= k < |t.rows| && t.rows[k] == d && forall j :: 0 <= j < |t.rows| && t.rows[j] == d ==> j == k
  {
    if Select(t, d).Some? {
      SelectUniqueRow(t, d);
    }
    if exists k :: 0 <= k < |t.rows| && t.rows[k] == d && forall j :: 0 <= j < |t.rows| && t.rows[j] == d ==> j == k {
      var k :| 0 <= k < |t.rows| && t.rows[k] == d && forall j :: 0 <= j < |t.rows| && t.rows[j] == d ==> j == k;
      OneRowId(t.rows, d, k);
    }
  }

  /** The row a SELECT hit names is the only row that holds `d`. */
  lemma SelectUniqueRow(t: MapTable, d: Dn)
    requires Select(t, d).Some?
    ensures var k := Select(t, d).value - LdapMappingBase - 1;
            0 <= k < |t.rows| && t.rows[k] == d && forall j :: 0 <= j < |t.rows| && t.rows[j] == d ==> j == k
  {
    var ids := RowIds(t.rows, d);
    var k := ids[0] - 1;
    assert ids[0] in ids;
    forall j | 0 <= j < |t.rows| && t.rows[j] == d
      ensures j == k
    {
      assert j + 1 in ids;
    }
  }

  /** A DN held by row k + 1 alone has that row id alone. */
  lemma {:induction false} OneRowId(rows: seq<Dn>, d: Dn, k: int)
    requires 0 <= k < |rows| && rows[k] == d && forall j :: 0 <= j < |rows| && rows[j] == d ==> j == k
    ensures RowIds(rows, d) == [k + 1]
  {
    var prefix := rows[..|rows| - 1];
    if k == |rows| - 1 {
      assert forall x :: x in prefix ==> x != d by {
        forall x | x in prefix ensures x != d {
          var j :| 0 <= j < |prefix| && prefix[j] == x;
          assert rows[j] == x;
        }
      }
      NoRowIds(prefix, d);
    } else {
      assert forall j :: 0 <= j < |prefix| && prefix[j] == d ==> j == k by {
        forall j | 0 <= j < |prefix| && prefix[j] == d ensures j == k {
          assert rows[j] == d;
        }
      }
      OneRowId(prefix, d, k);
    }
  }

  /** getGroupIDForDN: lower-case the DN, look it up, and append a row for it
      when it is missing and `addDn` is set. */
  function IdForDn(t: MapTable, dn: Dn, addDn: bool): (r: Threaded<Option<int>>)
    ensures Extends(t, r.table)
    ensures addDn ==> r.value.Some?
    ensures r.value.Some? ==> r.value.value > LdapMappingBase
    ensures r.value.Some? ==> DnForId(r.table, r.value.value) == Some(ToLower(dn))
    ensures Valid(t) ==> Valid(r.table) && Select(r.table, ToLower(dn)) == r.value
  {
    ToLowerNormalizes(dn);
    LookupRow(t, ToLower(dn), addDn)
  }

  /** The only row getGroupIDForDN may add is the lower-cased DN it was given. */
  lemma IdForDnAddsOnly(t: MapTable, dn: Dn, addDn: bool)
    ensures AddsOnly(t, IdForDn(t, dn, addDn).table, {dn})
  {
    ToLowerNormalizes(dn);
    assert LowerOf(ToLower(dn), {dn}) by { assert dn in {dn}; }
  }

  /** The lookup of an already lower-cased DN, appending it when asked. */
  function LookupRow(t: MapTable, d: Dn, addDn: bool): (r: Threaded<Option<int>>)
    requires IsLower(d)
    ensures Extends(t, r.table)
    ensures addDn ==> r.value.Some?
    ensures r.value.Some? ==> r.value.value > LdapMappingBase
    ensures r.value.Some? ==> DnForId(r.table, r.value.value) == Some(d)
    ensures Valid(t) ==> Valid(r.table) && Select(r.table, d) == r.value
    ensures r.table == t || r.table.rows == t.rows + [d]
  {
    var found := Select(t, d);
    if found.Some? then
      SelectHit(t, d);
      Threaded(found, t)
    else if addDn then
      AddedRow(t, d);
      Threaded(Some(|t.rows| + 1 + LdapMappingBase), MapTable(t.rows + [d]))
    else
      Threaded(None, t)
  }

  /** A lower-case DN that selects nothing, once appended, selects the new row. */
  lemma AddedRow(t: MapTable, d: Dn)
    requires IsLower(d) && Select(t, d) == None
    ensures var t' := MapTable(t.rows + [d]);
            var id := |t.rows| + 1 + LdapMappingBase;
            && DnForId(t', id) == Some(d)
            && (Valid(t) ==> Valid(t') && Select(t', d) == Some(id))
  {
    NotStoredSelectsNothing(t, d);
    AppendRow(t, d);
  }

  /** What getGroupIDForDN does to the table: a stored DN leaves it as it is;
      a missing one is appended as the next row when `addDn` is set, and is
      otherwise reported missing with the table unchanged. */
  lemma IdForDnTable(t: MapTable, dn: Dn, addDn: bool)
    requires Valid(t)
    ensures var r := IdForDn(t, dn, addDn);
            && (ToLower(dn) in t.rows ==> r.table == t && r.value.Some?)
            && (ToLower(dn) !in t.rows && addDn ==>
                  r.table.rows == t.rows + [ToLower(dn)] && r.value == Some(LdapMappingBase + |t.rows| + 1))
            && (ToLower(dn) !in t.rows && !addDn ==> r == Threaded(None, t))
  {
    NotStoredSelectsNothing(t, ToLower(dn));
  }

  /** getGroupDNForID: the DN stored under row id `id - LdapMappingBase`, if any. */
  function DnForId(t: MapTable, id: int): (r: Option<Dn>)
    ensures id <= LdapMappingBase ==> r == None
    ensures r.Some? <==> LdapMappingBase < id <= LdapMappingBase + |t.rows|
    ensures r.Some? ==> r.value in t.rows
  {
    if id < LdapMappingBase then None
    else
      var rowId := id - LdapMappingBase;
      if 1 <= rowId <= |t.rows| then Some(t.rows[rowId - 1]) else None
  }

  /** A selected ID names a row that holds `d`. */
  lemma SelectHit(t: MapTable, d: Dn)
    requires Select(t, d).Some?
    ensures DnForId(t, Select(t, d).value) == Some(d)
    ensures d in t.rows
  {
    var ids := RowIds(t.rows, d);
    assert ids[0] in ids;
  }

  /** In a valid table every stored DN selects its own row. */
  lemma SelectStored(t: MapTable, k: int)
    requires Valid(t) && 0 <= k < |t.rows|
    ensures Select(t, t.rows[k]) == Some(LdapMappingBase + k + 1)
  {
    var ids := RowIds(t.rows, t.rows[k]);
    assert k + 1 in ids;
    AtMostOneRowId(t.rows, t.rows[k]);
    assert ids == [k + 1];
  }

  /** In a valid table a DN that is not stored selects nothing, and one that
      selects nothing is not stored. */
  lemma NotStoredSelectsNothing(t: MapTable, d: Dn)
    ensures Valid(t) ==> (d !in t.rows <==> Select(t, d) == None)
  {
    if Valid(t) && d !in t.rows {
      NoRowIds(t.rows, d);
    }
    if Valid(t) && d in t.rows {
      var k :| 0 <= k < |t.rows| && t.rows[k] == d;
      SelectStored(t, k);
    }
  }

  /** Rows without repetitions hold any DN at most once. */
  lemma {:induction false} AtMostOneRowId(rows: seq<Dn>, d: Dn)
    requires forall j, k :: 0 <= j < k < |rows| ==> rows[j] != rows[k]
    ensures |RowIds(rows, d)| <= 1
  {
    if |rows| > 0 {
      var prefix := rows[..|rows| - 1];
      AtMostOneRowId(prefix, d);
      if rows[|rows| - 1] == d {
        NoRowIds(prefix, d);
      }
    }
  }

  /** Appending a new row: the DN it holds selects the new row id. */
  lemma AppendRow(t: MapTable, d: Dn)
    ensures var t' := MapTable(t.rows + [d]);
            && Select(t', d) == (if d in t.rows then None else Some(|t'.rows| + LdapMappingBase))
            && (Valid(t) && IsLower(d) && d !in t.rows ==> Valid(t'))
  {
    var t' := MapTable(t.rows + [d]);
    assert t'.rows[..|t'.rows| - 1] == t.rows;
    assert RowIds(t'.rows, d) == RowIds(t.rows, d) + [|t'.rows|];
    NoRowIds(t.rows, d);
    if d in t.rows {
      var k :| 0 <= k < |t.rows| && t.rows[k] == d;
      assert k + 1 in RowIds(t.rows, d);
    }
  }

  /** A DN that is not stored has no row ids. */
  lemma {:induction false} NoRowIds(rows: seq<Dn>, d: Dn)
    ensures d !in rows ==> RowIds(rows, d) == []
  {
    if |rows| > 0 && d !in rows {
      var prefix := rows[..|rows| - 1];
      assert forall k :: 0 <= k < |prefix| ==> prefix[k] == rows[k];
      NoRowIds(prefix, d);
      assert rows[|rows| - 1] in rows;
    }
  }

  /** Appending rows keeps every ID a valid table already selects. */
  lemma SelectStable(t: MapTable, t': MapTable, d: Dn)
    requires Valid(t') && Extends(t, t') && Select(t, d).Some?
    ensures Select(t', d) == Select(t, d)
  {
    SelectHit(t, d);
    var k := Select(t, d).value - LdapMappingBase - 1;
    assert t'.rows[k] == t.rows[k] == d;
    SelectStored(t', k);
  }

  /** Case-insensitivity: DNs that differ only in letter case get the same ID
      and leave the same table. */
  lemma IdForDnIgnoresCase(t: MapTable, a: Dn, b: Dn, addDn: bool)
    requires EqualIgnoringCase(a, b)
    ensures IdForDn(t, a, addDn) == IdForDn(t, b, addDn)
  {
    EqualIgnoringCaseIffSameLower(a, b);
  }

  /** Idempotence: once a DN has been given an ID, asking again (with or
      without allocation) returns that ID and leaves the table unchanged. */
  lemma IdForDnIdempotent(t: MapTable, dn: Dn, addDn: bool)
    requires Valid(t)
    ensures var first := IdForDn(t, dn, true);
            IdForDn(first.table, dn, addDn) == first
  {
    var first := IdForDn(t, dn, true);
    var d := ToLower(dn);
    SelectHit(first.table, d);
  }

  /** Round trip from IDs: in a valid table, the DN stored under an ID maps
      back to that same ID without changing the table. */
  lemma DnForIdRoundTrip(t: MapTable, id: int, addDn: bool)
    requires Valid(t) && DnForId(t, id).Some?
    ensures IdForDn(t, DnForId(t, id).value, addDn) == Threaded(Some(id), t)
  {
    var k := id - LdapMappingBase - 1;
    var d := t.rows[k];
    ToLowerNormalizes(d);
    SelectStored(t, k);
  }

  /** Appending rows never changes the DN an existing ID stands for. */
  lemma DnForIdStable(t: MapTable, t': MapTable, id: int)
    requires Extends(t, t') && DnForId(t, id).Some?
    ensures DnForId(t', id) == DnForId(t, id)
  {
    assert t'.rows[id - LdapMappingBase - 1] == t.rows[id - LdapMappingBase - 1];
  }

  /** The number of characters the dn column, a VARCHAR(255), holds. */
  const DnColumnWidth: nat := 255

  /** What the dn column keeps of a value written to it: a longer value is cut
      to the column width, as MySQL does outside strict mode. */
  function Column(d: Dn): (r: Dn)
    ensures |r| <= DnColumnWidth && r <= d
    ensures |d| <= DnColumnWidth ==> r == d
  {
    if |d| <= DnColumnWidth then d else d[..DnColumnWidth]
  }

  /** getGroupIDForDN as the source writes it. The SELECT puts the lower-cased
      DN into the query text without escaping it, so the column is compared with
      `read(d)`, the string the database reads from the literal '<d>'. The INSERT
      escapes its value, and the column keeps what Column keeps of it. */
  function IdForDnAsWritten(t: MapTable, read: string -> string, dn: Dn, addDn: bool): (r: Threaded<Option<int>>)
    ensures Extends(t, r.table)
    ensures addDn ==> r.value.Some?
    ensures r.value.Some? ==> r.value.value > LdapMappingBase && DnForId(r.table, r.value.value).Some?
    ensures r.table != t ==> r.table.rows == t.rows + [Column(ToLower(dn))] && r.value == Some(LdapMappingBase + |r.table.rows|)
  {
    var d := ToLower(dn);
    var found := Select(t, read(d));
    if found.Some? then Threaded(found, t)
    else if addDn then Threaded(Some(|t.rows| + 1 + LdapMappingBase), MapTable(t.rows + [Column(d)]))
    else Threaded(None, t)
  }

  /** When the literal reads back as the DN itself and the column holds the DN
      whole, the lookup as written is the lookup of IdForDn. */
  lemma AsWrittenAgrees(t: MapTable, read: string -> string, dn: Dn, addDn: bool)
    requires read(ToLower(dn)) == ToLower(dn) && |dn| <= DnColumnWidth
    ensures IdForDnAsWritten(t, read, dn, addDn) == IdForDn(t, dn, addDn)
  {
    ToLowerNormalizes(dn);
  }

  /** The lookup as written is not idempotent: when the literal reads as a
      string that neither is stored nor is what the column keeps of the DN,
      every call stores the DN again under a new ID. */
  lemma AsWrittenAddsAgain(t: MapTable, read: string -> string, dn: Dn)
    requires read(ToLower(dn)) !in t.rows + [Column(ToLower(dn))]
    ensures var first := IdForDnAsWritten(t, read, dn, true);
            var second := IdForDnAsWritten(first.table, read, dn, true);
            && first.value == Some(LdapMappingBase + |t.rows| + 1)
            && second.value == Some(LdapMappingBase + |t.rows| + 2)
            && second.table.rows == t.rows + [Column(ToLower(dn)), Column(ToLower(dn))]
  {
    var t1 := MapTable(t.rows + [Column(ToLower(dn))]);
    AsWrittenAppends(t, read, dn);
    AsWrittenAppends(t1, read, dn);
  }

  /** A DN whose literal reads as no stored string is appended as the next row. */
  lemma AsWrittenAppends(t: MapTable, read: string -> string, dn: Dn)
    requires read(ToLower(dn)) !in t.rows
    ensures IdForDnAsWritten(t, read, dn, true) ==
              Threaded(Some(LdapMappingBase + |t.rows| + 1), MapTable(t.rows + [Column(ToLower(dn))]))
  {
    NoRowIds(t.rows, read(ToLower(dn)));
  }

  /** An instance: a DN with an escaped comma, read the way MySQL reads the
      literal by default (the backslash dropped), gets two IDs from two calls. */
  lemma EscapedCommaAddedTwice(read: string -> string)
    requires read(ToLower("cn=smith\\, john")) == "cn=smith, john"
    ensures var first := IdForDnAsWritten(MapTable([]), read, "cn=smith\\, john", true);
            var second := IdForDnAsWritten(first.table, read, "cn=smith\\, john", true);
            first.value != second.value && |second.table.rows| == 2
  {
    var dn := "cn=smith\\, john";
    assert |Column(ToLower(dn))| == |dn| == 15;
    AsWrittenAddsAgain(MapTable([]), read, dn);
  }
}
