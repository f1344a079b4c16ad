/**
 * hasGroupMember: membership of a user or group in a group, answered by the
 * local store first and then by walking the member-of relation of the
 * directory upwards from the child's DN with a work list.
 */
module Membership {
  import opened Wrappers
  import opened Text
  import opened Types
  import opened IdMapper
  import opened Directory
  import opened LocalStore
  import opened Config

  /** `y` is the DN of a group that a member search for `x` reports. */
  ghost predicate IsParent(dir: Dir, x: Dn, y: Dn) {
    exists g :: g in SearchGroups(dir, x, AsMember) && g.dn == y
  }

  /** Consecutive DNs of `p` are member-of steps. */
  ghost predicate Chain(dir: Dir, p: seq<Dn>) {
    forall i :: 0 <= i < |p| - 1 ==> IsParent(dir, p[i], p[i + 1])
  }

  /** `p` leads from `start` to `x` through member-of steps. */
  ghost predicate Reaches(dir: Dir, start: Dn, p: seq<Dn>, x: Dn) {
    |p| >= 1 && p[0] == start && p[|p| - 1] == x && Chain(dir, p)
  }

  ghost predicate Reachable(dir: Dir, start: Dn, x: Dn) {
    exists p :: Reaches(dir, start, p, x)
  }

  /** The ID the table holds for group DN `y` is the parent itself or, when
      searching recursively, a group the local store places in the parent. */
  predicate Qualifies(local: Local, t: MapTable, parent: int, recursive: bool, y: Dn) {
    var id := Select(t, ToLower(y));
    id.Some? && (id.value == parent || (recursive && local.hasGroupMember(parent, id.value, GroupMember, true)))
  }

  /** `y` has an ID and it was checked and found not to qualify. */
  predicate Settled(local: Local, t: MapTable, parent: int, recursive: bool, y: Dn) {
    Select(t, ToLower(y)).Some? && !Qualifies(local, t, parent, recursive, y)
  }

  /** The local store answers the question itself (only asked for a local parent). */
  predicate LocalHit(local: Local, parent: int, child: int, kind: MemberKind, recursive: bool) {
    parent < LdapMappingBase && local.hasGroupMember(parent, child, kind, recursive)
  }

  /** The DN the walk starts from: the user's DN (from the possibly lower-cased
      user name), the mapped DN of a directory group, and none for a local
      group or an unknown member kind. */
  function StartDn(env: Env, t: MapTable, child: int, kind: MemberKind): (r: Option<Dn>)
    ensures kind == UserMember ==> r.Some?
    ensures kind == OtherMember || (kind == GroupMember && child < LdapMappingBase) ==> r == None
    ensures kind == GroupMember && child >= LdapMappingBase ==>
              (r.Some? <==> LdapMappingBase < child <= LdapMappingBase + |t.rows|)
  {
    match kind
    case UserMember =>
      var user := env.userName(child);
      Some(env.userDn(if env.lowerCaseUsername then ToLower(user) else user))
    case GroupMember => if child < LdapMappingBase then None else DnForId(t, child)
    case OtherMember => None
  }

  /** In a valid table, the DN a directory child group starts from is the DN
      its ID was allocated for: looking it up again gives the child back. */
  lemma StartDnMapsBack(env: Env, t: MapTable, child: int)
    requires IdMapper.Valid(t) && StartDn(env, t, child, GroupMember).Some?
    ensures IdForDn(t, StartDn(env, t, child, GroupMember).value, false) == Threaded(Some(child), t)
  {
    DnForIdRoundTrip(t, child, false);
  }

  /** A member-of chain of at least one step from the start whose last group
      qualifies; without recursion the chain has exactly one step. */
  ghost predicate Witness(dir: Dir, local: Local, t: MapTable, parent: int, recursive: bool, start: Dn, p: seq<Dn>) {
    && |p| >= 2 && Reaches(dir, start, p, p[|p| - 1])
    && (recursive || |p| == 2)
    && Qualifies(local, t, parent, recursive, p[|p| - 1])
  }

  /** The answer hasGroupMember is meant to give, over the table it leaves. */
  ghost predicate Member(dir: Dir, env: Env, local: Local, t: MapTable, t': MapTable, parent: int, child: int, kind: MemberKind, recursive: bool) {
    || LocalHit(local, parent, child, kind, recursive)
    || (StartDn(env, t, child, kind).Some? &&
        exists p :: Witness(dir, local, t', parent, recursive, StartDn(env, t, child, kind).value, p))
  }

  /** Every parent of a processed DN is processed or still pending. */
  ghost predicate Closed(dir: Dir, processed: set<Dn>, pending: seq<Dn>) {
    forall x, y :: x in processed && IsParent(dir, x, y) ==> y in processed || y in pending
  }

  /** Every parent of a processed DN has been checked and does not qualify. */
  ghost predicate ParentsSettled(dir: Dir, local: Local, t: MapTable, parent: int, recursive: bool, processed: set<Dn>) {
    forall x, y :: x in processed && IsParent(dir, x, y) ==> Settled(local, t, parent, recursive, y)
  }

  /** The DNs of all directory entries. */
  ghost function DirDns(dir: Dir): set<Dn> {
    set e | e in dir.entries :: e.dn
  }

  /** The directory DNs reachable from `s`: the only DNs the walk from `s`
      may add to the mapping table. */
  ghost function ReachableDns(dir: Dir, s: Dn): set<Dn> {
    set y | y in DirDns(dir) && Reachable(dir, s, y)
  }

  /** `top` is the DN of the first hit of `groups` that qualifies: every
      earlier hit has been checked and does not. */
  ghost predicate FirstQualifying(local: Local, t: MapTable, parent: int, recursive: bool, groups: seq<GroupRef>, top: Dn) {
    exists j :: && 0 <= j < |groups| && groups[j].dn == top
                && SettledUpTo(local, t, parent, recursive, groups, j) && Qualifies(local, t, parent, recursive, top)
  }

  /** How many DNs of `s` are marked. */
  ghost function MarkedCount(s: seq<Dn>, marked: set<Dn>): nat {
    if |s| == 0 then 0 else (if s[0] in marked then 1 else 0) + MarkedCount(s[1..], marked)
  }

  /** hasGroupMember. The first result is the answer, the second the mapping
      table after the IDs allocated on the way. The walk keeps the DNs that
      produced search results in `searched` and queues a parent only when it is
      not there, so a DN can be queued twice before it is processed; the
      measure counts unsearched DNs, then marked pending DNs, then the queue. */
  method HasGroupMember(dir: Dir, env: Env, local: Local, t: MapTable, parent: int, child: int, kind: MemberKind, recursive: bool)
    returns (r: bool, t': MapTable)
    requires IdMapper.Valid(t)
    ensures IdMapper.Valid(t') && Extends(t, t')
    ensures r ==> Member(dir, env, local, t, t', parent, child, kind, recursive)
    ensures WellFormedDns(dir) && Member(dir, env, local, t, t', parent, child, kind, recursive) ==> r
    ensures LocalHit(local, parent, child, kind, recursive) || StartDn(env, t, child, kind).None? ==> t' == t
    ensures StartDn(env, t, child, kind).Some? ==> AddsOnly(t, t', ReachableDns(dir, StartDn(env, t, child, kind).value))
  {
    t' := t;
    if parent < LdapMappingBase && local.hasGroupMember(parent, child, kind, recursive) {
      return true, t';
    }
    var start := StartDn(env, t, child, kind);
    if start.None? {
      return false, t';
    }
    r, t' := Walk(dir, local, t, parent, recursive, start.value);
  }

  /** The work-list walk of hasGroupMember from the DN `s`: true exactly when
      some member-of chain from `s` ends in a qualifying group (one step only
      when not recursive). */
  method Walk(dir: Dir, local: Local, t: MapTable, parent: int, recursive: bool, s: Dn) returns (r: bool, t': MapTable)
    requires IdMapper.Valid(t)
    ensures IdMapper.Valid(t') && Extends(t, t')
    ensures r ==> exists p :: Witness(dir, local, t', parent, recursive, s, p)
    ensures WellFormedDns(dir) && (exists p :: Witness(dir, local, t', parent, recursive, s, p)) ==> r
    ensures AddsOnly(t, t', ReachableDns(dir, s))
  {
    t' := t;
    var dn := s;
    ghost var u := DirDns(dir) + {s};
    var queue: seq<Dn> := [];
    var searched: set<Dn> := {};
    ghost var processed: set<Dn> := {};
    ghost var path: seq<Dn> := [s];
    ghost var reach := ReachableDns(dir, s);
    while true
      invariant IdMapper.Valid(t') && Extends(t, t')
      invariant AddsOnly(t, t', reach)
      invariant dn in u && forall q :: q in queue ==> q in DirDns(dir) && Reachable(dir, s, q)
      invariant searched <= processed
      invariant Reaches(dir, s, path, dn)
      invariant !recursive ==> dn == s && path == [s] && processed == {}
      invariant s in processed || s == dn
      invariant Closed(dir, processed, [dn] + queue)
      invariant ParentsSettled(dir, local, t', parent, recursive, processed)
      decreases |u - searched|, MarkedCount([dn] + queue, searched), |queue|
    {
      ghost var searchedBefore := searched;
      ghost var queueBefore := queue;
      var found;
      ghost var top;
      ghost var before := t';
      found, top, t', queue, searched := Expand(dir, local, t', parent, recursive, dn, queue, searched, s, path, processed, u);
      AddsOnlyTrans(t, before, t', reach, reach, reach);
      if found {
        assert Witness(dir, local, t', parent, recursive, s, path + [top]);
        return true, t';
      }
      processed := processed + {dn};
      if !recursive {
        NoDirectWitness(dir, local, t', parent, recursive, s, processed);
        return false, t';
      }
      if |queue| == 0 {
        NoWitnessWhenClosed(dir, local, t', parent, recursive, s, processed);
        return false, t';
      }
      ghost var pending := queue;
      assert queue[0] in queue;
      dn := queue[0];
      queue := queue[1..];
      assert [dn] + queue == pending;
      if !Truthy(dn) {
        if WellFormedDns(dir) {
          DirectoryDnsTruthy(dir, dn);
          assert false;
        }
        return false, t';
      }
      path :| Reaches(dir, s, path, dn);
    }
  }

  /** One step of the walk from the frontier DN `dn`: search the groups that
      list it, mark it searched when there are any, and check them. Either a
      qualifying parent `top` is found, or `dn` can join the processed DNs with
      all its parents settled and the unsearched ones queued. */
  method Expand(dir: Dir, local: Local, t: MapTable, parent: int, recursive: bool, dn: Dn, queue: seq<Dn>, searched: set<Dn>,
                ghost s: Dn, ghost path: seq<Dn>, ghost processed: set<Dn>, ghost u: set<Dn>)
    returns (found: bool, ghost top: Dn, t': MapTable, queue': seq<Dn>, searched': set<Dn>)
    requires IdMapper.Valid(t) && Reaches(dir, s, path, dn) && dn in u
    requires forall q :: q in queue ==> q in DirDns(dir) && Reachable(dir, s, q)
    requires searched <= processed
    requires Closed(dir, processed, [dn] + queue) && ParentsSettled(dir, local, t, parent, recursive, processed)
    ensures IdMapper.Valid(t') && Extends(t, t')
    ensures AddsOnly(t, t', ReachableDns(dir, s))
    ensures found ==> Reaches(dir, s, path + [top], top) && Qualifies(local, t', parent, recursive, top)
    ensures found ==> FirstQualifying(local, t', parent, recursive, SearchGroups(dir, dn, AsMember), top)
    ensures !found ==> searched' <= processed + {dn}
    ensures !found ==> forall q :: q in queue' ==> q in DirDns(dir) && Reachable(dir, s, q)
    ensures !found ==> Closed(dir, processed + {dn}, queue') && ParentsSettled(dir, local, t', parent, recursive, processed + {dn})
    ensures !found && |queue'| > 0 ==>
              || |u - searched'| < |u - searched|
              || (&& |u - searched'| == |u - searched|
                  && (|| MarkedCount(queue', searched') < MarkedCount([dn] + queue, searched)
                      || (MarkedCount(queue', searched') == MarkedCount([dn] + queue, searched) && |queue'| - 1 < |queue|)))
  {
    var groups := SearchGroups(dir, dn, AsMember);
    t', queue', searched' := t, queue, searched;
    HitsReachable(dir, s, path, dn);
    top := dn;
    if |groups| > 0 {
      searched' := searched + {dn};
      var j;
      found, j, t', queue' := CheckParents(local, t, parent, recursive, groups, searched', queue);
      AddsOnlyWider(t, t', HitDns(groups), ReachableDns(dir, s));
      if found {
        top := groups[j].dn;
        assert IsParent(dir, dn, top) by { assert groups[j] in groups; }
        ChainExtend(dir, path, top);
        return;
      }
    } else {
      found := false;
    }
    assert queue' == queue + NewDns(groups, searched');
    ParentsOfProcessed(dir, local, t, t', parent, recursive, processed, dn, queue, queue', groups, searched');
    NewQueueItems(dir, s, path, dn, queue, queue', groups, searched');
    if |queue'| > 0 {
      Progress(u, dn, searched, searched', queue, NewDns(groups, searched'));
    }
  }

  /** The hits of a search from a DN reachable from `s` are directory DNs
      reachable from `s`. */
  lemma HitsReachable(dir: Dir, s: Dn, path: seq<Dn>, dn: Dn)
    requires Reaches(dir, s, path, dn)
    ensures HitDns(SearchGroups(dir, dn, AsMember)) <= ReachableDns(dir, s)
  {
    var groups := SearchGroups(dir, dn, AsMember);
    forall y | y in HitDns(groups)
      ensures y in ReachableDns(dir, s)
    {
      var g :| g in groups && g.dn == y;
      var e :| e in dir.entries && Matches(dn, AsMember, e) && g == RefOf(e);
      assert y in DirDns(dir) by { assert e in dir.entries && e.dn == y; }
      QueuedStep(dir, s, path, dn, y);
    }
  }

  /** A parent of a DN reachable from `s` is reachable from `s`. */
  lemma QueuedStep(dir: Dir, s: Dn, path: seq<Dn>, dn: Dn, y: Dn)
    requires Reaches(dir, s, path, dn) && IsParent(dir, dn, y)
    ensures Reachable(dir, s, y)
  {
    ChainExtend(dir, path, y);
    assert Reaches(dir, s, path + [y], y);
  }

  /** A well-formed DN is never one of the strings PHP treats as false. */
  lemma DirectoryDnsTruthy(dir: Dir, d: Dn)
    requires WellFormedDns(dir) && d in DirDns(dir)
    ensures Truthy(d)
  {
    var e :| e in dir.entries && e.dn == d;
    var i :| 0 <= i < |dir.entries| && dir.entries[i] == e;
    assert '=' in d;
  }

  /** The DNs of the hits not searched yet, in order: what one step queues. */
  function NewDns(groups: seq<GroupRef>, searched: set<Dn>): (r: seq<Dn>)
    ensures forall q :: q in r <==> q !in searched && exists g :: g in groups && g.dn == q
  {
    if |groups| == 0 then []
    else
      var last := groups[|groups| - 1];
      assert forall g :: g in groups <==> g in groups[..|groups| - 1] || g == last;
      NewDns(groups[..|groups| - 1], searched) + (if last.dn in searched then [] else [last.dn])
  }

  /** The check of one hit: allocate its ID, then compare it with the parent
      and, when recursive, ask the local store whether the parent contains it. */
  function CheckHit(local: Local, t: MapTable, parent: int, recursive: bool, dn: Dn): (r: Threaded<bool>)
    requires IdMapper.Valid(t)
    ensures IdMapper.Valid(r.table) && Extends(t, r.table)
    ensures r.value <==> Qualifies(local, r.table, parent, recursive, dn)
    ensures Select(r.table, ToLower(dn)).Some?
    ensures AddsOnly(t, r.table, {dn})
  {
    IdForDnAddsOnly(t, dn, true);
    var l := IdForDn(t, dn, true);
    var id := l.value.value;
    Threaded(id == parent || (recursive && local.hasGroupMember(parent, id, GroupMember, true)), l.table)
  }

  /** The hits among the first `i` are settled. */
  predicate SettledUpTo(local: Local, t: MapTable, parent: int, recursive: bool, groups: seq<GroupRef>, i: int) {
    forall k :: 0 <= k < i && k < |groups| ==> Settled(local, t, parent, recursive, groups[k].dn)
  }

  /** The per-hit part of one step of the walk: check each hit in turn and
      stop at the first that qualifies; otherwise every hit is settled and
      the hits not yet searched are queued. */
  method CheckParents(local: Local, t: MapTable, parent: int, recursive: bool, groups: seq<GroupRef>, searched: set<Dn>, queue: seq<Dn>)
    returns (found: bool, j: nat, t': MapTable, queue': seq<Dn>)
    requires IdMapper.Valid(t)
    ensures IdMapper.Valid(t') && Extends(t, t')
    ensures AddsOnly(t, t', HitDns(groups))
    ensures found ==> j < |groups| && Qualifies(local, t', parent, recursive, groups[j].dn)
    ensures found ==> SettledUpTo(local, t', parent, recursive, groups, j)
    ensures !found ==> forall k :: 0 <= k < |groups| ==> Settled(local, t', parent, recursive, groups[k].dn)
    ensures !found ==> queue' == queue + NewDns(groups, searched)
  {
    t' := t;
    var i := 0;
    while i < |groups|
      invariant 0 <= i <= |groups|
      invariant IdMapper.Valid(t') && Extends(t, t')
      invariant AddsOnly(t, t', HitDns(groups))
      invariant SettledUpTo(local, t', parent, recursive, groups, i)
    {
      var c := CheckHit(local, t', parent, recursive, groups[i].dn);
      assert groups[i] in groups;
      AddsOnlyTrans(t, t', c.table, HitDns(groups), {groups[i].dn}, HitDns(groups));
      AllSettledStable(local, t', c.table, parent, recursive, groups, i);
      t' := c.table;
      if c.value {
        return true, i, t', queue;
      }
      SettledUpToNext(local, t', parent, recursive, groups, i);
      i := i + 1;
    }
    return false, 0, t', queue + NewDns(groups, searched);
  }

  /** The settled hits among the first `i` stay settled as the table grows. */
  lemma AllSettledStable(local: Local, t: MapTable, t': MapTable, parent: int, recursive: bool, groups: seq<GroupRef>, i: int)
    requires IdMapper.Valid(t') && Extends(t, t') && 0 <= i <= |groups|
    requires SettledUpTo(local, t, parent, recursive, groups, i)
    ensures SettledUpTo(local, t', parent, recursive, groups, i)
  {
    forall k | 0 <= k < i
      ensures Settled(local, t', parent, recursive, groups[k].dn)
    {
      SettledStable(local, t, t', parent, recursive, groups[k].dn);
    }
  }

  /** One more settled hit extends the settled prefix. */
  lemma SettledUpToNext(local: Local, t: MapTable, parent: int, recursive: bool, groups: seq<GroupRef>, i: int)
    requires 0 <= i < |groups| && SettledUpTo(local, t, parent, recursive, groups, i)
    requires Select(t, ToLower(groups[i].dn)).Some? && !Qualifies(local, t, parent, recursive, groups[i].dn)
    ensures SettledUpTo(local, t, parent, recursive, groups, i + 1)
  {
    assert Settled(local, t, parent, recursive, groups[i].dn);
  }

  /** A settled DN stays settled as the table grows. */
  lemma SettledStable(local: Local, t: MapTable, t': MapTable, parent: int, recursive: bool, y: Dn)
    requires IdMapper.Valid(t') && Extends(t, t') && Settled(local, t, parent, recursive, y)
    ensures Settled(local, t', parent, recursive, y)
  {
    SelectStable(t, t', ToLower(y));
  }

  /** A chain extended by a member-of step is a chain. */
  lemma ChainExtend(dir: Dir, p: seq<Dn>, y: Dn)
    requires |p| >= 1 && Chain(dir, p) && IsParent(dir, p[|p| - 1], y)
    ensures Chain(dir, p + [y])
  {
    var q := p + [y];
    assert forall i :: 0 <= i < |p| ==> q[i] == p[i];
    assert q[|p|] == y;
  }

  /** A chain that starts inside a set closed under member-of steps stays inside it. */
  lemma {:induction false} ChainInside(dir: Dir, processed: set<Dn>, p: seq<Dn>)
    requires |p| >= 1 && p[0] in processed && Closed(dir, processed, []) && Chain(dir, p)
    ensures forall i :: 0 <= i < |p| ==> p[i] in processed
  {
    if |p| > 1 {
      var front := p[..|p| - 1];
      assert Chain(dir, front) by {
        forall i | 0 <= i < |front| - 1
          ensures IsParent(dir, front[i], front[i + 1])
        {
          assert front[i] == p[i] && front[i + 1] == p[i + 1];
        }
      }
      ChainInside(dir, processed, front);
      assert p[|p| - 2] == front[|front| - 1];
      assert IsParent(dir, p[|p| - 2], p[|p| - 1]);
    }
  }

  /** Without recursion only the direct parents of the start count, and once
      they are settled there is no witness. */
  lemma NoDirectWitness(dir: Dir, local: Local, t: MapTable, parent: int, recursive: bool, s: Dn, processed: set<Dn>)
    requires !recursive && s in processed && ParentsSettled(dir, local, t, parent, recursive, processed)
    ensures forall p :: !Witness(dir, local, t, parent, recursive, s, p)
  {
    forall p | |p| == 2 && Reaches(dir, s, p, p[1])
      ensures !Qualifies(local, t, parent, recursive, p[1])
    {
      assert IsParent(dir, p[0], p[1]);
    }
  }

  /** When every DN reachable from the start has been processed and all their
      parents are settled, no chain from the start ends in a qualifying group. */
  lemma NoWitnessWhenClosed(dir: Dir, local: Local, t: MapTable, parent: int, recursive: bool, s: Dn, processed: set<Dn>)
    requires s in processed && Closed(dir, processed, []) && ParentsSettled(dir, local, t, parent, recursive, processed)
    ensures forall p :: !Witness(dir, local, t, parent, recursive, s, p)
  {
    forall p | |p| >= 2 && Reaches(dir, s, p, p[|p| - 1])
      ensures !Qualifies(local, t, parent, recursive, p[|p| - 1])
    {
      ChainInside(dir, processed, p);
      assert IsParent(dir, p[|p| - 2], p[|p| - 1]);
    }
  }

  /** After one step, the processed DNs (now including `dn`) have every parent
      processed or queued, and every such parent settled. */
  lemma ParentsOfProcessed(dir: Dir, local: Local, t: MapTable, t': MapTable, parent: int, recursive: bool,
                           processed: set<Dn>, dn: Dn, queue: seq<Dn>, queue': seq<Dn>, groups: seq<GroupRef>, searched: set<Dn>)
    requires IdMapper.Valid(t') && Extends(t, t')
    requires Closed(dir, processed, [dn] + queue) && ParentsSettled(dir, local, t, parent, recursive, processed)
    requires groups == SearchGroups(dir, dn, AsMember)
    requires searched <= processed + {dn}
    requires queue' == queue + NewDns(groups, searched)
    requires forall k :: 0 <= k < |groups| ==> Settled(local, t', parent, recursive, groups[k].dn)
    ensures Closed(dir, processed + {dn}, queue')
    ensures ParentsSettled(dir, local, t', parent, recursive, processed + {dn})
  {
    forall x, y | x in processed + {dn} && IsParent(dir, x, y)
      ensures (y in processed + {dn} || y in queue') && Settled(local, t', parent, recursive, y)
    {
      if x == dn {
        var g :| g in groups && g.dn == y;
        var k :| 0 <= k < |groups| && groups[k] == g;
        assert y in searched || y in NewDns(groups, searched);
      } else {
        SettledStable(local, t, t', parent, recursive, y);
      }
    }
  }

  /** Queued DNs are directory DNs reachable from the start. */
  lemma NewQueueItems(dir: Dir, s: Dn, path: seq<Dn>, dn: Dn, queue: seq<Dn>, queue': seq<Dn>, groups: seq<GroupRef>, searched: set<Dn>)
    requires Reaches(dir, s, path, dn)
    requires groups == SearchGroups(dir, dn, AsMember)
    requires forall q :: q in queue ==> q in DirDns(dir) && Reachable(dir, s, q)
    requires queue' == queue + NewDns(groups, searched)
    ensures forall q :: q in queue' ==> q in DirDns(dir) && Reachable(dir, s, q)
  {
    forall q | q in queue' && q !in queue
      ensures q in DirDns(dir) && Reachable(dir, s, q)
    {
      assert q in NewDns(groups, searched);
      QueuedParent(dir, s, path, dn, groups, searched, q);
    }
  }

  /** A DN queued from the hits of `dn` is a directory DN one step beyond `dn`. */
  lemma QueuedParent(dir: Dir, s: Dn, path: seq<Dn>, dn: Dn, groups: seq<GroupRef>, searched: set<Dn>, q: Dn)
    requires Reaches(dir, s, path, dn)
    requires groups == SearchGroups(dir, dn, AsMember)
    requires q in NewDns(groups, searched)
    ensures q in DirDns(dir) && Reachable(dir, s, q)
  {
    var g :| g in groups && g.dn == q;
    var e :| e in dir.entries && Matches(dn, AsMember, e) && g == RefOf(e);
    assert IsParent(dir, dn, q);
    ChainExtend(dir, path, q);
    assert Reaches(dir, s, path + [q], q);
  }

  /** The measure of the walk decreases on every step that continues: either
      the frontier DN is newly searched, or it was searched already and is
      dropped from the pending list while only unsearched DNs are queued, or
      it had no hits and the queue shrinks. */
  lemma Progress(u: set<Dn>, dn: Dn, searched: set<Dn>, searched': set<Dn>, queue: seq<Dn>, appended: seq<Dn>)
    requires dn in u && |queue + appended| > 0
    requires searched' == searched + {dn} || (searched' == searched && appended == [])
    requires forall q :: q in appended ==> q !in searched'
    ensures var queue' := queue + appended;
            || |u - searched'| < |u - searched|
            || (&& |u - searched'| == |u - searched|
                && (|| MarkedCount(queue', searched') < MarkedCount([dn] + queue, searched)
                    || (MarkedCount(queue', searched') == MarkedCount([dn] + queue, searched) && |queue'| - 1 < |queue|)))
  {
    assert ([dn] + queue)[1..] == queue;
    if searched' != searched {
      assert dn !in searched;
      assert u - searched == (u - searched') + {dn};
    } else {
      MarkedCountAppend(queue, appended, searched);
      MarkedCountNone(appended, searched);
    }
  }

  lemma {:induction false} MarkedCountAppend(a: seq<Dn>, b: seq<Dn>, marked: set<Dn>)
    ensures MarkedCount(a + b, marked) == MarkedCount(a, marked) + MarkedCount(b, marked)
  {
    if |a| > 0 {
      assert (a + b)[1..] == a[1..] + b;
      MarkedCountAppend(a[1..], b, marked);
    } else {
      assert a + b == b;
    }
  }

  lemma {:induction false} MarkedCountNone(b: seq<Dn>, marked: set<Dn>)
    requires forall q :: q in b ==> q !in marked
    ensures MarkedCount(b, marked) == 0
  {
    if |b| > 0 {
      assert b[0] in b;
      assert forall q :: q in b[1..] ==> q in b;
      MarkedCountNone(b[1..], marked);
    }
  }
}
