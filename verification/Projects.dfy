/** The sidebar's projects: sessions grouped by project path, the most recent first. */
module Projects {
  import opened Wrappers
  import opened Digits
  import opened Sorting
  import D = Digest

  datatype SessionRecord = SessionRecord(id: string, path: string, digest: D.SessionDigest, modified: Option<nat>)

  datatype Group = Group(path: string, sessions: seq<SessionRecord>)

  function Modified(r: SessionRecord): Option<nat> {
    r.modified
  }

  /** The latest of the times there are. */
  function LastActivity(sessions: seq<SessionRecord>): Option<nat> {
    if sessions == [] then None
    else
      var rest := LastActivity(sessions[1..]);
      if Newer(sessions[0].modified, rest) then sessions[0].modified else rest
  }

  function Activity(g: Group): Option<nat> {
    LastActivity(g.sessions)
  }

  /** The records of one path, in order. */
  function Of(records: seq<SessionRecord>, path: string): (found: seq<SessionRecord>)
    ensures forall r <- found :: r in records && r.path == path
  {
    if records == [] then []
    else Of(records[..|records| - 1], path)
         + if records[|records| - 1].path == path then [records[|records| - 1]] else []
  }

  ghost predicate Comes(a: Group, b: Group) {
    Newer(Activity(a), Activity(b)) || (Activity(a) == Activity(b) && LexLess(a.path, b.path))
  }

  /** Each group is the stable sort of its path's records, there is a group for every path and no other,
      and groups stand by last activity, then by path. */
  ghost predicate IsGrouping(records: seq<SessionRecord>, groups: seq<Group>) {
    && (forall g <- groups :: g.sessions == StableSort(Of(records, g.path), Modified))
    && (forall p: string :: HasGroup(groups, p) <==> HasRecord(records, p))
    && InListOrder(groups)
  }

  ghost predicate HasGroup(groups: seq<Group>, path: string) {
    exists g <- groups :: g.path == path
  }

  ghost predicate HasRecord(records: seq<SessionRecord>, path: string) {
    exists r <- records :: r.path == path
  }

  ghost predicate InListOrder(groups: seq<Group>) {
    forall i, j | 0 <= i < j < |groups| :: Comes(groups[i], groups[j])
  }

  ghost predicate InPathOrder(groups: seq<Group>) {
    forall i, j | 0 <= i < j < |groups| :: LexLess(groups[i].path, groups[j].path)
  }

  /** The map of the first loop, for the records read so far. */
  ghost predicate Maps(byPath: map<string, seq<SessionRecord>>, records: seq<SessionRecord>) {
    && (forall p <- byPath :: byPath[p] == Of(records, p) != [])
    && forall r <- records :: r.path in byPath
  }

  lemma OfNext(records: seq<SessionRecord>, r: SessionRecord, path: string)
    ensures Of(records + [r], path) == Of(records, path) + if r.path == path then [r] else []
  {
    assert (records + [r])[..|records|] == records;
  }

  lemma NothingOfUnmapped(byPath: map<string, seq<SessionRecord>>, records: seq<SessionRecord>, path: string)
    requires Maps(byPath, records) && path !in byPath
    ensures Of(records, path) == []
  {
    hide Of;
    if Of(records, path) != [] {
      assert Of(records, path)[0] in Of(records, path);
    }
  }

  lemma MapsNext(byPath: map<string, seq<SessionRecord>>, records: seq<SessionRecord>, r: SessionRecord)
    requires Maps(byPath, records)
    ensures var before := if r.path in byPath then byPath[r.path] else [];
      Maps(byPath[r.path := before + [r]], records + [r])
  {
    hide Of;
    var before := if r.path in byPath then byPath[r.path] else [];
    var now, next := records + [r], byPath[r.path := before + [r]];
    if r.path !in byPath {
      NothingOfUnmapped(byPath, records, r.path);
    }
    forall p | p in next ensures next[p] == Of(now, p) != [] {
      OfNext(records, r, p);
    }
    forall q | q in now ensures q.path in next {
    }
  }

  lemma GroupsInPathOrder(records: seq<SessionRecord>, paths: seq<string>, groups: seq<Group>)
    requires IsSorted(paths) && |groups| == |paths|
    requires forall i | 0 <= i < |paths| :: groups[i].path == paths[i]
    ensures InPathOrder(groups)
  {
  }

  /** Sorting groups that stand in path order by activity leaves the path to break ties. */
  lemma {:induction false} TiesByPath(groups: seq<Group>)
    requires InPathOrder(groups)
    ensures InListOrder(StableSort(groups, Activity))
    ensures forall g :: g in StableSort(groups, Activity) <==> g in groups
  {
    if groups != [] {
      TiesByPath(groups[1..]);
      var rest := StableSort(groups[1..], Activity);
      forall g | g in rest ensures LexLess(groups[0].path, g.path) {
        var j :| 0 <= j < |groups[1..]| && groups[1..][j] == g;
        assert groups[j + 1] == g;
      }
      PutInComes(groups[0], rest);
      forall g ensures g in StableSort(groups, Activity) <==> g in groups {
        PutInMembers(groups[0], rest, Activity, g);
        assert groups == [groups[0]] + groups[1..];
      }
    }
  }

  lemma {:induction false} PutInComes(x: Group, s: seq<Group>)
    requires InListOrder(s) && forall g <- s :: LexLess(x.path, g.path)
    ensures InListOrder(PutIn(x, s, Activity))
  {
    hide Activity, LexLess;
    if s != [] {
      if Newer(Activity(s[0]), Activity(x)) {
        PutInComes(x, s[1..]);
        var rest := PutIn(x, s[1..], Activity);
        forall j | 0 <= j < |rest| ensures Comes(s[0], rest[j]) {
          PutInMembers(x, s[1..], Activity, rest[j]);
          assert rest[j] in rest;
          if rest[j] in s[1..] {
            var k :| 0 <= k < |s[1..]| && s[1..][k] == rest[j];
            assert s[k + 1] == rest[j];
          }
        }
      } else {
        forall j | 0 <= j < |s| ensures Comes(x, s[j]) {
          assert s[j] in s;
          if j > 0 {
            assert Comes(s[0], s[j]);
          }
        }
      }
    }
  }

  /** `group_projects`. */
  method GroupProjects(records: seq<SessionRecord>) returns (groups: seq<Group>)
    ensures IsGrouping(records, groups)
  {
    hide Of, Maps, Activity, Newer, LexLess, InListOrder, InPathOrder, IsSorted;
    var byPath: map<string, seq<SessionRecord>> := map[];
    NothingMapped();
    for i := 0 to |records|
      invariant Maps(byPath, records[..i])
    {
      var r := records[i];
      MapsNext(byPath, records[..i], r);
      assert records[..i + 1] == records[..i] + [r];
      var before := if r.path in byPath then byPath[r.path] else [];
      byPath := byPath[r.path := before + [r]];
    }
    assert records[..|records|] == records;
    var paths := InOrder(byPath.Keys);
    groups := [];
    for i := 0 to |paths|
      invariant |groups| == i
      invariant forall k | 0 <= k < i :: groups[k].path == paths[k]
      invariant forall k | 0 <= k < i :: paths[k] in byPath && groups[k].sessions == StableSort(byPath[paths[k]], Modified)
    {
      assert paths[i] in paths;
      groups := groups + [Group(paths[i], StableSort(byPath[paths[i]], Modified))];
    }
    ghost var unsorted := groups;
    GroupsInPathOrder(records, paths, unsorted);
    TiesByPath(unsorted);
    groups := StableSort(groups, Activity);
    Grouped(records, byPath, paths, unsorted, groups);
  }

  lemma NothingMapped()
    ensures Maps(map[], [])
  {
  }

  lemma Grouped(records: seq<SessionRecord>, byPath: map<string, seq<SessionRecord>>, paths: seq<string>,
                unsorted: seq<Group>, groups: seq<Group>)
    requires Maps(byPath, records) && Lists(paths, byPath.Keys) && |unsorted| == |paths|
    requires forall k | 0 <= k < |paths| :: unsorted[k].path == paths[k]
    requires forall k | 0 <= k < |paths| :: paths[k] in byPath && unsorted[k].sessions == StableSort(byPath[paths[k]], Modified)
    requires forall g :: g in groups <==> g in unsorted
    requires InListOrder(groups)
    ensures IsGrouping(records, groups)
  {
    hide Of, StableSort, InListOrder, IsSorted;
    forall g | g in groups ensures g.path in byPath {
      var k :| 0 <= k < |unsorted| && unsorted[k] == g;
    }
    forall p: string ensures HasGroup(groups, p) <==> HasRecord(records, p) {
      if p in byPath {
        var k :| 0 <= k < |paths| && paths[k] == p;
        assert unsorted[k] in groups;
        assert Of(records, p)[0] in Of(records, p);
      }
    }
    forall g | g in groups ensures g.sessions == StableSort(Of(records, g.path), Modified) {
      var k :| 0 <= k < |unsorted| && unsorted[k] == g;
    }
  }

  // ----- What a grouping means -----

  /** No path has two groups. */
  lemma OneGroupAPath(records: seq<SessionRecord>, groups: seq<Group>, i: nat, j: nat)
    requires IsGrouping(records, groups) && i < j < |groups|
    ensures groups[i].path != groups[j].path
  {
    hide Of, StableSort;
    assert Comes(groups[i], groups[j]);
    assert groups[i] in groups && groups[j] in groups;
    LexIrreflexive(groups[i].path);
  }

  /** Every session listed, group after group. */
  function AllSessions(groups: seq<Group>): seq<SessionRecord> {
    if groups == [] then [] else groups[0].sessions + AllSessions(groups[1..])
  }

  lemma {:induction false} CountOf(records: seq<SessionRecord>, path: string, r: SessionRecord)
    ensures multiset(Of(records, path))[r] == if r.path == path then multiset(records)[r] else 0
  {
    if records != [] {
      var front := records[..|records| - 1];
      CountOf(front, path, r);
      assert records == front + [records[|records| - 1]];
    }
  }

  lemma {:induction false} CountInGroups(records: seq<SessionRecord>, groups: seq<Group>, r: SessionRecord)
    requires forall g <- groups :: g.sessions == StableSort(Of(records, g.path), Modified)
    requires forall i, j | 0 <= i < j < |groups| :: groups[i].path != groups[j].path
    ensures multiset(AllSessions(groups))[r] == if HasGroup(groups, r.path) then multiset(records)[r] else 0
  {
    hide Of, StableSort;
    if groups != [] {
      var g, rest := groups[0], groups[1..];
      assert forall h <- rest :: h in groups;
      CountInGroups(records, rest, r);
      CountOf(records, g.path, r);
      StableSortKeepsElements(Of(records, g.path), Modified);
      assert groups == [g] + rest;
      GroupsBehind(groups, r.path);
    }
  }

  lemma GroupsBehind(groups: seq<Group>, path: string)
    requires groups != [] && forall i, j | 0 <= i < j < |groups| :: groups[i].path != groups[j].path
    ensures HasGroup(groups, path) <==> groups[0].path == path || HasGroup(groups[1..], path)
    ensures groups[0].path == path ==> !HasGroup(groups[1..], path)
  {
    assert groups == [groups[0]] + groups[1..];
    if HasGroup(groups[1..], path) {
      var g :| g in groups[1..] && g.path == path;
      var k :| 0 <= k < |groups[1..]| && groups[1..][k] == g;
      assert groups[k + 1] == g;
    }
  }

  /** Every record is listed, once for each time it was delivered. */
  lemma NoSessionIsLost(records: seq<SessionRecord>, groups: seq<Group>)
    requires IsGrouping(records, groups)
    ensures multiset(AllSessions(groups)) == multiset(records)
  {
    hide Of, StableSort, InListOrder, AllSessions;
    forall i, j | 0 <= i < j < |groups| ensures groups[i].path != groups[j].path {
      OneGroupAPath(records, groups, i, j);
    }
    forall r ensures multiset(AllSessions(groups))[r] == multiset(records)[r] {
      CountInGroups(records, groups, r);
      if !HasGroup(groups, r.path) {
        assert !HasRecord(records, r.path);
        assert r !in records;
      }
    }
  }

  lemma ComesOneWay(a: Group, b: Group)
    requires Comes(a, b)
    ensures !Comes(b, a)
  {
    if LexLess(a.path, b.path) && LexLess(b.path, a.path) {
      LexTransitive(a.path, b.path, a.path);
      LexIrreflexive(a.path);
    }
  }

  lemma {:induction false} OneListOrder(a: seq<Group>, b: seq<Group>)
    requires InListOrder(a) && InListOrder(b) && forall g :: g in a <==> g in b
    ensures a == b
  {
    hide Comes;
    if a == [] {
      SomeGroup(b);
    } else if b == [] {
      SomeGroup(a);
    } else {
      HeadsAgree(a, b);
      TailMembers(a);
      TailMembers(b);
      OneListOrder(a[1..], b[1..]);
      assert a == [a[0]] + a[1..] && b == [b[0]] + b[1..];
    }
  }

  lemma SomeGroup(a: seq<Group>)
    ensures a != [] ==> a[0] in a
  {
  }

  lemma HeadsAgree(a: seq<Group>, b: seq<Group>)
    requires InListOrder(a) && InListOrder(b) && a != [] && b != [] && forall g :: g in a <==> g in b
    ensures a[0] == b[0]
  {
    hide Comes;
    SomeGroup(a);
    SomeGroup(b);
    var i :| 0 <= i < |b| && b[i] == a[0];
    var j :| 0 <= j < |a| && a[j] == b[0];
    if i > 0 && j > 0 {
      assert Comes(b[0], b[i]);
      ComesOneWay(a[0], a[j]);
    }
  }

  lemma TailMembers(a: seq<Group>)
    requires InListOrder(a) && a != []
    ensures forall g :: g in a[1..] <==> g in a && g != a[0]
  {
    hide Comes;
    forall g | g in a[1..] ensures g in a && g != a[0] {
      var k :| 0 <= k < |a[1..]| && a[1..][k] == g;
      assert Comes(a[0], a[k + 1]);
      if g == a[0] {
        ComesOneWay(g, g);
      }
    }
    assert a == [a[0]] + a[1..];
  }

  /** The records fix the grouping: there is one list the sidebar can show. */
  lemma OneGrouping(records: seq<SessionRecord>, a: seq<Group>, b: seq<Group>)
    requires IsGrouping(records, a) && IsGrouping(records, b)
    ensures a == b
  {
    hide Of, StableSort, InListOrder;
    SameMembers(records, a, b);
    SameMembers(records, b, a);
    OneListOrder(a, b);
  }

  lemma SameMembers(records: seq<SessionRecord>, a: seq<Group>, b: seq<Group>)
    requires IsGrouping(records, a) && IsGrouping(records, b)
    ensures forall g <- a :: g in b
  {
    hide Of, StableSort, InListOrder;
    forall g | g in a ensures g in b {
      assert HasGroup(a, g.path);
      var h :| h in b && h.path == g.path;
      assert h == g;
    }
  }

  /** A project's last activity is the latest of its sessions' times, and it has none when they have none. */
  lemma {:induction false} LastActivityIsTheLatest(sessions: seq<SessionRecord>)
    ensures match LastActivity(sessions)
            case None => forall s <- sessions :: s.modified.None?
            case Some(t) =>
              && (exists s <- sessions :: s.modified == Some(t))
              && forall s <- sessions :: s.modified.Some? ==> s.modified.value <= t
  {
    if sessions != [] {
      LastActivityIsTheLatest(sessions[1..]);
      assert sessions == [sessions[0]] + sessions[1..];
    }
  }

  /** In a group no session comes after an older one or one without a time, and sessions of one time keep the order they
      were delivered in. */
  lemma SessionsInOrder(records: seq<SessionRecord>, groups: seq<Group>, g: Group, k: Option<nat>)
    requires IsGrouping(records, groups) && g in groups
    ensures forall i, j | 0 <= i < j < |g.sessions| && g.sessions[j].modified.Some? ::
      g.sessions[i].modified.Some? && g.sessions[i].modified.value >= g.sessions[j].modified.value
    ensures With(g.sessions, Modified, k) == With(Of(records, g.path), Modified, k)
  {
    hide Of, StableSort, With;
    StableSortSorts(Of(records, g.path), Modified);
    forall i, j | 0 <= i < j < |g.sessions| && g.sessions[j].modified.Some?
      ensures g.sessions[i].modified.Some? && g.sessions[i].modified.value >= g.sessions[j].modified.value
    {
      assert !Newer(Modified(g.sessions[j]), Modified(g.sessions[i]));
    }
  }

  ghost predicate ActiveAt(g: Group, t: nat) {
    exists s <- g.sessions :: s.modified.Some? && s.modified.value >= t
  }

  /** No group comes after one active less recently, and of two active at the same times the one whose path sorts first
      comes first. */
  lemma GroupsInOrder(records: seq<SessionRecord>, groups: seq<Group>, i: nat, j: nat)
    requires IsGrouping(records, groups) && i < j < |groups|
    ensures forall t | ActiveAt(groups[j], t) :: ActiveAt(groups[i], t)
    ensures (forall t | ActiveAt(groups[i], t) :: ActiveAt(groups[j], t)) ==> LexLess(groups[i].path, groups[j].path)
  {
    hide Of, StableSort, LexLess, LastActivity;
    LastActivityIsTheLatest(groups[i].sessions);
    LastActivityIsTheLatest(groups[j].sessions);
    assert Comes(groups[i], groups[j]);
    if Newer(Activity(groups[i]), Activity(groups[j])) {
      assert ActiveAt(groups[i], Activity(groups[i]).value);
      assert !ActiveAt(groups[j], Activity(groups[i]).value);
    }
  }
}
