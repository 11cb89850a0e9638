/** One call on its own, a deposit or a drain, is a run of the protocol's steps. */
module InboxRuns {
  import opened Wrappers
  import opened Utf8
  import opened Digits
  import opened InboxNames
  import opened Directory
  import opened LinkInbox
  import opened Sorting
  import opened InboxProtocol
  import opened InboxSafety

  // ----- One deposit on its own is a run -----

  function Tries(pid: nat, k: nat): (r: seq<Step>)
    ensures |r| == k && forall j | 0 <= j < k :: r[j] == TryLink(pid)
  {
    seq(k, j => TryLink(pid))
  }

  lemma {:induction false} TriesFindTheFirstFree(s: System, pid: nat, k: nat)
    requires s.Writer(pid).Linking? && DraftName(s.Writer(pid).stamp, pid) in s.dir.names
    requires var w := s.Writer(pid);
      FirstFree(s.dir.names, pid, w.stamp, w.bump) == Some(w.bump + k)
    ensures Legal(s, Tries(pid, k + 1))
    ensures var (w, t) := (s.Writer(pid), After(s, Tries(pid, k + 1)));
      var entry := EntryName(w.stamp + w.bump + k, pid);
      && t.dir == s.dir.(names := s.dir.names[entry := s.dir.names[DraftName(w.stamp, pid)]])
      && t.Writer(pid) == Removing(w.url, w.stamp, w.inode, Some(entry))
    decreases k
  {
    hide DraftName, EntryName;
    var t := Next(s, TryLink(pid));
    assert Tries(pid, k + 1)[1..] == Tries(pid, k);
    if k > 0 {
      TriesFindTheFirstFree(t, pid, k - 1);
    }
  }

  lemma {:induction false} TriesFindNothing(s: System, pid: nat, k: nat)
    requires s.Writer(pid).Linking? && DraftName(s.Writer(pid).stamp, pid) in s.dir.names
    requires var w := s.Writer(pid); w.bump + k == TRIES && FirstFree(s.dir.names, pid, w.stamp, w.bump).None?
    ensures Legal(s, Tries(pid, k))
    ensures var (w, t) := (s.Writer(pid), After(s, Tries(pid, k)));
      t.dir == s.dir && t.Writer(pid) == Linking(w.url, w.stamp, w.inode, TRIES)
    decreases k
  {
    hide DraftName, EntryName;
    if k > 0 {
      var t := Next(s, TryLink(pid));
      assert Tries(pid, k)[1..] == Tries(pid, k - 1);
      TriesFindNothing(t, pid, k - 1);
    }
  }

  lemma AppendingNothing(d: Dir, i: Inode)
    ensures d.Appended(i, []) == d
  {
    if i in d.files {
      assert d.files[i] + [] == d.files[i];
      assert d.files[i := d.files[i]] == d.files;
    }
  }

  lemma DraftIsWritten(s: System, pid: nat, url: string, stamp: nat) returns (steps: seq<Step>)
    requires s.dir.Valid() && s.Writer(pid).Idle?
    ensures Legal(s, steps) && DraftsRemoved(steps)
    ensures var t := After(s, steps);
      && t.dir == Drafted(s.dir, pid, url, stamp)
      && t.Writer(pid) == Linking(url, stamp, t.dir.names[DraftName(stamp, pid)], 0)
  {
    hide DraftName, Encode;
    var bytes := Encode(url);
    steps := [];
    OneMore(s, steps, Begin(pid, url, stamp));
    steps := steps + [Begin(pid, url, stamp)];
    var begun := After(s, steps);
    AppendingNothing(begun.dir, begun.Writer(pid).inode);
    if bytes != [] {
      OneMore(s, steps, Write(pid, |bytes|));
      steps := steps + [Write(pid, |bytes|)];
      assert bytes[0..|bytes|] == bytes;
    }
    OneMore(s, steps, EndWrite(pid));
    steps := steps + [EndWrite(pid)];
  }

  lemma LinkIsTried(s: System, pid: nat) returns (steps: seq<Step>)
    requires s.Writer(pid).Linking? && s.Writer(pid).bump == 0
    requires DraftName(s.Writer(pid).stamp, pid) in s.dir.names
    ensures Legal(s, steps) && DraftsRemoved(steps)
    ensures var (w, t) := (s.Writer(pid), After(s, steps));
      && t.Writer(pid).Removing? && t.Writer(pid).stamp == w.stamp
      && t.dir.files == s.dir.files && t.dir.next == s.dir.next
      && t.dir.names == match FirstFree(s.dir.names, pid, w.stamp, 0)
                        case None => s.dir.names
                        case Some(k) => s.dir.names[EntryName(w.stamp + k, pid) := s.dir.names[DraftName(w.stamp, pid)]]
  {
    hide DraftName, EntryName, Encode;
    match FirstFree(s.dir.names, pid, s.Writer(pid).stamp, 0)
    case Some(k) =>
      TriesFindTheFirstFree(s, pid, k);
      steps := Tries(pid, k + 1);
    case None =>
      TriesFindNothing(s, pid, TRIES);
      steps := Tries(pid, TRIES);
      OneMore(s, steps, LinkFails(pid));
      steps := steps + [LinkFails(pid)];
  }

  /** The deposit of one process, run by itself, is one interleaving of the protocol: the same calls in
      the same order leave the same directory. */
  lemma DepositIsARun(s: System, pid: nat, url: string, stamp: nat) returns (steps: seq<Step>)
    requires s.dir.Valid() && s.Writer(pid).Idle?
    ensures Legal(s, steps) && DraftsRemoved(steps)
    ensures After(s, steps).dir == Deposited(s.dir, pid, url, stamp).0 && After(s, steps).Writer(pid).Idle?
  {
    hide DraftName, EntryName, Encode, Legal, After;
    var first := DraftIsWritten(s, pid, url, stamp);
    var w := After(s, first);
    var tries := LinkIsTried(w, pid);
    Joined(s, first, tries);
    OneMore(s, first + tries, RemoveDraft(pid));
    steps := first + tries + [RemoveDraft(pid)];
  }

  // ----- One drain on its own is a run -----

  function Delivered(ds: seq<(Inode, string)>): seq<string> {
    if ds == [] then [] else Delivered(ds[..|ds| - 1]) + [ds[|ds| - 1].1]
  }

  lemma DeliveredNext(ds: seq<(Inode, string)>, x: (Inode, string))
    ensures Delivered(ds + [x]) == Delivered(ds) + [x.1]
  {
    assert (ds + [x])[..|ds|] == ds;
  }

  lemma ThreeSteps(s: System, a: Step, b: Step, c: Step)
    requires Enabled(s, a) && Enabled(Next(s, a), b) && Enabled(Next(Next(s, a), b), c)
    ensures Legal(s, [a, b, c]) && After(s, [a, b, c]) == Next(Next(Next(s, a), b), c)
  {
    hide Enabled, Next, Legal, After;
    NoSteps(s);
    OneMore(s, [], a);
    assert [] + [a] == [a];
    OneMore(s, [a], b);
    OneMore(s, [a] + [b], c);
    assert [a] + [b] + [c] == [a, b, c];
  }

  /** The three calls on one entry take it as the sequential drain does, or leave it when the removal fails. */
  lemma EntryIsTaken(s: System, removed: bool) returns (steps: seq<Step>)
    requires s.dir.Valid() && s.reader.Draining? && s.reader.todo != [] && s.reader.todo[0] in s.dir.names
    ensures steps == [Measure, Fetch, if removed then Remove else RemoveFails] && Legal(s, steps)
    ensures var (t, name) := (After(s, steps), s.reader.todo[0]);
      && t.dir == (if removed then s.dir.Removed(name) else s.dir) && t.reader == Draining(s.reader.todo[1..])
      && Delivered(t.delivered)
         == Delivered(s.delivered) + match if removed then Taken(s.dir, name) else None case Some(url) => [url] case None => []
  {
    hide Decode, Delivered;
    var third := if removed then Remove else RemoveFails;
    steps := [Measure, Fetch, third];
    var s2 := Next(Next(s, Measure), Fetch);
    ThreeSteps(s, Measure, Fetch, third);
    assert s2.reader.link == Taken(s.dir, s.reader.todo[0]);
    if removed && s2.reader.link.Some? {
      DeliveredNext(s.delivered, (s.dir.names[s.reader.todo[0]], s2.reader.link.value));
    } else {
      assert s.delivered + [] == s.delivered;
    }
  }

  lemma TakingKeepsOthers(d: Dir, name: string, names: seq<string>)
    requires name !in names
    ensures Links(d.Removed(name), names) == Links(d, names)
  {
    if names != [] {
      assert names[0] in names;
      assert d.Removed(name).Read(names[0]) == d.Read(names[0]);
      TakingKeepsOthers(d, name, names[1..]);
    }
  }

  ghost predicate IsTodo(s: System) {
    && s.dir.Valid() && s.reader.Draining? && IsSorted(s.reader.todo)
    && forall n <- s.reader.todo :: n in s.dir.names
  }

  lemma TodoLeft(s: System, t: System, removed: bool)
    requires IsTodo(s) && s.reader.todo != []
    requires t.dir == if removed then s.dir.Removed(s.reader.todo[0]) else s.dir
    requires t.reader == Draining(s.reader.todo[1..])
    ensures IsTodo(t) && s.reader.todo[0] !in t.reader.todo
  {
    hide LexLess;
    var todo := s.reader.todo;
    LexIrreflexive(todo[0]);
    forall n | n in todo[1..] ensures n in t.dir.names && n != todo[0] {
      var k :| 0 <= k < |todo[1..]| && todo[1..][k] == n;
      assert LexLess(todo[0], todo[k + 1]);
    }
  }

  /** The directory without the names removed. */
  ghost function Without(d: Dir, names: seq<string>): Dir {
    d.(names := d.names - (set n <- names))
  }

  lemma WithoutFirst(d: Dir, name: string, names: seq<string>)
    ensures Without(d, [name] + names) == Without(d.Removed(name), names)
  {
    assert (set n <- [name] + names) == {name} + (set n <- names);
    assert d.names - ({name} + (set n <- names)) == (d.names - {name}) - (set n <- names);
  }

  lemma WithoutNothing(d: Dir)
    ensures Without(d, []) == d
  {
    assert d.names - (set n <- []) == d.names;
  }

  lemma LinksFirst(d: Dir, name: string, names: seq<string>)
    requires name !in names
    ensures Links(d, [name] + names)
         == (match Taken(d, name) case Some(url) => [url] case None => []) + Links(d.Removed(name), names)
  {
    hide Taken;
    assert ([name] + names)[1..] == names;
    TakingKeepsOthers(d, name, names);
  }

  lemma {:induction false} TodoIsDrained(s: System, removes: string -> bool) returns (steps: seq<Step>)
    requires IsTodo(s)
    ensures Legal(s, steps) && forall k | 0 <= k < |steps| :: steps[k] in {Measure, Fetch, Remove, RemoveFails}
    ensures (forall n <- s.reader.todo :: removes(n)) ==> forall k | 0 <= k < |steps| :: !steps[k].RemoveFails?
    ensures var (t, chosen) := (After(s, steps), Chosen(s.reader.todo, removes));
      && t.reader == Draining([])
      && t.dir == Without(s.dir, chosen)
      && Delivered(t.delivered) == Delivered(s.delivered) + Links(s.dir, chosen)
    decreases |s.reader.todo|
  {
    hide Taken, Delivered, Legal, After, IsSorted, Without, Links, Dir.Valid;
    var todo := s.reader.todo;
    if todo == [] {
      steps := [];
      NoSteps(s);
      WithoutNothing(s.dir);
      NoLinks(s.dir);
    } else {
      var removed := removes(todo[0]);
      TodoStarts(s);
      var first := EntryIsTaken(s, removed);
      var t := After(s, first);
      TodoLeft(s, t, removed);
      var rest := TodoIsDrained(t, removes);
      Joined(s, first, rest);
      steps := first + rest;
      var chosen := Chosen(todo[1..], removes);
      ChosenMembers(todo[1..], removes, todo[0]);
      if removed {
        WithoutFirst(s.dir, todo[0], chosen);
        LinksFirst(s.dir, todo[0], chosen);
      } else {
        assert [] + chosen == chosen;
      }
    }
  }

  lemma TodoStarts(s: System)
    requires IsTodo(s) && s.reader.todo != []
    ensures s.dir.Valid() && s.reader.Draining? && s.reader.todo[0] in s.dir.names
    ensures s.reader.todo[0] in s.reader.todo && forall n <- s.reader.todo[1..] :: n in s.reader.todo
  {
  }

  lemma NoLinks(d: Dir)
    ensures Links(d, []) == []
  {
  }

  /** The drain of one process, run by itself, is one interleaving of the protocol: the same calls in the same
      order, whichever removals fail, leave the same directory and deliver the same links. */
  lemma DrainIsARun(s: System, waiting: seq<string>, removes: string -> bool) returns (steps: seq<Step>)
    requires s.dir.Valid() && s.reader.Away? && Lists(waiting, Entries(s.dir))
    ensures Legal(s, steps) && DraftsRemoved(steps)
    ensures (forall n <- waiting :: removes(n)) ==> forall k | 0 <= k < |steps| :: !steps[k].RemoveFails?
    ensures var t := After(s, steps);
      && t.dir == s.dir.(names := s.dir.names - (set n <- Entries(s.dir) | removes(n))) && t.reader.Away?
      && Delivered(t.delivered) == Delivered(s.delivered) + Links(s.dir, Chosen(waiting, removes))
  {
    hide Delivered, Links, IsSorted, Legal, After, Chosen;
    var listed := Next(s, List(waiting));
    NoSteps(s);
    OneMore(s, [], List(waiting));
    assert [] + [List(waiting)] == [List(waiting)];
    var middle := TodoIsDrained(listed, removes);
    Joined(s, [List(waiting)], middle);
    OneMore(s, [List(waiting)] + middle, EndDrain);
    steps := [List(waiting)] + middle + [EndDrain];
    forall n ensures n in Chosen(waiting, removes) <==> n in Entries(s.dir) && removes(n) {
      ChosenMembers(waiting, removes, n);
    }
    assert (set n <- Chosen(waiting, removes)) == (set n <- Entries(s.dir) | removes(n));
  }
}
