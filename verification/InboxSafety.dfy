/** What every interleaving of depositors and drainer keeps. */
module InboxSafety {
  import opened Wrappers
  import opened Utf8
  import opened Digits
  import opened InboxNames
  import opened Directory
  import opened LinkInbox
  import opened Sorting
  import opened InboxProtocol

  // ----- Runs -----

  ghost predicate Legal(s: System, steps: seq<Step>)
    decreases |steps|
  {
    steps == [] || (Enabled(s, steps[0]) && Legal(Next(s, steps[0]), steps[1..]))
  }

  ghost function After(s: System, steps: seq<Step>): System
    requires Legal(s, steps)
    decreases |steps|
  {
    if steps == [] then s else After(Next(s, steps[0]), steps[1..])
  }

  lemma NoSteps(s: System)
    ensures Legal(s, []) && After(s, []) == s
  {
  }

  lemma {:induction false} Joined(s: System, a: seq<Step>, b: seq<Step>)
    requires Legal(s, a) && Legal(After(s, a), b)
    ensures Legal(s, a + b) && After(s, a + b) == After(After(s, a), b)
    decreases |a|
  {
    hide Enabled, Next;
    if a == [] {
      assert a + b == b;
    } else {
      Joined(Next(s, a[0]), a[1..], b);
      assert (a + b)[1..] == a[1..] + b;
    }
  }

  lemma OneMore(s: System, a: seq<Step>, step: Step)
    requires Legal(s, a) && Enabled(After(s, a), step)
    ensures Legal(s, a + [step]) && After(s, a + [step]) == Next(After(s, a), step)
  {
    hide Enabled, Next;
    assert [step][1..] == [];
    Joined(s, a, [step]);
  }

  /** Every draft was removed once its deposit ended. */
  predicate DraftsRemoved(steps: seq<Step>) {
    forall k | 0 <= k < |steps| :: !steps[k].DraftStays?
  }

  lemma StepKeepsInv(s: System, step: Step)
    requires Inv(s) && Enabled(s, step) && !step.DraftStays?
    ensures Inv(Next(s, step))
  {
    hide Inv, Enabled, Next;
    match step
    case Begin(pid, url, stamp) => BeginKeepsInv(s, pid, url, stamp);
    case Write(pid, count) => WriteKeepsInv(s, pid, count);
    case EndWrite(pid) => EndWriteKeepsInv(s, pid);
    case TryLink(pid) => TryLinkKeepsInv(s, pid);
    case LinkFails(pid) => LinkFailsKeepsInv(s, pid);
    case RemoveDraft(pid) => RemoveDraftKeepsInv(s, pid);
    case List(waiting) => ListKeepsInv(s, waiting);
    case Remove => RemoveKeepsInv(s);
    case Measure => ReadingKeepsInv(s, step);
    case Fetch => ReadingKeepsInv(s, step);
    case RemoveFails => ReadingKeepsInv(s, step);
    case EndDrain => ReadingKeepsInv(s, step);
  }

  lemma {:induction false} RunKeepsInv(s: System, steps: seq<Step>)
    requires Inv(s) && Legal(s, steps) && DraftsRemoved(steps)
    ensures Inv(After(s, steps))
    decreases |steps|
  {
    hide Inv, Enabled, Next;
    if steps != [] {
      StepKeepsInv(s, steps[0]);
      RunKeepsInv(Next(s, steps[0]), steps[1..]);
    }
  }

  // ----- History only grows -----

  /** `t` comes after `s`: links made are kept with the bytes they had, and nothing delivered is undone. */
  ghost predicate Grows(s: System, t: System) {
    && (forall i <- s.links :: i in t.links && t.links[i] == s.links[i])
    && (forall i <- s.links :: i in s.dir.files && i in t.dir.files && t.dir.files[i] == s.dir.files[i])
    && s.taken <= t.taken && s.delivered <= t.delivered
  }

  lemma StepGrows(s: System, step: Step)
    requires Inv(s) && Enabled(s, step) && !step.DraftStays?
    ensures Grows(s, Next(s, step))
  {
    hide IsEntry, DraftName, EntryName, Encode, Decode, IsSorted, ReaderSure, DeliveredRight;
    forall i <- s.links ensures i in s.dir.files {
      assert LinkKept(s, i);
    }
    match step
    case Begin(pid, _, stamp) => assert DraftName(stamp, pid) !in s.dir.names;
    case Write(pid, _) => assert Holds(s, pid);
    case TryLink(pid) => assert Holds(s, pid);
    case _ =>
  }

  lemma {:induction false} RunGrows(s: System, steps: seq<Step>)
    requires Inv(s) && Legal(s, steps) && DraftsRemoved(steps)
    ensures Grows(s, After(s, steps))
    decreases |steps|
  {
    hide Enabled, Next;
    if steps == [] {
      forall i <- s.links ensures i in s.dir.files {
        assert LinkKept(s, i);
      }
    } else {
      hide Inv;
      var t := Next(s, steps[0]);
      StepKeepsInv(s, steps[0]);
      StepGrows(s, steps[0]);
      RunGrows(t, steps[1..]);
    }
  }

  // ----- The fate of a link -----

  ghost predicate WaitsWhole(s: System, i: Inode)
    requires i in s.links
  {
    && s.dir.Read(s.links[i].entry) == Some(Encode(s.links[i].url))
    && s.dir.names[s.links[i].entry] == i
  }

  ghost predicate IsDelivered(s: System, i: Inode, k: nat)
    requires i in s.links
  {
    k < |s.delivered| && s.delivered[k] == (i, s.links[i].url)
  }

  ghost predicate NeverDelivered(s: System, i: Inode) {
    forall k | 0 <= k < |s.delivered| :: s.delivered[k].0 != i
  }

  ghost predicate DeliveredOnce(s: System, i: Inode)
    requires i in s.links
  {
    exists k :: IsDelivered(s, i, k) && forall j | 0 <= j < |s.delivered| && s.delivered[j].0 == i :: j == k
  }

  lemma FateOfALink(s: System, i: Inode)
    requires Inv(s) && i in s.links
    ensures WaitsWhole(s, i) <==> i !in s.taken
    ensures WaitsWhole(s, i) ==> NeverDelivered(s, i)
    ensures !WaitsWhole(s, i) && |Encode(s.links[i].url)| <= MAX_LINK_BYTES ==> DeliveredOnce(s, i)
  {
    hide IsEntry, DraftName, EntryName, Encode, Decode, IsSorted, ReaderSure;
    assert LinkKept(s, i);
    if i in s.taken && |Encode(s.links[i].url)| <= MAX_LINK_BYTES {
      var k :| 0 <= k < |s.delivered| && s.delivered[k].0 == i;
      assert IsDelivered(s, i, k);
    }
  }

  /** In every interleaving, a link of at most 16 KiB once linked is never lost, torn or delivered twice:
      at any later time it waits whole under the name it was linked at, with the bytes it was linked with
      and not yet delivered, or it has been delivered, exactly once and as it was deposited. */
  lemma NoLinkIsLost(start: System, before: seq<Step>, later: seq<Step>, i: Inode)
    requires Initial(start) && Legal(start, before) && Legal(After(start, before), later)
    requires DraftsRemoved(before) && DraftsRemoved(later)
    requires i in After(start, before).links
    requires |Encode(After(start, before).links[i].url)| <= MAX_LINK_BYTES
    ensures var (s, t) := (After(start, before), After(After(start, before), later));
      && i in t.links && t.links[i] == s.links[i]
      && i in s.dir.files && i in t.dir.files && t.dir.files[i] == s.dir.files[i] == Encode(s.links[i].url)
      && ((WaitsWhole(t, i) && NeverDelivered(t, i)) || (!WaitsWhole(t, i) && DeliveredOnce(t, i)))
      && (DeliveredOnce(s, i) ==> DeliveredOnce(t, i))
  {
    hide Enabled, Next, Encode, Decode;
    var s := After(start, before);
    var t := After(s, later);
    InitialKeepsInv(start);
    RunKeepsInv(start, before);
    RunKeepsInv(s, later);
    RunGrows(s, later);
    FateOfALink(t, i);
    FateOfALink(s, i);
    assert LinkKept(s, i);
  }

  /** A draft is never drained: what a process has not linked yet, no drain has taken or delivered. */
  lemma DraftsAreNotDrained(start: System, steps: seq<Step>, pid: nat)
    requires Initial(start) && Legal(start, steps) && DraftsRemoved(steps)
    requires After(start, steps).Writer(pid).Writing? || After(start, steps).Writer(pid).Linking?
    ensures var s := After(start, steps);
      s.Writer(pid).inode !in s.taken && NeverDelivered(s, s.Writer(pid).inode)
  {
    hide Enabled, Next, Encode, Decode, IsEntry, DraftName, EntryName;
    InitialKeepsInv(start);
    RunKeepsInv(start, steps);
    assert Holds(After(start, steps), pid);
  }

  // ----- A drain misses nothing that was waiting when it listed -----

  /** Taken already, or still on the drainer's list. */
  ghost predicate Due(s: System, i: Inode) {
    i in s.links && (i in s.taken || (!s.reader.Away? && s.links[i].entry in s.reader.todo))
  }

  lemma StepKeepsDue(s: System, step: Step, i: Inode)
    requires Inv(s) && Enabled(s, step) && !step.DraftStays? && !step.RemoveFails? && Due(s, i)
    ensures Due(Next(s, step), i)
  {
    hide IsEntry, DraftName, EntryName, Encode, Decode, IsSorted, DeliveredRight, Fits, Taken, Text;
    assert LinkKept(s, i);
    if step.TryLink? {
      assert Holds(s, step.pid);
    }
  }

  lemma {:induction false} RunKeepsDue(s: System, steps: seq<Step>, i: Inode)
    requires Inv(s) && Legal(s, steps) && DraftsRemoved(steps) && Due(s, i)
    requires forall k | 0 <= k < |steps| :: !steps[k].RemoveFails?
    ensures Due(After(s, steps), i)
    decreases |steps|
  {
    hide Inv, Enabled, Next, Due;
    if steps != [] {
      StepKeepsInv(s, steps[0]);
      StepKeepsDue(s, steps[0], i);
      RunKeepsDue(Next(s, steps[0]), steps[1..], i);
    }
  }

  /** Whatever depositors do meanwhile, a drain that ends without a removal failing has delivered, once
      each, every link that fits and was in the inbox when it listed it. */
  lemma DrainDeliversWhatItListed(start: System, before: seq<Step>, waiting: seq<string>, during: seq<Step>, i: Inode)
    requires Initial(start) && Legal(start, before) && DraftsRemoved(before)
    requires Enabled(After(start, before), List(waiting))
    requires Legal(Next(After(start, before), List(waiting)), during) && DraftsRemoved(during)
    requires forall k | 0 <= k < |during| :: !during[k].RemoveFails?
    requires After(Next(After(start, before), List(waiting)), during).reader.Away?
    requires i in After(start, before).links
    requires |Encode(After(start, before).links[i].url)| <= MAX_LINK_BYTES
    ensures var t := After(Next(After(start, before), List(waiting)), during);
      i in t.links && !WaitsWhole(t, i) && DeliveredOnce(t, i)
  {
    hide Inv, Enabled, Next, Encode, Due;
    var s := After(start, before);
    InitialKeepsInv(start);
    RunKeepsInv(start, before);
    ListedIsDue(s, waiting, i);
    var listed := Next(s, List(waiting));
    var t := After(listed, during);
    ListKeepsInv(s, waiting);
    RunKeepsInv(listed, during);
    RunGrows(listed, during);
    RunKeepsDue(listed, during, i);
    DueWhenAwayIsTaken(t, i);
    FateOfALink(t, i);
  }

  lemma DueWhenAwayIsTaken(s: System, i: Inode)
    requires Due(s, i) && s.reader.Away?
    ensures i in s.taken
  {
  }

  lemma ListedIsDue(s: System, waiting: seq<string>, i: Inode)
    requires Inv(s) && Enabled(s, List(waiting)) && i in s.links
    ensures Due(Next(s, List(waiting)), i) && Next(s, List(waiting)).links == s.links
  {
    hide Encode, Decode, IsEntry, DraftName, EntryName, IsSorted;
    assert LinkKept(s, i);
    if i !in s.taken {
      assert s.links[i].entry in Entries(s.dir);
    }
  }

  // ----- A drain delivers by number, whoever deposited -----

  /** Of two links, the second is taken only after the first, and delivered after it. */
  ghost predicate InOrder(s: System, i: Inode, j: Inode) {
    && (j in s.taken ==> i in s.taken)
    && forall a, b | 0 <= a < |s.delivered| && 0 <= b < |s.delivered| && s.delivered[a].0 == i && s.delivered[b].0 == j :: a < b
  }

  lemma RemoveKeepsOrder(s: System, i: Inode, j: Inode)
    requires Inv(s) && Enabled(s, Remove) && InOrder(s, i, j) && Due(s, i) && j in s.links
    requires i != j && LexLess(s.links[i].entry, s.links[j].entry)
    ensures InOrder(Next(s, Remove), i, j)
  {
    hide Encode, Decode, IsEntry, DraftName, EntryName, LexLess, Holds, DraftsHeld;
    var todo, x := s.reader.todo, s.dir.names[s.reader.todo[0]];
    assert LinkKept(s, i) && LinkKept(s, j);
    assert IsEntry(todo[0]);
    if x == j && i !in s.taken {
      var k :| 0 <= k < |todo| && todo[k] == s.links[i].entry;
      if k > 0 {
        assert LexLess(todo[0], todo[k]);
        LexTransitive(todo[0], todo[k], todo[0]);
      }
      LexIrreflexive(todo[0]);
    }
    if x == i {
      assert j !in s.taken;
    }
  }

  lemma StepKeepsOrder(s: System, step: Step, i: Inode, j: Inode)
    requires Inv(s) && Enabled(s, step) && !step.DraftStays? && InOrder(s, i, j) && Due(s, i) && j in s.links
    requires i != j && LexLess(s.links[i].entry, s.links[j].entry)
    ensures InOrder(Next(s, step), i, j)
  {
    if step.Remove? {
      RemoveKeepsOrder(s, i, j);
    } else {
      hide Inv, Due, LexLess, Encode, Decode, IsEntry, DraftName, EntryName;
      OnlyRemoveDelivers(s, step);
    }
  }

  lemma OnlyRemoveDelivers(s: System, step: Step)
    requires Enabled(s, step) && !step.Remove?
    ensures Next(s, step).taken == s.taken && Next(s, step).delivered == s.delivered
  {
    hide Encode, Decode, DraftName, EntryName, IsEntry;
  }

  lemma {:induction false} RunKeepsOrder(s: System, steps: seq<Step>, i: Inode, j: Inode)
    requires Inv(s) && Legal(s, steps) && DraftsRemoved(steps) && InOrder(s, i, j) && Due(s, i) && j in s.links
    requires i != j && LexLess(s.links[i].entry, s.links[j].entry)
    requires forall k | 0 <= k < |steps| :: !steps[k].RemoveFails?
    ensures InOrder(After(s, steps), i, j)
    decreases |steps|
  {
    hide Inv, Enabled, Next, InOrder, LexLess;
    if steps != [] {
      StepKeepsInv(s, steps[0]);
      StepKeepsDue(s, steps[0], i);
      StepGrows(s, steps[0]);
      StepKeepsOrder(s, steps[0], i, j);
      RunKeepsOrder(Next(s, steps[0]), steps[1..], i, j);
    }
  }

  /** Whatever depositors do meanwhile, a drain delivers the links waiting when it listed by their numbers, and at
      one number by the digits of their process ids. */
  lemma DrainDeliversByNumber(start: System, before: seq<Step>, waiting: seq<string>, during: seq<Step>,
                              i: Inode, m: nat, p: nat, j: Inode, n: nat, q: nat)
    requires Initial(start) && Legal(start, before) && DraftsRemoved(before)
    requires Enabled(After(start, before), List(waiting))
    requires Legal(Next(After(start, before), List(waiting)), during) && DraftsRemoved(during)
    requires forall k | 0 <= k < |during| :: !during[k].RemoveFails?
    requires var s := After(start, before);
      && i in s.links && WaitsWhole(s, i) && s.links[i].entry == EntryName(m, p)
      && j in s.links && WaitsWhole(s, j) && s.links[j].entry == EntryName(n, q)
    requires m < Pow(10, 20) && n < Pow(10, 20) && (m < n || (m == n && IdBefore(p, q)))
    ensures var t := After(Next(After(start, before), List(waiting)), during);
      forall a, b | 0 <= a < |t.delivered| && 0 <= b < |t.delivered| && t.delivered[a].0 == i && t.delivered[b].0 == j :: a < b
  {
    hide Inv, Enabled, Next, Encode, Due, Pow, EntryName, LexLess, IdBefore;
    var s := After(start, before);
    InitialKeepsInv(start);
    RunKeepsInv(start, before);
    EntryNamesCompare(m, p, n, q);
    LexIrreflexive(EntryName(m, p));
    FateOfALink(s, i);
    FateOfALink(s, j);
    ListedIsDue(s, waiting, i);
    var listed := Next(s, List(waiting));
    OnlyRemoveDelivers(s, List(waiting));
    ListKeepsInv(s, waiting);
    RunKeepsOrder(listed, during, i, j);
  }
}
