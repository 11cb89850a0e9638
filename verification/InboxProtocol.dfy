/** The link inbox shared by many depositing processes and one drainer, with no lock between them: every
    interleaving of their file-system calls, each call atomic. */
module InboxProtocol {
  import opened Wrappers
  import opened Utf8
  import opened Digits
  import opened InboxNames
  import opened Directory
  import opened LinkInbox
  import opened Sorting

  /** Where a process is in a deposit. Deposits of one process follow one another. */
  datatype Writer =
    | Idle
    | Writing(url: string, stamp: nat, inode: Inode, written: nat)
    | Linking(url: string, stamp: nat, inode: Inode, bump: nat)
    | Removing(url: string, stamp: nat, inode: Inode, entry: Option<string>)

  /** Where the drainer is; the entry in hand is the first one left to do. */
  datatype Reader =
    | Away
    | Draining(todo: seq<string>)
    | Measured(todo: seq<string>, fits: bool)
    | Fetched(todo: seq<string>, link: Option<string>)

  datatype Link = Link(url: string, entry: string)

  /** The directory, the processes by their ids, and the history: which inode was linked for which
      deposit, which inodes the drainer has removed an entry of, and what it has delivered. */
  datatype System = System(dir: Dir, writers: map<nat, Writer>, reader: Reader,
                           links: map<Inode, Link>, taken: set<Inode>, delivered: seq<(Inode, string)>)
  {
    function Writer(pid: nat): Writer {
      if pid in writers then writers[pid] else Idle
    }
  }

  /** One file-system call, or the end of one side's loop. A write may land in pieces. `DraftStays` is a
      draft whose removal failed. */
  datatype Step =
    | Begin(pid: nat, url: string, stamp: nat)
    | Write(pid: nat, count: nat)
    | EndWrite(pid: nat)
    | TryLink(pid: nat)
    | LinkFails(pid: nat)
    | RemoveDraft(pid: nat)
    | DraftStays(pid: nat)
    | List(waiting: seq<string>)
    | Measure
    | Fetch
    | Remove
    | RemoveFails
    | EndDrain

  ghost predicate Enabled(s: System, step: Step) {
    match step
    case Begin(pid, _, _) => s.Writer(pid).Idle?
    case Write(pid, count) =>
      var w := s.Writer(pid); w.Writing? && 1 <= count <= |Encode(w.url)| - w.written
    case EndWrite(pid) => var w := s.Writer(pid); w.Writing? && w.written == |Encode(w.url)|
    case TryLink(pid) => var w := s.Writer(pid); w.Linking? && w.bump < TRIES
    case LinkFails(pid) => s.Writer(pid).Linking?
    case RemoveDraft(pid) => s.Writer(pid).Removing?
    case DraftStays(pid) => s.Writer(pid).Removing?
    case List(waiting) => s.reader.Away? && Lists(waiting, Entries(s.dir))
    case Measure => s.reader.Draining? && s.reader.todo != []
    case Fetch => s.reader.Measured?
    case Remove => s.reader.Fetched? && s.reader.todo != [] && s.reader.todo[0] in s.dir.names
    case RemoveFails => s.reader.Fetched? && s.reader.todo != []
    case EndDrain => s.reader.Draining? && s.reader.todo == []
  }

  function Fits(d: Dir, name: string): bool {
    match d.Read(name)
    case Some(bytes) => |bytes| <= MAX_LINK_BYTES
    case None => false
  }

  function Text(d: Dir, name: string): Option<string> {
    match d.Read(name)
    case Some(bytes) => Decode(bytes)
    case None => None
  }

  ghost function Next(s: System, step: Step): System
    requires Enabled(s, step)
  {
    match step
    case Begin(pid, url, stamp) =>
      var d := s.dir.Opened(DraftName(stamp, pid));
      s.(dir := d, writers := s.writers[pid := Writing(url, stamp, d.names[DraftName(stamp, pid)], 0)])
    case Write(pid, count) =>
      var w := s.Writer(pid);
      s.(dir := s.dir.Appended(w.inode, Encode(w.url)[w.written..w.written + count]),
         writers := s.writers[pid := w.(written := w.written + count)])
    case EndWrite(pid) =>
      var w := s.Writer(pid);
      s.(writers := s.writers[pid := Linking(w.url, w.stamp, w.inode, 0)])
    case TryLink(pid) =>
      var w := s.Writer(pid);
      var entry := EntryName(w.stamp + w.bump, pid);
      (match s.dir.Linked(DraftName(w.stamp, pid), entry)
       case None => s.(writers := s.writers[pid := w.(bump := w.bump + 1)])
       case Some(d) =>
         s.(dir := d, writers := s.writers[pid := Removing(w.url, w.stamp, w.inode, Some(entry))],
            links := s.links[d.names[entry] := Link(w.url, entry)]))
    case LinkFails(pid) =>
      var w := s.Writer(pid);
      s.(writers := s.writers[pid := Removing(w.url, w.stamp, w.inode, None)])
    case RemoveDraft(pid) =>
      s.(dir := s.dir.Removed(DraftName(s.Writer(pid).stamp, pid)), writers := s.writers[pid := Idle])
    case DraftStays(pid) => s.(writers := s.writers[pid := Idle])
    case List(waiting) => s.(reader := Draining(waiting))
    case Measure => s.(reader := Measured(s.reader.todo, Fits(s.dir, s.reader.todo[0])))
    case Fetch =>
      s.(reader := Fetched(s.reader.todo,
           if s.reader.todo != [] && s.reader.fits then Text(s.dir, s.reader.todo[0]) else None))
    case Remove =>
      var i := s.dir.names[s.reader.todo[0]];
      s.(dir := s.dir.Removed(s.reader.todo[0]), reader := Draining(s.reader.todo[1..]), taken := s.taken + {i},
         delivered := s.delivered + if s.reader.link.Some? then [(i, s.reader.link.value)] else [])
    case RemoveFails => s.(reader := Draining(s.reader.todo[1..]))
    case EndDrain => s.(reader := Away)
  }

  // ----- The invariant -----

  /** A process in a deposit holds its draft's inode, which has no other name until it is linked. */
  ghost predicate Holds(s: System, pid: nat) {
    var w := s.Writer(pid);
    w.Idle? ||
    (var draft := DraftName(w.stamp, pid);
     && draft in s.dir.names && s.dir.names[draft] == w.inode && w.inode in s.dir.files
     && (w.Writing? ==> w.written <= |Encode(w.url)| && s.dir.files[w.inode] == Encode(w.url)[..w.written])
     && (!w.Writing? ==> s.dir.files[w.inode] == Encode(w.url))
     && (w.inode in s.links <==> w.Removing? && w.entry.Some?)
     && (w.inode !in s.links ==> w.inode !in s.taken)
     && (w.inode in s.links ==> s.links[w.inode] == Link(w.url, w.entry.value))
     && forall n <- s.dir.names | s.dir.names[n] == w.inode && n != draft :: IsEntry(n) && w.inode in s.links)
  }

  /** Every draft in the directory belongs to the process writing it now. */
  ghost predicate DraftsHeld(s: System) {
    forall stamp: nat, pid: nat | DraftName(stamp, pid) in s.dir.names ::
      !s.Writer(pid).Idle? && s.Writer(pid).stamp == stamp
  }

  /** A linked inode holds its whole link for good, under its own entry name until that is taken. */
  ghost predicate LinkKept(s: System, i: Inode)
    requires i in s.links
  {
    var link := s.links[i];
    && i in s.dir.files && s.dir.files[i] == Encode(link.url) && IsEntry(link.entry)
    && (i !in s.taken ==> link.entry in s.dir.names && s.dir.names[link.entry] == i)
    && forall n <- s.dir.names | s.dir.names[n] == i && IsEntry(n) :: n == link.entry && i !in s.taken
  }

  /** What the drainer has in hand is still there, and still reads as it did. */
  ghost predicate ReaderSure(s: System) {
    s.reader.Away? ||
    (var todo := s.reader.todo;
     && IsSorted(todo)
     && (forall n <- todo :: IsEntry(n) && n in s.dir.names)
     && (!s.reader.Draining? ==> todo != [])
     && (s.reader.Measured? ==> s.reader.fits == Fits(s.dir, todo[0]))
     && (s.reader.Fetched? ==> s.reader.link == Taken(s.dir, todo[0])))
  }

  /** A taken link that fits was delivered, as it was deposited, and once. */
  ghost predicate DeliveredRight(s: System) {
    && (forall k | 0 <= k < |s.delivered| :: s.delivered[k].0 in s.taken)
    && (forall k | 0 <= k < |s.delivered| && s.delivered[k].0 in s.links ::
          s.delivered[k].1 == s.links[s.delivered[k].0].url)
    && (forall j, k | 0 <= j < k < |s.delivered| && s.delivered[j].0 in s.links :: s.delivered[j].0 != s.delivered[k].0)
    && forall i <- s.links | i in s.taken && |Encode(s.links[i].url)| <= MAX_LINK_BYTES ::
         exists k :: 0 <= k < |s.delivered| && s.delivered[k].0 == i
  }

  ghost predicate Inv(s: System) {
    && s.dir.Valid()
    && (forall i <- s.taken :: i in s.dir.files)
    && (forall pid: nat :: Holds(s, pid))
    && DraftsHeld(s)
    && (forall i <- s.links :: LinkKept(s, i))
    && ReaderSure(s)
    && DeliveredRight(s)
  }

  /** Any directory no draft was left in, nobody at work on it. */
  ghost predicate Initial(s: System) {
    && s.dir.Valid() && s.writers == map[] && s.reader == Away
    && s.links == map[] && s.taken == {} && s.delivered == []
    && forall stamp: nat, pid: nat :: DraftName(stamp, pid) !in s.dir.names
  }

  lemma InitialKeepsInv(s: System)
    requires Initial(s)
    ensures Inv(s)
  {
  }

  lemma NameFacts()
    ensures forall stamp: nat, pid: nat :: !IsEntry(DraftName(stamp, pid))
    ensures forall n: nat, pid: nat :: IsEntry(EntryName(n, pid))
    ensures forall m: nat, p: nat, n: nat, q: nat :: DraftName(m, p) == DraftName(n, q) ==> m == n && p == q
  {
    forall stamp: nat, pid: nat ensures !IsEntry(DraftName(stamp, pid)) {
      DraftNameIsNoEntry(stamp, pid);
    }
    forall n: nat, pid: nat ensures IsEntry(EntryName(n, pid)) {
      EntryNameIsEntry(n, pid);
    }
    forall m: nat, p: nat, n: nat, q: nat ensures DraftName(m, p) == DraftName(n, q) ==> m == n && p == q {
      NamesAreInjective(m, p, n, q);
    }
  }

  lemma BeginKeepsInv(s: System, pid: nat, url: string, stamp: nat)
    requires Inv(s) && Enabled(s, Begin(pid, url, stamp))
    ensures Inv(Next(s, Begin(pid, url, stamp)))
  {
    hide IsEntry, DraftName, EntryName, Encode, Decode, IsSorted;
    NameFacts();
    var t := Next(s, Begin(pid, url, stamp));
    assert DraftName(stamp, pid) !in s.dir.names;
    forall p: nat ensures Holds(t, p) {
      assert Holds(s, p);
    }
    forall i <- t.links ensures LinkKept(t, i) {
      assert LinkKept(s, i);
    }
  }

  lemma WriteKeepsInv(s: System, pid: nat, count: nat)
    requires Inv(s) && Enabled(s, Write(pid, count))
    ensures Inv(Next(s, Write(pid, count)))
  {
    hide IsEntry, DraftName, EntryName, Encode, Decode, IsSorted;
    NameFacts();
    var t, w := Next(s, Write(pid, count)), s.Writer(pid);
    assert Holds(s, pid);
    var bytes := Encode(w.url);
    assert bytes[..w.written] + bytes[w.written..w.written + count] == bytes[..w.written + count];
    forall n <- s.dir.names | IsEntry(n) ensures t.dir.Read(n) == s.dir.Read(n) {
    }
    forall p: nat ensures Holds(t, p) {
      assert Holds(s, p);
    }
    forall i <- t.links ensures LinkKept(t, i) {
      assert LinkKept(s, i);
    }
  }

  lemma EndWriteKeepsInv(s: System, pid: nat)
    requires Inv(s) && Enabled(s, EndWrite(pid))
    ensures Inv(Next(s, EndWrite(pid)))
  {
    hide IsEntry, DraftName, EntryName, Encode, Decode, IsSorted;
    var t := Next(s, EndWrite(pid));
    forall p: nat ensures Holds(t, p) {
      assert Holds(s, p);
    }
    forall i <- t.links ensures LinkKept(t, i) {
      assert LinkKept(s, i);
    }
  }

  lemma ReaderUnmoved(s: System, t: System)
    requires ReaderSure(s) && t.reader == s.reader
    requires forall n <- s.dir.names | IsEntry(n) :: n in t.dir.names && t.dir.Read(n) == s.dir.Read(n)
    ensures ReaderSure(t)
  {
    hide IsEntry, Decode, IsSorted;
  }

  lemma DeliveredUnmoved(s: System, t: System, i: Inode)
    requires DeliveredRight(s) && t.delivered == s.delivered && t.taken == s.taken && i !in s.taken
    requires t.links.Keys == s.links.Keys + {i} && forall j <- s.links :: t.links[j] == s.links[j]
    ensures DeliveredRight(t)
  {
    hide Encode;
  }

  lemma TryLinkKeepsInv(s: System, pid: nat)
    requires Inv(s) && Enabled(s, TryLink(pid))
    ensures Inv(Next(s, TryLink(pid)))
  {
    hide IsEntry, DraftName, EntryName, Encode, Decode, IsSorted, ReaderSure, DeliveredRight;
    NameFacts();
    var t, w := Next(s, TryLink(pid)), s.Writer(pid);
    assert Holds(s, pid);
    ReaderUnmoved(s, t);
    forall p: nat ensures Holds(t, p) {
      assert Holds(s, p);
    }
    if EntryName(w.stamp + w.bump, pid) in s.dir.names {
      forall i <- t.links ensures LinkKept(t, i) {
        assert LinkKept(s, i);
      }
      TriedKeepsDelivered(s, t);
    } else {
      LinkedIsKept(s, pid);
      DeliveredUnmoved(s, t, w.inode);
    }
  }

  lemma TriedKeepsDelivered(s: System, t: System)
    requires DeliveredRight(s) && t.delivered == s.delivered && t.taken == s.taken && t.links == s.links
    ensures DeliveredRight(t)
  {
    hide Encode;
  }

  lemma LinkedIsKept(s: System, pid: nat)
    requires Inv(s) && Enabled(s, TryLink(pid))
    requires EntryName(s.Writer(pid).stamp + s.Writer(pid).bump, pid) !in s.dir.names
    ensures forall i <- Next(s, TryLink(pid)).links :: LinkKept(Next(s, TryLink(pid)), i)
  {
    hide IsEntry, DraftName, EntryName, Encode, Decode, ReaderSure, DeliveredRight;
    NameFacts();
    var t := Next(s, TryLink(pid));
    assert Holds(s, pid);
    forall i <- t.links ensures LinkKept(t, i) {
      assert i in s.links ==> LinkKept(s, i);
    }
  }

  lemma LinkFailsKeepsInv(s: System, pid: nat)
    requires Inv(s) && Enabled(s, LinkFails(pid))
    ensures Inv(Next(s, LinkFails(pid)))
  {
    hide IsEntry, DraftName, EntryName, Encode, Decode, IsSorted;
    var t := Next(s, LinkFails(pid));
    forall p: nat ensures Holds(t, p) {
      assert Holds(s, p);
    }
    forall i <- t.links ensures LinkKept(t, i) {
      assert LinkKept(s, i);
    }
  }

  lemma RemoveDraftKeepsInv(s: System, pid: nat)
    requires Inv(s) && Enabled(s, RemoveDraft(pid))
    ensures Inv(Next(s, RemoveDraft(pid)))
  {
    hide IsEntry, DraftName, EntryName, Encode, Decode, IsSorted;
    NameFacts();
    var t := Next(s, RemoveDraft(pid));
    assert Holds(s, pid);
    forall p: nat ensures Holds(t, p) {
      assert Holds(s, p);
    }
    forall i <- t.links ensures LinkKept(t, i) {
      assert LinkKept(s, i);
    }
  }

  lemma ListKeepsInv(s: System, waiting: seq<string>)
    requires Inv(s) && Enabled(s, List(waiting))
    ensures Inv(Next(s, List(waiting)))
  {
    hide IsEntry, DraftName, EntryName, Encode, Decode, LexLess;
    var t := Next(s, List(waiting));
    forall n <- waiting ensures IsEntry(n) && n in s.dir.names {
      assert n in Entries(s.dir);
    }
    forall p: nat ensures Holds(t, p) {
      assert Holds(s, p);
    }
    forall i <- t.links ensures LinkKept(t, i) {
      assert LinkKept(s, i);
    }
  }

  lemma ReadingKeepsInv(s: System, step: Step)
    requires Inv(s) && Enabled(s, step) && step in {Measure, Fetch, RemoveFails, EndDrain}
    ensures Inv(Next(s, step))
  {
    hide IsEntry, DraftName, EntryName, Encode, Decode, LexLess, Holds, LinkKept, DeliveredRight;
    var t := Next(s, step);
    forall p: nat ensures Holds(t, p) {
      HoldsAlike(s, t, p);
    }
    forall i <- t.links ensures LinkKept(t, i) {
      KeptAlike(s, t, i);
    }
    DeliveredAlike(s, t);
  }

  lemma HoldsAlike(s: System, t: System, pid: nat)
    requires t.dir == s.dir && t.writers == s.writers && t.links == s.links && t.taken == s.taken && Holds(s, pid)
    ensures Holds(t, pid)
  {
  }

  lemma KeptAlike(s: System, t: System, i: Inode)
    requires t.dir == s.dir && t.links == s.links && t.taken == s.taken && i in s.links && LinkKept(s, i)
    ensures LinkKept(t, i)
  {
  }

  lemma DeliveredAlike(s: System, t: System)
    requires t.links == s.links && t.taken == s.taken && t.delivered == s.delivered && DeliveredRight(s)
    ensures DeliveredRight(t)
  {
  }

  lemma RemoveDelivers(s: System)
    requires Inv(s) && Enabled(s, Remove)
    ensures var i := s.dir.names[s.reader.todo[0]];
      i in s.links ==>
        && i !in s.taken
        && (s.reader.link.Some? ==> s.reader.link.value == s.links[i].url)
        && (|Encode(s.links[i].url)| <= MAX_LINK_BYTES ==> s.reader.link.Some?)
  {
    hide IsEntry, Encode, Decode;
    var name := s.reader.todo[0];
    var i := s.dir.names[name];
    assert IsEntry(name);
    if i in s.links {
      assert LinkKept(s, i);
      DecodeEncode(s.links[i].url);
    }
  }

  lemma RemoveKeepsInv(s: System)
    requires Inv(s) && Enabled(s, Remove)
    ensures Inv(Next(s, Remove))
  {
    hide IsEntry, DraftName, EntryName, Encode, Decode, LexLess, Taken;
    NameFacts();
    RemoveDelivers(s);
    var t, todo := Next(s, Remove), s.reader.todo;
    assert IsEntry(todo[0]);
    forall n <- todo[1..] ensures n != todo[0] && n in todo {
      var k :| 1 <= k < |todo| && todo[k] == n;
      NoRepeats(todo, k);
      assert todo[0] in todo[..k];
    }
    forall p: nat ensures Holds(t, p) {
      assert Holds(s, p);
    }
    forall i <- t.links ensures LinkKept(t, i) {
      assert LinkKept(s, i);
    }
    DeliveredGrows(s);
  }

  lemma DeliveredGrows(s: System)
    requires Inv(s) && Enabled(s, Remove)
    ensures DeliveredRight(Next(s, Remove))
  {
    hide IsEntry, Encode, Decode, Taken, Holds, DraftsHeld, LinkKept, ReaderSure, Dir.Valid;
    RemoveDelivers(s);
    var t, i := Next(s, Remove), s.dir.names[s.reader.todo[0]];
    forall j <- t.links | j in t.taken && |Encode(t.links[j].url)| <= MAX_LINK_BYTES
      ensures exists k :: 0 <= k < |t.delivered| && t.delivered[k].0 == j
    {
      if j in s.taken {
        var k :| 0 <= k < |s.delivered| && s.delivered[k].0 == j;
        assert t.delivered[k].0 == j;
      } else {
        assert t.delivered[|s.delivered|].0 == j;
      }
    }
  }
}
