/** The shell's coalescing rescan: changes seen while a scan runs fold into one follow-up. */
module Shell {

  /** What the shell is told: the project tree changed (the first scan at startup is asked for the same
      way), or the scan in flight settled, in success or failure. */
  datatype Event = Changed | Settled

  /** What it answers with. */
  datatype Task = Nothing | StartScan | RefreshDocs

  datatype Scanning = Scanning(inFlight: bool, pending: bool)

  function Rescan(s: Scanning): (Scanning, Task) {
    if s.inFlight then (s.(pending := true), Nothing) else (s.(inFlight := true), StartScan)
  }

  function ScanSettled(s: Scanning): (Scanning, Task) {
    if s.pending then Rescan(Scanning(false, false)) else (Scanning(false, false), RefreshDocs)
  }

  function Handle(s: Scanning, e: Event): (Scanning, Task) {
    match e
    case Changed => Rescan(s)
    case Settled => ScanSettled(s)
  }

  /** The two fields of the shell, updated in place as the dispatcher does. */
  class ShellState {
    var scanInFlight: bool
    var rescanPending: bool

    function State(): Scanning
      reads this
    {
      Scanning(scanInFlight, rescanPending)
    }

    constructor ()
      ensures State() == Scanning(false, false)
    {
      scanInFlight, rescanPending := false, false;
    }

    method RescanNow() returns (task: Task)
      modifies this
      ensures (State(), task) == Rescan(old(State()))
    {
      if scanInFlight {
        rescanPending := true;
        return Nothing;
      }
      scanInFlight := true;
      return StartScan;
    }

    /** The follow-up scan, when changes arrived while this one ran. */
    method Settle() returns (followUp: bool)
      modifies this
      ensures (State(), if followUp then StartScan else RefreshDocs) == ScanSettled(old(State()))
    {
      scanInFlight := false;
      if rescanPending {
        rescanPending := false;
        var _ := RescanNow();
        return true;
      }
      return false;
    }

    /** The dispatcher's three arms. */
    method Dispatch(e: Event) returns (task: Task)
      modifies this
      ensures (State(), task) == Handle(old(State()), e)
    {
      match e
      case Changed => task := RescanNow();
      case Settled =>
        var followUp := Settle();
        task := if followUp then StartScan else RefreshDocs;
    }
  }

  // ----- Runs -----

  function After(events: seq<Event>): Scanning {
    if events == [] then Scanning(false, false)
    else Handle(After(events[..|events| - 1]), events[|events| - 1]).0
  }

  /** What the shell answered to the event at `i`. */
  function Answer(events: seq<Event>, i: nat): Task
    requires i < |events|
  {
    Handle(After(events[..i]), events[i]).1
  }

  /** A scan settles only while one is in flight. */
  ghost predicate Legal(events: seq<Event>) {
    forall i | 0 <= i < |events| && events[i] == Settled :: After(events[..i]).inFlight
  }

  function Count(events: seq<Event>, e: Event): nat {
    if events == [] then 0
    else Count(events[..|events| - 1], e) + if events[|events| - 1] == e then 1 else 0
  }

  function Scans(events: seq<Event>): nat {
    if events == [] then 0
    else Scans(events[..|events| - 1]) + if Answer(events, |events| - 1) == StartScan then 1 else 0
  }

  lemma LegalPrefix(events: seq<Event>, n: nat)
    requires Legal(events) && n <= |events|
    ensures Legal(events[..n])
  {
    forall i | 0 <= i < n ensures events[..n][..i] == events[..i] {
    }
  }

  lemma AnswerInPrefix(events: seq<Event>, n: nat, i: nat)
    requires i < n <= |events|
    ensures Answer(events[..n], i) == Answer(events, i)
  {
    assert events[..n][..i] == events[..i];
  }

  /** At most one scan is in flight, a follow-up is owed only while one is, and no scan is started that
      no change asked for. */
  lemma {:induction false} OneScanAtATime(events: seq<Event>)
    requires Legal(events)
    ensures After(events).pending ==> After(events).inFlight
    ensures Scans(events) - Count(events, Settled) == if After(events).inFlight then 1 else 0
    ensures Scans(events) + (if After(events).pending then 1 else 0) <= Count(events, Changed)
  {
    if events != [] {
      var n := |events| - 1;
      LegalPrefix(events, n);
      OneScanAtATime(events[..n]);
    }
  }

  /** Every change is read by a scan started when it was seen or later, or one is still owed. */
  lemma {:induction false} EveryChangeIsCovered(events: seq<Event>, c: nat)
    requires Legal(events) && c < |events| && events[c] == Changed
    ensures After(events).pending || exists i :: c <= i < |events| && Answer(events, i) == StartScan
  {
    var n := |events| - 1;
    if c < n {
      LegalPrefix(events, n);
      EveryChangeIsCovered(events[..n], c);
      if i :| c <= i < n && Answer(events[..n], i) == StartScan {
        AnswerInPrefix(events, n, i);
      } else {
        assert Answer(events, n) == StartScan || After(events).pending;
      }
    } else {
      assert Answer(events, n) == StartScan || After(events).pending;
    }
  }

  /** Once nothing is in flight, the docs have been refreshed after every change. */
  lemma {:induction false} QuietMeansRefreshed(events: seq<Event>, c: nat)
    requires Legal(events) && !After(events).inFlight
    requires c < |events| && events[c] == Changed
    ensures exists i :: c < i < |events| && Answer(events, i) == RefreshDocs
  {
    var n := |events| - 1;
    assert events[n] == Settled && Answer(events, n) == RefreshDocs;
  }

  function SettlesLeft(s: Scanning): nat {
    if !s.inFlight then 0 else if s.pending then 2 else 1
  }

  lemma LegalStart(events: seq<Event>, tail: seq<Event>)
    ensures Legal(events + tail) ==> Legal(events)
  {
    assert (events + tail)[..|events|] == events;
    if Legal(events + tail) {
      LegalPrefix(events + tail, |events|);
    }
  }

  lemma LegalStep(events: seq<Event>, e: Event)
    ensures Legal(events + [e]) <==> Legal(events) && (e == Settled ==> After(events).inFlight)
    ensures After(events + [e]) == Handle(After(events), e).0
  {
    var all, n := events + [e], |events|;
    assert all[..n] == events;
    if Legal(all) {
      LegalPrefix(all, n);
    }
    forall i | 0 <= i < n ensures all[..i] == events[..i] {
    }
  }

  /** Once changes stop, the scans still to settle are counted by the two flags, at most two, and when
      the last of them settles nothing is in flight and nothing is owed. */
  lemma {:induction false} QuietAfterTwo(events: seq<Event>, tail: seq<Event>)
    requires Legal(events) && forall i | 0 <= i < |tail| :: tail[i] == Settled
    ensures SettlesLeft(After(events)) <= 2
    ensures Legal(events + tail) <==> |tail| <= SettlesLeft(After(events))
    ensures |tail| == SettlesLeft(After(events)) ==> After(events + tail) == Scanning(false, false)
    decreases |tail|
  {
    OneScanAtATime(events);
    if tail == [] {
      assert events + tail == events;
    } else {
      var next := events + [Settled];
      LegalStep(events, Settled);
      assert next + tail[1..] == events + tail;
      LegalStart(next, tail[1..]);
      if Legal(next) {
        QuietAfterTwo(next, tail[1..]);
      }
    }
  }

  /** The flags, read off the last answer. */
  lemma FlagsAfter(events: seq<Event>)
    requires Legal(events)
    ensures After(events).inFlight <==> events != [] && Answer(events, |events| - 1) != RefreshDocs
    ensures After(events).pending <==> events != [] && Answer(events, |events| - 1) == Nothing
  {
    if events != [] {
      var n := |events| - 1;
      LegalPrefix(events, n);
      OneScanAtATime(events[..n]);
    }
  }

  /** Each answer follows from the one before. A change starts a scan when none is in flight, at first and after a
      refresh, and else nothing. A scan that settles with no event since it started refreshes the documents, and
      otherwise starts the scan owed. */
  lemma AnswersFollow(events: seq<Event>, i: nat)
    requires Legal(events) && i < |events|
    ensures events[i] == Changed ==> Answer(events, i) == if i == 0 || Answer(events, i - 1) == RefreshDocs then StartScan else Nothing
    ensures events[i] == Settled ==> i > 0 && Answer(events, i) == if Answer(events, i - 1) == StartScan then RefreshDocs else StartScan
  {
    LegalPrefix(events, i);
    FlagsAfter(events[..i]);
    if i > 0 {
      AnswerInPrefix(events, i, i - 1);
    }
  }
}
