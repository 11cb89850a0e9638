/** Why a draft must be removed: what a deposit does to a link that still shares its draft's inode. */
module InboxDrafts {
  import opened Wrappers
  import opened Utf8
  import opened InboxNames
  import opened Directory
  import opened InboxProtocol
  import opened InboxSafety

  /** Every link reads as it was deposited. */
  ghost predicate LinksWhole(s: System) {
    forall i <- s.links :: i in s.dir.files && s.dir.files[i] == Encode(s.links[i].url)
  }

  /** Opening a draft keeps every link whole unless a draft of that very name is still there and still
      shares its inode with a link that holds something: opening it then empties that link. */
  lemma BeginKeepsLinksWhole(s: System, pid: nat, url: string, stamp: nat)
    requires s.dir.Valid() && LinksWhole(s) && s.Writer(pid).Idle?
    ensures var draft := DraftName(stamp, pid);
      LinksWhole(Next(s, Begin(pid, url, stamp)))
      <==> !(draft in s.dir.names && s.dir.names[draft] in s.links && s.links[s.dir.names[draft]].url != "")
  {
    hide DraftName;
    var t, draft := Next(s, Begin(pid, url, stamp)), DraftName(stamp, pid);
    if draft in s.dir.names && s.dir.names[draft] in s.links {
      var i := s.dir.names[draft];
      assert t.dir.files[i] == [];
      assert i in t.links && t.links[i] == s.links[i];
    }
  }

  const EMPTY := System(Dir(map[], map[], 0), map[], Away, map[], {}, [])

  /** A deposit of `a` by process 1 at instant 7, up to its hard link. */
  const DEPOSIT_A: seq<Step> := [Begin(1, "a", 7), Write(1, 1), EndWrite(1), TryLink(1)]

  /** Its draft removal fails, and the same process deposits again at the same instant. */
  const REUSED_DRAFT: seq<Step> := [DraftStays(1), Begin(1, "b", 7)]

  ghost function Linked(): System {
    System(Dir(map[DraftName(7, 1) := 0, EntryName(7, 1) := 0], map[0 := Encode("a")], 1),
           map[1 := Removing("a", 7, 0, Some(EntryName(7, 1)))], Away,
           map[0 := Link("a", EntryName(7, 1))], {}, [])
  }

  lemma DepositOfA()
    ensures Initial(EMPTY) && Legal(EMPTY, DEPOSIT_A) && After(EMPTY, DEPOSIT_A) == Linked()
  {
    hide DraftName, EntryName;
    NameFacts();
    EncodeAscii("a");
    var draft, steps := DraftName(7, 1), DEPOSIT_A;
    assert draft != EntryName(7, 1);
    var s1 := Next(EMPTY, steps[0]);
    assert s1 == System(Dir(map[draft := 0], map[0 := []], 1), map[1 := Writing("a", 7, 0, 0)], Away, map[], {}, []);
    var s2 := Next(s1, steps[1]);
    assert [] + Encode("a")[0..1] == Encode("a");
    assert s2.dir.files == map[0 := Encode("a")];
    var s3 := Next(s2, steps[2]);
    var s4 := Next(s3, steps[3]);
    assert s4 == Linked();
    assert steps[1..][1..][1..][1..] == [];
  }

  /** So the assumption is needed: on this run a link waiting in the inbox loses its bytes. */
  lemma ReusedDraftEmptiesALink()
    ensures Initial(EMPTY) && Legal(EMPTY, DEPOSIT_A) && Legal(After(EMPTY, DEPOSIT_A), REUSED_DRAFT)
    ensures LinksWhole(After(EMPTY, DEPOSIT_A))
    ensures !LinksWhole(After(After(EMPTY, DEPOSIT_A), REUSED_DRAFT))
  {
    DepositOfA();
    hide DraftName, EntryName, Encode;
    NameFacts();
    var s := Linked();
    var left := Next(s, REUSED_DRAFT[0]);
    BeginKeepsLinksWhole(left, 1, "b", 7);
    assert REUSED_DRAFT[1..][1..] == [];
  }

  // ----- A whole deposit -----

  predicate IsOwn(pid: nat, step: Step) {
    match step
    case Write(p, _) => p == pid
    case EndWrite(p) => p == pid
    case TryLink(p) => p == pid
    case LinkFails(p) => p == pid
    case RemoveDraft(p) => p == pid
    case DraftStays(p) => p == pid
    case _ => false
  }

  /** The steps of one deposit, up to any of them. */
  ghost predicate IsDeposit(pid: nat, url: string, stamp: nat, steps: seq<Step>) {
    steps != [] && steps[0] == Begin(pid, url, stamp) && forall k | 1 <= k < |steps| :: IsOwn(pid, steps[k])
  }

  /** A draft of that very name is still there, still shares its inode with a link, and either of the two
      links holds something. */
  ghost predicate Reopens(s: System, pid: nat, url: string, stamp: nat) {
    var draft := DraftName(stamp, pid);
    draft in s.dir.names && s.dir.names[draft] in s.links && (s.links[s.dir.names[draft]].url != "" || url != "")
  }

  /** Where a deposit is that has spoilt no link. */
  ghost predicate Spares(s: System, pid: nat, url: string) {
    && LinksWhole(s)
    && var w := s.Writer(pid);
       w.Idle? ||
       (var draft := DraftName(w.stamp, pid);
        && w.url == url && draft in s.dir.names && s.dir.names[draft] == w.inode && w.inode in s.dir.files
        && (w.Writing? ==>
              && w.written <= |Encode(url)| && s.dir.files[w.inode] == Encode(url)[..w.written]
              && (w.inode in s.links ==> url == ""))
        && (!w.Writing? ==> s.dir.files[w.inode] == Encode(url)))
  }

  lemma BeginSpares(s: System, pid: nat, url: string, stamp: nat)
    requires s.dir.Valid() && LinksWhole(s) && s.Writer(pid).Idle? && !Reopens(s, pid, url, stamp)
    ensures Spares(Next(s, Begin(pid, url, stamp)), pid, url)
  {
    hide DraftName, Encode;
    BeginKeepsLinksWhole(s, pid, url, stamp);
    assert Encode(url)[..0] == [];
  }

  lemma OwnStepSpares(s: System, pid: nat, url: string, step: Step)
    requires Spares(s, pid, url) && IsOwn(pid, step) && Enabled(s, step)
    ensures Spares(Next(s, step), pid, url)
  {
    hide DraftName, EntryName, Encode;
    EncodeNothing();
    var w := s.Writer(pid);
    match step
    case Write(_, count) =>
      var bytes := Encode(url);
      assert bytes[..w.written] + bytes[w.written..w.written + count] == bytes[..w.written + count];
    case EndWrite(_) => assert Encode(url)[..w.written] == Encode(url);
    case _ =>
  }

  lemma EncodeNothing()
    ensures Encode("") == []
  {
  }

  lemma {:induction false} OwnStepsSpare(s: System, pid: nat, url: string, steps: seq<Step>)
    requires Spares(s, pid, url) && Legal(s, steps) && forall k | 0 <= k < |steps| :: IsOwn(pid, steps[k])
    ensures LinksWhole(After(s, steps))
    decreases |steps|
  {
    hide IsOwn, Enabled, Next, LinksWhole, DraftName, Encode;
    if steps != [] {
      OwnStepSpares(s, pid, url, steps[0]);
      OwnStepsSpare(Next(s, steps[0]), pid, url, steps[1..]);
    }
  }

  /** Every link stays whole at every step of a deposit exactly when the deposit does not reopen a draft whose
      inode a link holds, unless both links are empty. */
  lemma DepositKeepsLinksWhole(s: System, pid: nat, url: string, stamp: nat)
    requires s.dir.Valid() && LinksWhole(s) && s.Writer(pid).Idle?
    ensures (forall steps | IsDeposit(pid, url, stamp, steps) && Legal(s, steps) :: LinksWhole(After(s, steps)))
       <==> !Reopens(s, pid, url, stamp)
  {
    if Reopens(s, pid, url, stamp) {
      var steps := SpoilingSteps(s, pid, url, stamp);
    } else {
      BeginSpares(s, pid, url, stamp);
      hide Enabled, Next, LinksWhole, Reopens, Spares, IsOwn;
      forall steps | IsDeposit(pid, url, stamp, steps) && Legal(s, steps) ensures LinksWhole(After(s, steps)) {
        OwnStepsSpare(Next(s, steps[0]), pid, url, steps[1..]);
      }
    }
  }

  lemma SpoilingSteps(s: System, pid: nat, url: string, stamp: nat) returns (steps: seq<Step>)
    requires s.dir.Valid() && LinksWhole(s) && s.Writer(pid).Idle? && Reopens(s, pid, url, stamp)
    ensures IsDeposit(pid, url, stamp, steps) && Legal(s, steps) && !LinksWhole(After(s, steps))
  {
    hide DraftName, Encode, Legal, After;
    EncodeNothing();
    var begin := Begin(pid, url, stamp);
    var t := Next(s, begin);
    var i := s.dir.names[DraftName(stamp, pid)];
    NoSteps(s);
    OneMore(s, [], begin);
    assert [] + [begin] == [begin];
    if s.links[i].url != "" {
      BeginKeepsLinksWhole(s, pid, url, stamp);
      steps := [begin];
    } else {
      EncodeSomething(url);
      var write := Write(pid, |Encode(url)|);
      OneMore(s, [begin], write);
      steps := [begin] + [write];
      assert Encode(url)[0..|Encode(url)|] == Encode(url);
      var u := Next(t, write);
      assert t.dir.files[i] == [] && u.dir.files[i] == [] + Encode(url) == Encode(url);
      assert i in u.links && u.links[i] == s.links[i];
    }
  }

  lemma EncodeSomething(url: string)
    requires url != ""
    ensures Encode(url) != []
  {
  }
}
