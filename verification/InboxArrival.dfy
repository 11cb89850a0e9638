/** When the inbox keeps arrival order: exactly which runs of deposits are drained as they were deposited. */
module InboxArrival {
  import opened Wrappers
  import opened Utf8
  import opened Digits
  import opened InboxNames
  import opened Directory
  import opened LinkInbox
  import opened Sorting
  import opened InboxOrder

  ghost predicate DistinctUrls(ds: seq<Deposit>) {
    forall i, j | 0 <= i < j < |ds| :: ds[i].url != ds[j].url
  }

  ghost predicate UrlsFit(ds: seq<Deposit>) {
    forall i | 0 <= i < |ds| :: |Encode(ds[i].url)| <= MAX_LINK_BYTES
  }

  // ----- Any run into an empty inbox -----

  lemma {:induction false} UrlsAt(ds: seq<Deposit>)
    ensures |Urls(ds)| == |ds| && forall k | 0 <= k < |ds| :: Urls(ds)[k] == ds[k].url
  {
    if ds != [] {
      UrlsAt(ds[1..]);
    }
  }

  /** Names that each read as a link that fits give those links. */
  lemma {:induction false} LinksAre(e: Dir, names: seq<string>, urls: seq<string>)
    requires |names| == |urls|
    requires forall i | 0 <= i < |urls| :: e.Read(names[i]) == Some(Encode(urls[i])) && |Encode(urls[i])| <= MAX_LINK_BYTES
    ensures Links(e, names) == urls
  {
    hide Encode, Decode;
    if urls != [] {
      assert e.Read(names[0]) == Some(Encode(urls[0]));
      DecodeEncode(urls[0]);
      LinksAre(e, names[1..], urls[1..]);
    }
  }

  /** What the entries listed are, when only the run filled the inbox. */
  lemma ListedAreNames(d: Dir, ds: seq<Deposit>, numbers: seq<nat>, waiting: seq<string>)
    requires d.Valid() && NoDraftOf(d, ds) && Take(d, ds, numbers) && Entries(d) == {}
    requires Lists(waiting, Entries(DepositedAll(d, ds)))
    ensures |numbers| == |ds| && forall n :: n in waiting <==> n in Names(ds, numbers)
  {
    hide EntryName, Deposited, NoDraft, Pow, Encode, Take, DepositedAll, Dir.Valid, IsSorted, IsEntry;
    RunIsWhole(d, ds, numbers);
    var e, names := DepositedAll(d, ds), Names(ds, numbers);
    forall n ensures n in waiting <==> n in names {
      if n in names {
        var i :| 0 <= i < |names| && names[i] == n;
        EntryNameIsEntry(numbers[i], ds[i].pid);
        assert n in Entries(e);
      }
      if n in waiting {
        assert n in Entries(e);
        assert n !in Entries(d);
      }
    }
  }

  /** `name` is that of a deposit of `url`. */
  ghost predicate IsNameOf(ds: seq<Deposit>, names: seq<string>, name: string, url: string)
    requires |names| == |ds|
  {
    exists i :: 0 <= i < |ds| && names[i] == name && ds[i].url == url
  }

  lemma OneName(ds: seq<Deposit>, names: seq<string>, name: string, k: nat)
    requires |names| == |ds| && k < |ds| && DistinctUrls(ds) && IsNameOf(ds, names, name, ds[k].url)
    ensures name == names[k]
  {
    var i :| 0 <= i < |ds| && names[i] == name && ds[i].url == ds[k].url;
    assert i == k;
  }

  lemma UrlOfName(e: Dir, ds: seq<Deposit>, names: seq<string>, name: string) returns (url: string)
    requires |names| == |ds| && name in names && UrlsFit(ds)
    requires forall i | 0 <= i < |ds| :: e.Read(names[i]) == Some(Encode(ds[i].url))
    ensures IsNameOf(ds, names, name, url) && e.Read(name) == Some(Encode(url)) && |Encode(url)| <= MAX_LINK_BYTES
  {
    hide Encode;
    var i :| 0 <= i < |names| && names[i] == name;
    url := ds[i].url;
  }

  lemma {:induction false} UrlsOfNames(e: Dir, ds: seq<Deposit>, names: seq<string>, waiting: seq<string>) returns (urls: seq<string>)
    requires |names| == |ds| && (forall k | 0 <= k < |waiting| :: waiting[k] in names) && UrlsFit(ds)
    requires forall i | 0 <= i < |ds| :: e.Read(names[i]) == Some(Encode(ds[i].url))
    ensures |urls| == |waiting| && forall k | 0 <= k < |waiting| :: IsNameOf(ds, names, waiting[k], urls[k])
    ensures forall k | 0 <= k < |waiting| :: e.Read(waiting[k]) == Some(Encode(urls[k])) && |Encode(urls[k])| <= MAX_LINK_BYTES
  {
    hide Encode, IsNameOf, UrlsFit;
    if waiting == [] {
      urls := [];
    } else {
      var url := UrlOfName(e, ds, names, waiting[0]);
      var rest := UrlsOfNames(e, ds, names, waiting[1..]);
      urls := [url] + rest;
    }
  }

  /** Drained links in deposit order mean the names were listed in it: distinct links tell the names apart. */
  lemma OrderedLinksOrderNames(e: Dir, ds: seq<Deposit>, names: seq<string>, waiting: seq<string>)
    requires |names| == |ds| && (forall n <- waiting :: n in names)
    requires forall i | 0 <= i < |ds| :: e.Read(names[i]) == Some(Encode(ds[i].url))
    requires DistinctUrls(ds) && UrlsFit(ds) && Links(e, waiting) == Urls(ds)
    ensures waiting == names
  {
    hide Encode, Links, Urls, IsNameOf, DistinctUrls, UrlsFit;
    var urls := UrlsOfNames(e, ds, names, waiting);
    LinksAre(e, waiting, urls);
    UrlsAt(ds);
    forall k | 0 <= k < |ds| ensures waiting[k] == names[k] {
      assert urls[k] == ds[k].url;
      OneName(ds, names, waiting[k], k);
    }
  }

  /** Into an empty inbox, the links of a run are drained in deposit order exactly when the run's names rise: each
      number is smaller than every later one, or the same with the process ids' digits in order. */
  lemma DrainedInOrderIff(d: Dir, ds: seq<Deposit>, numbers: seq<nat>, waiting: seq<string>)
    requires d.Valid() && NoDraftOf(d, ds) && Take(d, ds, numbers) && Entries(d) == {}
    requires DistinctUrls(ds) && UrlsFit(ds)
    requires Lists(waiting, Entries(DepositedAll(d, ds)))
    ensures |numbers| == |ds|
    ensures Links(DepositedAll(d, ds), waiting) == Urls(ds) <==> NamedInOrder(ds, numbers)
  {
    hide EntryName, Deposited, NoDraft, Pow, Encode, Take, DepositedAll, Dir.Valid, Links, Urls, IsSorted, Names, NamedInOrder;
    NumbersFit(d, ds, numbers);
    var e, names := DepositedAll(d, ds), Names(ds, numbers);
    NamesSort(ds, numbers);
    ListedAreNames(d, ds, numbers, waiting);
    RunIsWhole(d, ds, numbers);
    if IsSorted(names) {
      assert forall x <- ds :: |Encode(x.url)| <= MAX_LINK_BYTES;
      DrainedInNameOrder(d, ds, numbers, waiting);
    }
    if Links(e, waiting) == Urls(ds) {
      NamesLength(ds, numbers);
      OrderedLinksOrderNames(e, ds, names, waiting);
    }
  }

  lemma NamesLength(ds: seq<Deposit>, numbers: seq<nat>)
    requires |numbers| == |ds|
    ensures |Names(ds, numbers)| == |ds|
  {
  }

  // ----- The numbers a run takes, from its instants alone -----

  /** The number of each deposit, `last` being the last number of every process so far: its instant, or one past
      the process's last number when that has been reached. */
  function Numbers(ds: seq<Deposit>, last: map<nat, nat>): (numbers: seq<nat>)
    ensures |numbers| == |ds|
  {
    if ds == [] then []
    else
      var n := NextNumber(ds[0], last);
      [n] + Numbers(ds[1..], last[ds[0].pid := n])
  }

  function NextNumber(x: Deposit, last: map<nat, nat>): nat {
    if x.pid in last && last[x.pid] >= x.stamp then last[x.pid] + 1 else x.stamp
  }

  /** The thousand tries and the fixed width reach the numbers. */
  ghost predicate InReach(ds: seq<Deposit>, numbers: seq<nat>)
    requires |numbers| == |ds|
  {
    forall i | 0 <= i < |ds| :: numbers[i] < ds[i].stamp + TRIES && numbers[i] < Pow(10, 20)
  }

  ghost predicate NoEntry(d: Dir, pid: nat) {
    forall n: nat :: EntryName(n, pid) !in d.names
  }

  /** What process `p` holds from instant `from` on: everything up to its last number, and nothing past it. */
  ghost predicate HoldsUpTo(d: Dir, p: nat, from: int, last: map<nat, nat>) {
    if p in last then
      Full(d, p, from, last[p]) && forall n: nat | n > last[p] :: EntryName(n, p) !in d.names
    else
      NoEntry(d, p)
  }

  /** A clock that does not go back, and a directory the run so far has filled. */
  ghost predicate Reached(d: Dir, ds: seq<Deposit>, from: int, last: map<nat, nat>) {
    && d.Valid() && NoDraftOf(d, ds) && Rising(ds) && (ds != [] ==> from <= ds[0].stamp)
    && forall i | 0 <= i < |ds| :: HoldsUpTo(d, ds[i].pid, from, last)
  }

  lemma NumberIsFree(d: Dir, x: Deposit, from: int, last: map<nat, nat>)
    requires d.Valid() && NoDraft(d, x.pid) && HoldsUpTo(d, x.pid, from, last) && from <= x.stamp
    ensures var n := NextNumber(x, last);
      n >= x.stamp && EntryName(n, x.pid) !in d.names && Full(d, x.pid, x.stamp, n - 1)
  {
    hide EntryName, Dir.Valid, NoDraft;
  }

  /** One deposit takes the next number, when the tries reach it, and no other. */
  lemma TakesNextNumber(d: Dir, x: Deposit, from: int, last: map<nat, nat>)
    requires d.Valid() && NoDraft(d, x.pid) && HoldsUpTo(d, x.pid, from, last) && from <= x.stamp
    ensures var n := NextNumber(x, last);
      Deposited(d, x.pid, x.url, x.stamp).1 == if n < x.stamp + TRIES then Some(EntryName(n, x.pid)) else None
  {
    NumberIsFree(d, x, from, last);
    hide EntryName, DraftName, Encode, FirstFree, Drafted, HoldsUpTo, NextNumber;
    DraftIsFresh(d, x.pid, x.url, x.stamp);
    var n := NextNumber(x, last);
    FirstFreeIs(d, x.pid, x.url, x.stamp, n);
  }

  lemma FirstFreeIs(d: Dir, pid: nat, url: string, stamp: nat, n: nat)
    requires d.Valid() && NoDraft(d, pid) && n >= stamp && EntryName(n, pid) !in d.names && Full(d, pid, stamp, n - 1)
    ensures FirstFree(Drafted(d, pid, url, stamp).names, pid, stamp, 0) == if n < stamp + TRIES then Some(n - stamp) else None
  {
    hide EntryName, DraftName, Encode, FirstFree, Drafted;
    DraftIsFresh(d, pid, url, stamp);
    var names := Drafted(d, pid, url, stamp).names;
    forall k: nat ensures IsTaken(names, pid, stamp, k) <==> EntryName(stamp + k, pid) in d.names {
      EntryNameIsEntry(stamp + k, pid);
      DraftNameIsNoEntry(stamp, pid);
    }
    forall k: nat | k < n - stamp ensures IsTaken(names, pid, stamp, k) {
      assert EntryName(stamp + k, pid) in d.names;
    }
    assert !IsTaken(names, pid, stamp, n - stamp) by {
      assert stamp + (n - stamp) == n;
    }
  }

  lemma ReachedNext(d: Dir, ds: seq<Deposit>, from: int, last: map<nat, nat>)
    requires ds != [] && Reached(d, ds, from, last) && NextNumber(ds[0], last) < ds[0].stamp + TRIES
    ensures var (x, n) := (ds[0], NextNumber(ds[0], last));
      && Deposited(d, x.pid, x.url, x.stamp).1 == Some(EntryName(n, x.pid))
      && Reached(Deposited(d, x.pid, x.url, x.stamp).0, ds[1..], x.stamp, last[x.pid := n])
  {
    hide EntryName, Deposited, Dir.Valid, NoDraft, HoldsUpTo, NextNumber;
    var x, n := ds[0], NextNumber(ds[0], last);
    assert HoldsUpTo(d, ds[0].pid, from, last);
    TakesNextNumber(d, x, from, last);
    DepositLeavesNoDrafts(d, ds);
    DepositIsWhole(d, x.pid, x.url, x.stamp);
    var e := Deposited(d, x.pid, x.url, x.stamp).0;
    forall i | 0 <= i < |ds| - 1 ensures HoldsUpTo(e, ds[1..][i].pid, x.stamp, last[x.pid := n]) {
      assert HoldsUpTo(d, ds[i + 1].pid, from, last);
      HoldsNext(d, e, x, ds[i + 1].pid, from, last);
    }
  }

  lemma HoldsNext(d: Dir, e: Dir, x: Deposit, p: nat, from: int, last: map<nat, nat>)
    requires d.Valid() && NoDraft(d, x.pid)
    requires HoldsUpTo(d, x.pid, from, last) && HoldsUpTo(d, p, from, last) && from <= x.stamp
    requires e.names.Keys == d.names.Keys + {EntryName(NextNumber(x, last), x.pid)}
    ensures HoldsUpTo(e, p, x.stamp, last[x.pid := NextNumber(x, last)])
  {
    NumberIsFree(d, x, from, last);
    hide EntryName, Dir.Valid, NoDraft;
    var n := NextNumber(x, last);
    forall m: nat ensures EntryName(m, p) in e.names <==> EntryName(m, p) in d.names || (m == n && p == x.pid) {
      NamesAreInjective(m, p, n, x.pid);
    }
  }

  lemma InReachNext(ds: seq<Deposit>, numbers: seq<nat>)
    requires |numbers| == |ds| > 0
    ensures InReach(ds, numbers) <==>
      numbers[0] < ds[0].stamp + TRIES && numbers[0] < Pow(10, 20) && InReach(ds[1..], numbers[1..])
  {
    hide Pow;
    if InReach(ds[1..], numbers[1..]) {
      assert forall i | 1 <= i < |ds| :: numbers[i] == numbers[1..][i - 1] && ds[i] == ds[1..][i - 1];
    }
  }

  /** Which numbers a run takes under a clock that does not go back, and when it takes any: exactly those of its
      instants, when the tries and the width reach them. */
  lemma {:induction false} TakenNumbers(d: Dir, ds: seq<Deposit>, numbers: seq<nat>, from: int, last: map<nat, nat>)
    requires Reached(d, ds, from, last)
    ensures Take(d, ds, numbers) <==> numbers == Numbers(ds, last) && InReach(ds, Numbers(ds, last))
    decreases |ds|
  {
    hide EntryName, Deposited, Pow, Reached, InReach, NextNumber;
    if ds != [] {
      var x, n := ds[0], NextNumber(ds[0], last);
      InReachNext(ds, Numbers(ds, last));
      if n < x.stamp + TRIES {
        ReachedNext(d, ds, from, last);
        var e := Deposited(d, x.pid, x.url, x.stamp).0;
        if numbers != [] {
          TakenNumbers(e, ds[1..], numbers[1..], x.stamp, last[x.pid := n]);
          NamesAreInjective(numbers[0], x.pid, n, x.pid);
          assert numbers == [numbers[0]] + numbers[1..];
        }
      } else {
        assert HoldsUpTo(d, ds[0].pid, from, last) && d.Valid() && NoDraft(d, x.pid) && from <= x.stamp by {
          FirstReached(d, ds, from, last);
        }
        TakesNextNumber(d, x, from, last);
      }
    } else {
      EmptyInReach();
    }
  }

  lemma FirstReached(d: Dir, ds: seq<Deposit>, from: int, last: map<nat, nat>)
    requires ds != [] && Reached(d, ds, from, last)
    ensures HoldsUpTo(d, ds[0].pid, from, last) && d.Valid() && NoDraft(d, ds[0].pid) && from <= ds[0].stamp
  {
    hide HoldsUpTo, NoDraft, Dir.Valid;
  }

  lemma EmptyInReach()
    ensures InReach([], [])
  {
  }

  lemma EmptyInboxReached(d: Dir, ds: seq<Deposit>)
    requires d.Valid() && NoDraftOf(d, ds) && Rising(ds) && Entries(d) == {}
    ensures Reached(d, ds, 0, map[])
  {
    hide EntryName, NoDraft, Dir.Valid, IsEntry;
    forall p: nat, n: nat ensures EntryName(n, p) !in d.names {
      EntryNameIsEntry(n, p);
      assert EntryName(n, p) in d.names ==> EntryName(n, p) in Entries(d);
    }
  }

  /** The documented arrival order, for a clock that does not go back and an empty inbox: the links are drained as
      they arrived exactly when the numbers their instants give rise, ids' digits breaking ties. */
  lemma ArrivalOrderIff(d: Dir, ds: seq<Deposit>, waiting: seq<string>)
    requires d.Valid() && NoDraftOf(d, ds) && Rising(ds) && Entries(d) == {}
    requires InReach(ds, Numbers(ds, map[]))
    requires DistinctUrls(ds) && UrlsFit(ds)
    requires Lists(waiting, Entries(DepositedAll(d, ds)))
    ensures Links(DepositedAll(d, ds), waiting) == Urls(ds) <==> NamedInOrder(ds, Numbers(ds, map[]))
  {
    hide EntryName, Deposited, NoDraft, Pow, Encode, Take, DepositedAll, Dir.Valid, Links, Urls, IsSorted, NamedInOrder, Numbers, Reached;
    EmptyInboxReached(d, ds);
    TakenNumbers(d, ds, Numbers(ds, map[]), 0, map[]);
    DrainedInOrderIff(d, ds, Numbers(ds, map[]), waiting);
  }

  // ----- Launches, each a process of its own -----

  /** One deposit a process, none of which has anything in the inbox yet. */
  ghost predicate AreLaunches(d: Dir, ds: seq<Deposit>) {
    && (forall i | 0 <= i < |ds| :: NoDraft(d, ds[i].pid) && NoEntry(d, ds[i].pid))
    && forall i, j | 0 <= i < j < |ds| :: ds[i].pid != ds[j].pid
  }

  function Stamps(ds: seq<Deposit>): (r: seq<nat>)
    ensures |r| == |ds| && forall i | 0 <= i < |ds| :: r[i] == ds[i].stamp
  {
    seq(|ds|, i requires 0 <= i < |ds| => ds[i].stamp)
  }

  lemma LaunchTakesItsStamp(d: Dir, pid: nat, url: string, stamp: nat)
    requires d.Valid() && NoDraft(d, pid) && NoEntry(d, pid)
    ensures Deposited(d, pid, url, stamp).1 == Some(EntryName(stamp, pid))
  {
    hide EntryName, DraftName, Encode;
    EntryNameIsEntry(stamp, pid);
    DraftNameIsNoEntry(stamp, pid);
    assert !IsTaken(Drafted(d, pid, url, stamp).names, pid, stamp, 0);
  }

  lemma LaunchesLeft(d: Dir, ds: seq<Deposit>)
    requires ds != [] && d.Valid() && AreLaunches(d, ds)
    ensures var e := Deposited(d, ds[0].pid, ds[0].url, ds[0].stamp).0; e.Valid() && AreLaunches(e, ds[1..])
  {
    hide EntryName, Deposited, NoDraft, Dir.Valid;
    var x := ds[0];
    var e := Deposited(d, x.pid, x.url, x.stamp).0;
    DepositIsWhole(d, x.pid, x.url, x.stamp);
    LaunchTakesItsStamp(d, x.pid, x.url, x.stamp);
    forall i | 1 <= i < |ds| ensures NoEntry(e, ds[i].pid) {
      forall n: nat ensures EntryName(n, ds[i].pid) !in e.names {
        NamesAreInjective(n, ds[i].pid, x.stamp, x.pid);
      }
    }
  }

  /** Every launch takes the number of its own instant. */
  lemma {:induction false} LaunchesTakeTheirStamps(d: Dir, ds: seq<Deposit>)
    requires d.Valid() && AreLaunches(d, ds) && forall i | 0 <= i < |ds| :: ds[i].stamp < Pow(10, 20)
    ensures Take(d, ds, Stamps(ds))
    decreases |ds|
  {
    hide EntryName, Deposited, NoDraft, NoEntry, Pow, Dir.Valid;
    if ds != [] {
      LaunchTakesItsStamp(d, ds[0].pid, ds[0].url, ds[0].stamp);
      LaunchesLeft(d, ds);
      LaunchesTakeTheirStamps(Deposited(d, ds[0].pid, ds[0].url, ds[0].stamp).0, ds[1..]);
      assert Stamps(ds)[1..] == Stamps(ds[1..]);
    }
  }

  /** Each launch before every later one by its instant, or at one instant by the digits of its process id. */
  ghost predicate LaunchedInOrder(ds: seq<Deposit>) {
    forall i, j | 0 <= i < j < |ds| :: ds[i].stamp < ds[j].stamp || (ds[i].stamp == ds[j].stamp && IdBefore(ds[i].pid, ds[j].pid))
  }

  lemma StampsName(ds: seq<Deposit>)
    ensures NamedInOrder(ds, Stamps(ds)) <==> LaunchedInOrder(ds)
  {
    hide IdBefore;
  }

  /** Launches that deposit one link each, at rising instants, are drained in the order they arrived. */
  lemma LaunchesAreDrainedInOrder(d: Dir, ds: seq<Deposit>, waiting: seq<string>)
    requires d.Valid() && AreLaunches(d, ds)
    requires forall i | 0 <= i < |ds| :: ds[i].stamp < Pow(10, 20)
    requires forall i, j | 0 <= i < j < |ds| :: ds[i].stamp < ds[j].stamp
    requires forall x <- ds :: |Encode(x.url)| <= MAX_LINK_BYTES
    requires Lists(waiting, Entries(DepositedAll(d, ds)))
    ensures Subsequence(Urls(ds), Links(DepositedAll(d, ds), waiting))
    ensures Entries(d) == {} ==> Links(DepositedAll(d, ds), waiting) == Urls(ds)
  {
    hide Deposited, NoDraft, NoEntry, Pow, Encode, Take, DepositedAll, Dir.Valid, Links, Subsequence, Urls, IsSorted, Names;
    LaunchesTakeTheirStamps(d, ds);
    StampsName(ds);
    NamesSort(ds, Stamps(ds));
    DrainedInNameOrder(d, ds, Stamps(ds), waiting);
  }

  /** Launches into an empty inbox are drained in the order deposited exactly when each instant is before every later
      one, or the same with the process ids' digits in order. */
  lemma LaunchOrderIff(d: Dir, ds: seq<Deposit>, waiting: seq<string>)
    requires d.Valid() && AreLaunches(d, ds) && Entries(d) == {}
    requires forall i | 0 <= i < |ds| :: ds[i].stamp < Pow(10, 20)
    requires DistinctUrls(ds) && UrlsFit(ds)
    requires Lists(waiting, Entries(DepositedAll(d, ds)))
    ensures Links(DepositedAll(d, ds), waiting) == Urls(ds) <==> LaunchedInOrder(ds)
  {
    hide Deposited, NoDraft, NoEntry, Pow, Encode, Take, DepositedAll, Dir.Valid, Links, Urls, IsSorted, NamedInOrder, LaunchedInOrder;
    LaunchesTakeTheirStamps(d, ds);
    StampsName(ds);
    DrainedInOrderIff(d, ds, Stamps(ds), waiting);
  }

  // ----- Two runs that lose the order -----

  const EMPTY_DIR := Dir(map[], map[], 0)

  /** Process 9, then process 10, at one instant. */
  const TIED: seq<Deposit> := [Deposit(9, "a", 7), Deposit(10, "b", 7)]

  lemma TieLosesOrder(waiting: seq<string>)
    requires Lists(waiting, Entries(DepositedAll(EMPTY_DIR, TIED)))
    ensures Links(DepositedAll(EMPTY_DIR, TIED), waiting) != Urls(TIED)
  {
    hide Deposited, Pow, Encode, DepositedAll, Links, Urls, IsSorted, IdBefore, EntryName, DraftName;
    TenBeforeNine();
    ShortUrlsFit();
    BelowTheWidth();
    assert IdBefore(TIED[1].pid, TIED[0].pid);
    LaunchOrderIff(EMPTY_DIR, TIED, waiting);
  }

  /** Process 4 three times at instant 7, which takes 7, 8 and 9; then process 5 at instant 8, which takes 8. */
  const BUMPED: seq<Deposit> := [Deposit(4, "a", 7), Deposit(4, "b", 7), Deposit(4, "c", 7), Deposit(5, "d", 8)]

  /** No two processes share an instant here: the bumps of one carry it past the instant of the next. */
  lemma BumpLosesOrder(waiting: seq<string>)
    requires Lists(waiting, Entries(DepositedAll(EMPTY_DIR, BUMPED)))
    ensures Take(EMPTY_DIR, BUMPED, [7, 8, 9, 8])
    ensures Links(DepositedAll(EMPTY_DIR, BUMPED), waiting) != Urls(BUMPED)
  {
    hide Deposited, Pow, Encode, DepositedAll, Links, Urls, IsSorted, IdBefore, EntryName, DraftName, Take;
    BumpedNumbers();
    ShortUrlsFit();
    BelowTheWidth();
    EmptyInboxReached(EMPTY_DIR, BUMPED);
    TakenNumbers(EMPTY_DIR, BUMPED, [7, 8, 9, 8], 0, map[]);
    assert !NamedInOrder(BUMPED, [7, 8, 9, 8]) by {
      assert [7, 8, 9, 8][2] == 9 && [7, 8, 9, 8][3] == 8;
    }
    ArrivalOrderIff(EMPTY_DIR, BUMPED, waiting);
  }

  lemma BumpedNumbers()
    ensures Numbers(BUMPED, map[]) == [7, 8, 9, 8]
  {
    assert BUMPED[1..] == [Deposit(4, "b", 7), Deposit(4, "c", 7), Deposit(5, "d", 8)];
    assert BUMPED[1..][1..] == [Deposit(4, "c", 7), Deposit(5, "d", 8)];
    assert BUMPED[1..][1..][1..] == [Deposit(5, "d", 8)];
    assert map[4 := 7][4 := 8] == map[4 := 8] && map[4 := 8][4 := 9] == map[4 := 9];
    assert Numbers([Deposit(5, "d", 8)], map[4 := 9]) == [8];
    assert Numbers(BUMPED[1..][1..], map[4 := 8]) == [9, 8];
    assert Numbers(BUMPED[1..], map[4 := 7]) == [8, 9, 8];
  }

  lemma ShortUrlsFit()
    ensures UrlsFit(TIED) && UrlsFit(BUMPED)
  {
    EncodeAscii("a");
    EncodeAscii("b");
    EncodeAscii("c");
    EncodeAscii("d");
    hide Encode;
  }

  lemma BelowTheWidth()
    ensures 10 <= Pow(10, 20)
  {
    PowGrows(10, 20);
  }
}
