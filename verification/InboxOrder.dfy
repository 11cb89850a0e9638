/** Links come back in the order they were deposited. */
module InboxOrder {
  import opened Wrappers
  import opened Utf8
  import opened Digits
  import opened InboxNames
  import opened Directory
  import opened LinkInbox
  import opened Sorting

  /** No draft of this process was left behind. */
  ghost predicate NoDraft(d: Dir, pid: nat) {
    forall stamp: nat :: DraftName(stamp, pid) !in d.names
  }

  /** One deposit: the entry holds the whole link under a name that was free, no other name reads
      differently, and the draft is gone. When no name was free, nothing is left of it. */
  lemma DepositIsWhole(d: Dir, pid: nat, url: string, stamp: nat)
    requires d.Valid() && NoDraft(d, pid)
    ensures var (e, entry) := Deposited(d, pid, url, stamp);
      && e.Valid() && (forall p: nat | NoDraft(d, p) :: NoDraft(e, p))
      && (entry.Some? ==>
            && IsEntry(entry.value) && entry.value !in d.names
            && e.names.Keys == d.names.Keys + {entry.value}
            && e.Read(entry.value) == Some(Encode(url)))
      && (entry.None? ==> e.names == d.names)
      && forall n <- d.names :: e.Read(n) == d.Read(n)
  {
    hide Encode, EntryName, DraftName, IsEntry, Drafted, FirstFree;
    var draft := DraftName(stamp, pid);
    DraftNameIsNoEntry(stamp, pid);
    DraftIsFresh(d, pid, url, stamp);
    var w := Drafted(d, pid, url, stamp);
    var k := FirstFree(w.names, pid, stamp, 0);
    if k.Some? {
      var entry := EntryName(stamp + k.value, pid);
      EntryNameIsEntry(stamp + k.value, pid);
      EntryIsFree(w.names, pid, stamp, k.value);
      forall s: nat, p: nat ensures DraftName(s, p) != entry {
        DraftNameIsNoEntry(s, p);
      }
    } else {
      assert w.names - {draft} == d.names;
    }
  }

  lemma DraftIsFresh(d: Dir, pid: nat, url: string, stamp: nat)
    requires d.Valid() && NoDraft(d, pid)
    ensures var w := Drafted(d, pid, url, stamp);
      && w.names == d.names[DraftName(stamp, pid) := d.next] && w.files == d.files[d.next := Encode(url)]
      && w.next == d.next + 1
  {
    hide Encode, DraftName;
    assert [] + Encode(url) == Encode(url);
  }

  lemma EntryIsFree(names: map<string, Inode>, pid: nat, stamp: nat, k: nat)
    requires FirstFree(names, pid, stamp, 0) == Some(k)
    ensures EntryName(stamp + k, pid) !in names
  {
    hide EntryName, FirstFree;
    assert !IsTaken(names, pid, stamp, k);
  }

  // ----- A run of deposits -----

  datatype Deposit = Deposit(pid: nat, url: string, stamp: nat)

  /** The directory after a run of deposits, by any processes in turn. */
  function DepositedAll(d: Dir, ds: seq<Deposit>): Dir
    decreases |ds|
  {
    if ds == [] then d else DepositedAll(Deposited(d, ds[0].pid, ds[0].url, ds[0].stamp).0, ds[1..])
  }

  /** The number each deposit takes, when every one finds a free name below the fixed width. */
  ghost predicate Take(d: Dir, ds: seq<Deposit>, numbers: seq<nat>)
    decreases |ds|
  {
    if ds == [] then numbers == []
    else
      var (e, entry) := Deposited(d, ds[0].pid, ds[0].url, ds[0].stamp);
      && numbers != [] && numbers[0] < Pow(10, 20)
      && entry == Some(EntryName(numbers[0], ds[0].pid))
      && Take(e, ds[1..], numbers[1..])
  }

  ghost predicate NoDraftOf(d: Dir, ds: seq<Deposit>) {
    forall i | 0 <= i < |ds| :: NoDraft(d, ds[i].pid)
  }

  ghost predicate By(pid: nat, ds: seq<Deposit>) {
    forall i | 0 <= i < |ds| :: ds[i].pid == pid
  }

  ghost predicate Rising(ds: seq<Deposit>) {
    forall i, j | 0 <= i <= j < |ds| :: ds[i].stamp <= ds[j].stamp
  }

  /** Every number from `from` up to and including `to` names an entry of the process. */
  ghost predicate Full(d: Dir, pid: nat, from: int, to: int) {
    forall n: nat | from <= n <= to :: EntryName(n, pid) in d.names
  }

  lemma NumberTaken(d: Dir, pid: nat, url: string, stamp: nat, n: nat)
    requires Deposited(d, pid, url, stamp).1 == Some(EntryName(n, pid))
    ensures stamp <= n && (d.Valid() && NoDraft(d, pid) ==> EntryName(n, pid) !in d.names)
    ensures n > stamp ==> Full(d, pid, stamp, n - 1)
  {
    hide EntryName, DraftName, Encode;
    var w := Drafted(d, pid, url, stamp);
    var k := FirstFree(w.names, pid, stamp, 0);
    NamesAreInjective(stamp + k.value, pid, n, pid);
    forall m: nat | stamp <= m < n ensures EntryName(m, pid) in d.names {
      assert IsTaken(w.names, pid, stamp, m - stamp);
      EntryNameIsEntry(m, pid);
      DraftNameIsNoEntry(stamp, pid);
    }
    if d.Valid() && NoDraft(d, pid) {
      DepositIsWhole(d, pid, url, stamp);
    }
  }

  lemma OneNumber(d: Dir, pid: nat, url: string, stamp: nat, n: nat, from: int, to: int)
    requires d.Valid() && NoDraft(d, pid) && Full(d, pid, from, to) && from <= stamp
    requires Deposited(d, pid, url, stamp).1 == Some(EntryName(n, pid))
    ensures stamp <= n && (from <= to ==> to < n)
    ensures var e := Deposited(d, pid, url, stamp).0; e.Valid() && NoDraft(e, pid) && Full(e, pid, stamp, n)
  {
    hide EntryName, DraftName, IsEntry, Deposited, NoDraft;
    NumberTaken(d, pid, url, stamp, n);
    DepositIsWhole(d, pid, url, stamp);
  }

  /** Numbers rise along the run of one process, past any it already holds from the stamp reached. */
  lemma {:induction false} NumbersRise(d: Dir, pid: nat, ds: seq<Deposit>, numbers: seq<nat>, from: int, to: int)
    requires d.Valid() && NoDraft(d, pid) && By(pid, ds) && Take(d, ds, numbers) && Rising(ds)
    requires (ds != [] ==> from <= ds[0].stamp) && Full(d, pid, from, to)
    ensures |numbers| == |ds|
    ensures from <= to ==> forall i | 0 <= i < |numbers| :: to < numbers[i]
    ensures forall i, j | 0 <= i < j < |numbers| :: numbers[i] < numbers[j]
    decreases |ds|
  {
    hide EntryName, Deposited, NoDraft, Full, Pow, Dir.Valid;
    if ds != [] {
      TakeStep(d, ds, numbers);
      var e := Deposited(d, pid, ds[0].url, ds[0].stamp).0;
      RunTail(pid, ds);
      OneNumber(d, pid, ds[0].url, ds[0].stamp, numbers[0], from, to);
      NumbersRise(e, pid, ds[1..], numbers[1..], ds[0].stamp, numbers[0]);
      LiftTail(numbers);
    }
  }

  lemma RunTail(pid: nat, ds: seq<Deposit>)
    requires ds != [] && Rising(ds) && By(pid, ds)
    ensures Rising(ds[1..]) && By(pid, ds[1..]) && (|ds| > 1 ==> ds[0].stamp <= ds[1].stamp)
  {
  }

  lemma TakeStep(d: Dir, ds: seq<Deposit>, numbers: seq<nat>)
    requires ds != [] && Take(d, ds, numbers)
    ensures numbers != [] && Deposited(d, ds[0].pid, ds[0].url, ds[0].stamp).1 == Some(EntryName(numbers[0], ds[0].pid))
    ensures Take(Deposited(d, ds[0].pid, ds[0].url, ds[0].stamp).0, ds[1..], numbers[1..])
    ensures numbers[0] < Pow(10, 20)
  {
    hide EntryName, Deposited, Pow;
  }

  lemma LiftTail(s: seq<nat>)
    requires s != []
    requires forall i | 0 <= i < |s| - 1 :: s[0] < s[1..][i]
    requires forall i, j | 0 <= i < j < |s| - 1 :: s[1..][i] < s[1..][j]
    ensures forall i, j | 0 <= i < j < |s| :: s[i] < s[j]
  {
    forall i, j | 0 <= i < j < |s| ensures s[i] < s[j] {
      assert s[j] == s[1..][j - 1];
      if i > 0 {
        assert s[i] == s[1..][i - 1];
      }
    }
  }

  function Names(ds: seq<Deposit>, numbers: seq<nat>): (r: seq<string>)
    requires |numbers| == |ds|
    ensures |r| == |numbers| && forall i | 0 <= i < |numbers| :: r[i] == EntryName(numbers[i], ds[i].pid)
  {
    seq(|numbers|, i requires 0 <= i < |numbers| => EntryName(numbers[i], ds[i].pid))
  }

  lemma {:induction false} NumbersFit(d: Dir, ds: seq<Deposit>, numbers: seq<nat>)
    requires Take(d, ds, numbers)
    ensures |numbers| == |ds| && forall i | 0 <= i < |numbers| :: numbers[i] < Pow(10, 20)
    decreases |ds|
  {
    hide Deposited, EntryName, Pow;
    if ds != [] {
      NumbersFit(Deposited(d, ds[0].pid, ds[0].url, ds[0].stamp).0, ds[1..], numbers[1..]);
      forall i | 0 <= i < |numbers| ensures numbers[i] < Pow(10, 20) {
        assert i > 0 ==> numbers[i] == numbers[1..][i - 1];
      }
    }
  }

  lemma DepositLeavesNoDrafts(d: Dir, ds: seq<Deposit>)
    requires ds != [] && d.Valid() && NoDraftOf(d, ds)
    ensures var e := Deposited(d, ds[0].pid, ds[0].url, ds[0].stamp).0; e.Valid() && NoDraftOf(e, ds[1..])
  {
    hide Deposited, NoDraft, Dir.Valid;
    DepositIsWhole(d, ds[0].pid, ds[0].url, ds[0].stamp);
  }

  /** After the run every entry reads as its own link, and what was there before still reads the same. */
  lemma {:induction false} RunIsWhole(d: Dir, ds: seq<Deposit>, numbers: seq<nat>)
    requires d.Valid() && NoDraftOf(d, ds) && Take(d, ds, numbers)
    ensures |numbers| == |ds|
    ensures var e := DepositedAll(d, ds);
      && (forall n :: n in e.names <==> n in d.names || n in Names(ds, numbers))
      && (forall n <- d.names :: e.Read(n) == d.Read(n))
      && forall i | 0 <= i < |ds| :: e.Read(Names(ds, numbers)[i]) == Some(Encode(ds[i].url))
    decreases |ds|
  {
    hide EntryName, Deposited, NoDraft, Pow, Encode, Dir.Valid;
    NumbersFit(d, ds, numbers);
    if ds != [] {
      TakeStep(d, ds, numbers);
      var c := Deposited(d, ds[0].pid, ds[0].url, ds[0].stamp).0;
      DepositIsWhole(d, ds[0].pid, ds[0].url, ds[0].stamp);
      DepositLeavesNoDrafts(d, ds);
      RunIsWhole(c, ds[1..], numbers[1..]);
      var all, rest := Names(ds, numbers), Names(ds[1..], numbers[1..]);
      assert all == [all[0]] + rest;
    }
  }

  // ----- What the next drain returns -----

  /** `a` can be got from `b` by leaving elements out. */
  predicate Subsequence(a: seq<string>, b: seq<string>) {
    a == [] || (b != [] && ((a[0] == b[0] && Subsequence(a[1..], b[1..])) || Subsequence(a, b[1..])))
  }

  lemma {:induction false} SortedSubsequence(a: seq<string>, b: seq<string>)
    requires IsSorted(a) && IsSorted(b) && forall n <- a :: n in b
    ensures Subsequence(a, b)
    decreases |b|
  {
    if a != [] {
      assert a[0] in b;
      if a[0] == b[0] {
        forall n <- a[1..] ensures n in b[1..] {
          var i :| 1 <= i < |a| && a[i] == n;
          LexIrreflexive(a[0]);
          assert n in b;
        }
        SortedSubsequence(a[1..], b[1..]);
      } else {
        forall n <- a ensures n in b[1..] {
          assert n in b;
          if n == b[0] {
            var i :| 0 <= i < |a| && a[i] == n;
            var j :| 0 <= j < |b| && b[j] == a[0];
            LexTransitive(a[0], n, a[0]);
            LexIrreflexive(a[0]);
          }
        }
        SortedSubsequence(a, b[1..]);
      }
    }
  }

  lemma OneMore(a: seq<string>, b: seq<string>, x: string)
    requires Subsequence(a, b)
    ensures Subsequence(a, [x] + b) && Subsequence([x] + a, [x] + b)
  {
    assert ([x] + b)[1..] == b && ([x] + a)[1..] == a;
  }

  lemma {:induction false} LinksKeepOrder(d: Dir, a: seq<string>, b: seq<string>)
    requires Subsequence(a, b)
    ensures Subsequence(Links(d, a), Links(d, b))
    decreases |b|
  {
    if a != [] {
      hide Taken;
      var t := Links(d, b[1..]);
      var x := Taken(d, b[0]);
      assert Links(d, b) == if x.Some? then [x.value] + t else t;
      assert Links(d, a) == (if Taken(d, a[0]).Some? then [Taken(d, a[0]).value] else []) + Links(d, a[1..]);
      if a[0] == b[0] && Subsequence(a[1..], b[1..]) {
        LinksKeepOrder(d, a[1..], b[1..]);
        if x.Some? {
          OneMore(Links(d, a[1..]), t, x.value);
        } else {
          assert Links(d, a) == Links(d, a[1..]) && Links(d, b) == t;
        }
      } else {
        LinksKeepOrder(d, a, b[1..]);
        if x.Some? {
          OneMore(Links(d, a), t, x.value);
        } else {
          assert Links(d, b) == t;
        }
      }
    }
  }

  lemma {:induction false} LinksOfRun(e: Dir, names: seq<string>, ds: seq<Deposit>)
    requires |names| == |ds|
    requires forall i | 0 <= i < |ds| :: e.Read(names[i]) == Some(Encode(ds[i].url)) && |Encode(ds[i].url)| <= MAX_LINK_BYTES
    ensures Links(e, names) == Urls(ds)
  {
    hide Encode, Decode;
    if ds != [] {
      assert e.Read(names[0]) == Some(Encode(ds[0].url));
      DecodeEncode(ds[0].url);
      LinksOfRun(e, names[1..], ds[1..]);
    }
  }

  function Urls(ds: seq<Deposit>): seq<string> {
    if ds == [] then [] else [ds[0].url] + Urls(ds[1..])
  }

  lemma {:induction false} ListingsAgree(a: seq<string>, b: seq<string>)
    requires IsSorted(a) && IsSorted(b) && (forall n :: n in a <==> n in b)
    ensures a == b
    decreases |a|
  {
    SortedSubsequence(a, b);
    SortedSubsequence(b, a);
    SubsequenceBothWays(a, b);
  }

  lemma {:induction false} SubsequenceLength(a: seq<string>, b: seq<string>)
    requires Subsequence(a, b)
    ensures |a| <= |b| && (|a| == |b| ==> a == b)
    decreases |b|
  {
    if a != [] {
      if a[0] == b[0] && Subsequence(a[1..], b[1..]) {
        SubsequenceLength(a[1..], b[1..]);
      } else {
        SubsequenceLength(a, b[1..]);
      }
    }
  }

  lemma SubsequenceBothWays(a: seq<string>, b: seq<string>)
    requires Subsequence(a, b) && Subsequence(b, a)
    ensures a == b
  {
    SubsequenceLength(a, b);
    SubsequenceLength(b, a);
  }

  /** Links deposited under names that rise, with no removal in between, are drained in the order deposited,
      whatever else waits in the inbox; and they are all that is drained when nothing else does. */
  lemma DrainedInNameOrder(d: Dir, ds: seq<Deposit>, numbers: seq<nat>, waiting: seq<string>)
    requires d.Valid() && NoDraftOf(d, ds) && Take(d, ds, numbers)
    requires |numbers| == |ds| && IsSorted(Names(ds, numbers))
    requires forall x <- ds :: |Encode(x.url)| <= MAX_LINK_BYTES
    requires Lists(waiting, Entries(DepositedAll(d, ds)))
    ensures Subsequence(Urls(ds), Links(DepositedAll(d, ds), waiting))
    ensures Entries(d) == {} ==> Links(DepositedAll(d, ds), waiting) == Urls(ds)
  {
    hide EntryName, Deposited, NoDraft, Pow, Encode, Take, DepositedAll, Dir.Valid, Links, Taken, Subsequence, Urls, IsSorted;
    var e, names := DepositedAll(d, ds), Names(ds, numbers);
    RunIsWhole(d, ds, numbers);
    forall n <- names ensures n in waiting {
      var i :| 0 <= i < |names| && names[i] == n;
      EntryNameIsEntry(numbers[i], ds[i].pid);
      assert n in Entries(e);
    }
    SortedSubsequence(names, waiting);
    LinksKeepOrder(e, names, waiting);
    LinksOfRun(e, names, ds);
    if Entries(d) == {} {
      forall n <- waiting ensures n in names {
        assert n in Entries(e);
        assert n !in Entries(d);
      }
      ListingsAgree(names, waiting);
    }
  }

  /** Each deposit of the run is named before every later one: by a smaller number, or at one number by the digits
      of its process id. */
  ghost predicate NamedInOrder(ds: seq<Deposit>, numbers: seq<nat>)
    requires |numbers| == |ds|
  {
    forall i, j | 0 <= i < j < |ds| :: numbers[i] < numbers[j] || (numbers[i] == numbers[j] && IdBefore(ds[i].pid, ds[j].pid))
  }

  lemma NamesSort(ds: seq<Deposit>, numbers: seq<nat>)
    requires |numbers| == |ds| && forall i | 0 <= i < |numbers| :: numbers[i] < Pow(10, 20)
    ensures IsSorted(Names(ds, numbers)) <==> NamedInOrder(ds, numbers)
  {
    hide EntryName, Pow, LexLess, IdBefore;
    var names := Names(ds, numbers);
    forall i, j | 0 <= i < j < |ds|
      ensures LexLess(names[i], names[j]) <==> numbers[i] < numbers[j] || (numbers[i] == numbers[j] && IdBefore(ds[i].pid, ds[j].pid))
    {
      EntryNamesCompare(numbers[i], ds[i].pid, numbers[j], ds[j].pid);
    }
  }

  /** Links one process deposits with stamps that never go back, and no removal in between, are drained
      in the order deposited, by number past the names already taken. */
  lemma DrainedInDepositOrder(d: Dir, pid: nat, ds: seq<Deposit>, numbers: seq<nat>, waiting: seq<string>)
    requires d.Valid() && NoDraft(d, pid) && By(pid, ds) && Take(d, ds, numbers) && Rising(ds)
    requires forall x <- ds :: |Encode(x.url)| <= MAX_LINK_BYTES
    requires Lists(waiting, Entries(DepositedAll(d, ds)))
    ensures Subsequence(Urls(ds), Links(DepositedAll(d, ds), waiting))
    ensures Entries(d) == {} ==> Links(DepositedAll(d, ds), waiting) == Urls(ds)
  {
    hide Deposited, NoDraft, Pow, Encode, Take, DepositedAll, Dir.Valid, Links, Subsequence, Urls, IsSorted, Names;
    NumbersRise(d, pid, ds, numbers, 0, -1);
    NumbersFit(d, ds, numbers);
    NamesSort(ds, numbers);
    DrainedInNameOrder(d, ds, numbers, waiting);
  }
}
