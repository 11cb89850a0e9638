/** The file names of the link inbox: an entry's, and the draft's it is linked from. */
module InboxNames {
  import opened Digits

  const ENTRY := ".url"

  function EntryName(n: nat, pid: nat): string {
    ZeroPadded(n, 20) + "-" + Render(pid, 10) + ENTRY
  }

  function DraftName(stamp: nat, pid: nat): string {
    ZeroPadded(stamp, 20) + "-" + Render(pid, 10) + ENTRY + ".tmp"
  }

  predicate EndsWith(s: string, suffix: string) {
    |suffix| <= |s| && s[|s| - |suffix|..] == suffix
  }

  /** The names a drain takes. */
  predicate IsEntry(name: string) {
    EndsWith(name, ENTRY)
  }

  lemma EntryNameIsEntry(n: nat, pid: nat)
    ensures IsEntry(EntryName(n, pid))
  {
  }

  /** A draft is never listed by a drain. */
  lemma DraftNameIsNoEntry(stamp: nat, pid: nat)
    ensures !IsEntry(DraftName(stamp, pid))
  {
    var d := DraftName(stamp, pid);
    assert d[|d| - 1] == 'p';
  }

  ghost predicate NoDash(a: string) {
    forall i | 0 <= i < |a| :: a[i] != '-'
  }

  lemma SplitAtDash(a: string, x: string, b: string, y: string)
    requires NoDash(a) && NoDash(b) && a + "-" + x == b + "-" + y
    ensures a == b && x == y
  {
    var s := a + "-" + x;
    assert s[|a|] == '-' && s[|b|] == '-';
    assert a == s[..|a|] && b == s[..|b|];
    assert |a| == |b|;
    assert x == s[|a| + 1..] && y == s[|b| + 1..];
  }

  lemma SameSuffix(a: string, b: string, suffix: string)
    requires a + suffix == b + suffix
    ensures a == b
  {
    assert a == (a + suffix)[..|a|] && b == (b + suffix)[..|b|];
  }

  lemma ZeroPaddedReadsBack(n: nat, w: nat)
    ensures Value(ZeroPadded(n, w), 10) == n
    ensures NoDash(ZeroPadded(n, w))
  {
    hide Render, Value, Zeros, IsDigits;
    RenderReadsBack(n, 10);
    if |Render(n, 10)| < w {
      ValueOfZeros(w - |Render(n, 10)|, Render(n, 10));
    }
    ZeroPaddedIsDecimal(n, w);
    forall i | 0 <= i < |ZeroPadded(n, w)| ensures ZeroPadded(n, w)[i] != '-' {
      assert ZeroPadded(n, w)[i] in ZeroPadded(n, w);
    }
  }

  /** A name belongs to one process and one number. */
  lemma NamesAreInjective(m: nat, p: nat, n: nat, q: nat)
    ensures EntryName(m, p) == EntryName(n, q) ==> m == n && p == q
    ensures DraftName(m, p) == DraftName(n, q) ==> m == n && p == q
  {
    hide ZeroPadded, Render, Value, IsDigits, NoDash;
    ZeroPaddedReadsBack(m, 20);
    ZeroPaddedReadsBack(n, 20);
    RenderReadsBack(p, 10);
    RenderReadsBack(q, 10);
    var a, x, b, y := ZeroPadded(m, 20), Render(p, 10), ZeroPadded(n, 20), Render(q, 10);
    if EntryName(m, p) == EntryName(n, q) {
      SplitNames(a, x, b, y, ENTRY);
    }
    if DraftName(m, p) == DraftName(n, q) {
      assert DraftName(m, p) == a + "-" + x + (ENTRY + ".tmp");
      assert DraftName(n, q) == b + "-" + y + (ENTRY + ".tmp");
      SplitNames(a, x, b, y, ENTRY + ".tmp");
    }
  }

  lemma SplitNames(a: string, x: string, b: string, y: string, suffix: string)
    requires NoDash(a) && NoDash(b) && a + "-" + x + suffix == b + "-" + y + suffix
    ensures a == b && x == y
  {
    SameSuffix(a + "-" + x, b + "-" + y, suffix);
    SplitAtDash(a, x, b, y);
  }

  // ----- The order of names -----

  /** The digits of one process id sort before those of the other: 10 before 9, and 1 before 10. */
  predicate IdBefore(p: nat, q: nat) {
    LexLess(Render(p, 10), Render(q, 10))
  }

  /** What follows an id sorts before any digit, so the ids decide. */
  lemma {:induction false} SuffixKeepsOrder(x: string, y: string)
    requires (forall c <- x :: c >= '0') && (forall c <- y :: c >= '0')
    ensures LexLess(x + ENTRY, y + ENTRY) <==> LexLess(x, y)
  {
    if x == [] || y == [] {
      assert [] + ENTRY == ENTRY;
      LexIrreflexive(ENTRY);
      assert x != [] ==> x[0] in x;
      assert y != [] ==> y[0] in y;
    } else {
      assert (forall c <- x[1..] :: c in x) && (forall c <- y[1..] :: c in y);
      assert (x + ENTRY)[1..] == x[1..] + ENTRY && (y + ENTRY)[1..] == y[1..] + ENTRY;
      SuffixKeepsOrder(x[1..], y[1..]);
    }
  }

  lemma IdDigits(p: nat)
    ensures forall c <- Render(p, 10) :: c >= '0'
  {
    hide Render;
    RenderIsDecimal(p);
  }

  /** Entries of any processes sort by their numbers, as long as those fit the fixed width, and entries of one
      number by the digits of their process ids. */
  lemma EntryNamesCompare(m: nat, p: nat, n: nat, q: nat)
    requires m < Pow(10, 20) && n < Pow(10, 20)
    ensures LexLess(EntryName(m, p), EntryName(n, q)) <==> m < n || (m == n && IdBefore(p, q))
  {
    hide ZeroPadded, Render, Pow, LexLess;
    ZeroPaddedOrder(m, n, 20);
    IdTextsCompare(p, q);
    var a, b, x, y := ZeroPadded(m, 20), ZeroPadded(n, 20), "-" + Render(p, 10) + ENTRY, "-" + Render(q, 10) + ENTRY;
    LexConcat(a, x, b, y);
    assert EntryName(m, p) == a + x && EntryName(n, q) == b + y;
  }

  lemma IdTextsCompare(p: nat, q: nat)
    ensures LexLess("-" + Render(p, 10) + ENTRY, "-" + Render(q, 10) + ENTRY) <==> IdBefore(p, q)
  {
    hide Render, LexLess;
    var x, y := Render(p, 10) + ENTRY, Render(q, 10) + ENTRY;
    IdDigits(p);
    IdDigits(q);
    SuffixKeepsOrder(Render(p, 10), Render(q, 10));
    assert "-" + Render(p, 10) + ENTRY == "-" + x && "-" + Render(q, 10) + ENTRY == "-" + y;
    LexConcat("-", x, "-", y);
    LexIrreflexive("-");
  }

  /** Two processes at one number sort by the digits of their ids, whichever came first, and at any number. */
  lemma SameInstantSortsByIdText(stamp: nat, p: nat, q: nat)
    ensures LexLess(EntryName(stamp, p), EntryName(stamp, q)) <==> IdBefore(p, q)
  {
    hide ZeroPadded, Render, LexLess;
    IdTextsCompare(p, q);
    var a, x, y := ZeroPadded(stamp, 20), "-" + Render(p, 10) + ENTRY, "-" + Render(q, 10) + ENTRY;
    LexConcat(a, x, a, y);
    LexIrreflexive(a);
    assert EntryName(stamp, p) == a + x && EntryName(stamp, q) == a + y;
  }

  lemma TenBeforeNine()
    ensures IdBefore(10, 9) && !IdBefore(9, 10)
  {
    assert Render(10, 10) == "10" && Render(9, 10) == "9";
  }

  /** An entry is named by its number in twenty digits or more, a dash, the process and `.url`; its draft ends in `.tmp`
      besides. */
  lemma NamesSpelled(n: nat, pid: nat) returns (number: string, process: string)
    ensures IsNumber(number, n, 20) && IsNumber(process, pid, 1)
    ensures EntryName(n, pid) == number + "-" + process + ".url"
    ensures DraftName(n, pid) == number + "-" + process + ".url.tmp"
  {
    number, process := ZeroPadded(n, 20), Render(pid, 10);
    hide ZeroPadded, Render, IsNumber;
    ZeroPaddedIsNumber(n, 20);
    RenderIsNumber(pid);
    assert ".url" + ".tmp" == ".url.tmp";
    SuffixJoins(number + "-" + process);
  }

  lemma SuffixJoins(stem: string)
    ensures stem + ".url" + ".tmp" == stem + ".url.tmp"
  {
  }

  /** A drain takes the names that end in `.url`. */
  lemma EntriesEndInUrl(name: string)
    ensures IsEntry(name) <==> exists stem :: name == stem + ".url"
  {
    if IsEntry(name) {
      assert name == name[..|name| - 4] + ".url";
    }
  }
}
