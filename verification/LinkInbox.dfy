/** The link inbox, one call after another: depositing, draining, taking. */
module LinkInbox {
  import opened Wrappers
  import opened Utf8
  import opened Digits
  import opened Sorting
  import opened InboxNames
  import opened Directory

  const MAX_LINK_BYTES := 16 * 1024
  const TRIES := 1000

  // ----- Depositing -----

  predicate IsTaken(names: map<string, Inode>, pid: nat, stamp: nat, bump: nat) {
    EntryName(stamp + bump, pid) in names
  }

  /** The first bump from `bump` on whose entry name is free, if one of the thousand is. */
  function FirstFree(names: map<string, Inode>, pid: nat, stamp: nat, bump: nat): (k: Option<nat>)
    ensures k.Some? ==> bump <= k.value < TRIES && !IsTaken(names, pid, stamp, k.value)
    ensures forall j | bump <= j < (if k.Some? then k.value else TRIES) :: IsTaken(names, pid, stamp, j)
    decreases TRIES - bump
  {
    if bump >= TRIES then None
    else if !IsTaken(names, pid, stamp, bump) then Some(bump)
    else FirstFree(names, pid, stamp, bump + 1)
  }

  lemma FreeNext(names: map<string, Inode>, pid: nat, stamp: nat, bump: nat)
    requires bump < TRIES
    ensures FirstFree(names, pid, stamp, bump)
         == if EntryName(stamp + bump, pid) in names then FirstFree(names, pid, stamp, bump + 1) else Some(bump)
  {
  }

  lemma FreeEnd(names: map<string, Inode>, pid: nat, stamp: nat)
    ensures FirstFree(names, pid, stamp, TRIES).None?
  {
  }

  /** The directory with the draft written. */
  function Drafted(d: Dir, pid: nat, url: string, stamp: nat): Dir {
    var w := d.Opened(DraftName(stamp, pid));
    w.Appended(w.names[DraftName(stamp, pid)], Encode(url))
  }

  /** The directory after a deposit, and the entry it took. */
  function Deposited(d: Dir, pid: nat, url: string, stamp: nat): (Dir, Option<string>) {
    var w := Drafted(d, pid, url, stamp);
    var draft := DraftName(stamp, pid);
    match FirstFree(w.names, pid, stamp, 0)
    case None => (w.Removed(draft), None)
    case Some(k) =>
      var entry := EntryName(stamp + k, pid);
      (w.(names := w.names[entry := w.names[draft]]).Removed(draft), Some(entry))
  }

  // ----- Draining -----

  /** What one entry gives: its link, or nothing for a file too long or not UTF-8. */
  function Taken(d: Dir, name: string): Option<string> {
    match d.Read(name)
    case None => None
    case Some(bytes) => if |bytes| > MAX_LINK_BYTES then None else Decode(bytes)
  }

  ghost function Entries(d: Dir): set<string> {
    set n <- d.names | IsEntry(n)
  }

  function Links(d: Dir, names: seq<string>): seq<string> {
    if names == [] then []
    else (match Taken(d, names[0]) case Some(url) => [url] case None => []) + Links(d, names[1..])
  }

  class Inbox {
    var dir: Dir

    constructor (dir: Dir)
      ensures this.dir == dir
    {
      this.dir := dir;
    }

    method DepositAt(pid: nat, url: string, stamp: nat) returns (r: Result<string, string>)
      modifies this
      ensures var (after, entry) := Deposited(old(dir), pid, url, stamp);
              dir == after && r == if entry.Some? then Ok(entry.value) else Err("no free inbox entry name")
    {
      hide EntryName, DraftName, Encode, FirstFree;
      var draft := DraftName(stamp, pid);
      dir := dir.Opened(draft);
      dir := dir.Appended(dir.names[draft], Encode(url));
      ghost var written := dir;
      var taken: Option<string> := None;
      var bump := 0;
      while bump < TRIES && taken.None?
        invariant 0 <= bump <= TRIES && draft in written.names
        invariant taken.None? ==> dir == written && FirstFree(written.names, pid, stamp, 0) == FirstFree(written.names, pid, stamp, bump)
        invariant taken.Some? ==>
          var k := FirstFree(written.names, pid, stamp, 0);
          && k.Some? && taken == Some(EntryName(stamp + k.value, pid))
          && dir == written.(names := written.names[taken.value := written.names[draft]])
        decreases TRIES - bump, taken.None?
      {
        var entry := EntryName(stamp + bump, pid);
        FreeNext(dir.names, pid, stamp, bump);
        match dir.Linked(draft, entry)
        case Some(linked) =>
          dir := linked;
          taken := Some(entry);
        case None =>
          bump := bump + 1;
      }
      FreeEnd(written.names, pid, stamp);
      dir := dir.Removed(draft);
      r := if taken.Some? then Ok(taken.value) else Err("no free inbox entry name");
    }

    /** Read one entry and remove it: its link, unless the removal fails, which leaves the entry. */
    method Take(name: string, removed: bool) returns (link: Option<string>)
      modifies this
      ensures link == if removed then Taken(old(dir), name) else None
      ensures dir == if removed then old(dir).Removed(name) else old(dir)
    {
      link := Taken(dir, name);
      if !removed {
        return None;
      }
      dir := dir.Removed(name);
    }

    /** The links waiting, oldest name first, of every entry whose removal succeeds, those entries removed. */
    method Drain(removes: string -> bool) returns (links: seq<string>)
      modifies this
      ensures dir == old(dir).(names := old(dir).names - (set n <- Entries(old(dir)) | removes(n)))
      ensures exists waiting :: Lists(waiting, Entries(old(dir))) && links == Links(old(dir), Chosen(waiting, removes))
    {
      hide Taken, LexLess, Links, IsEntry, Chosen;
      var waiting := Listing(dir.names);
      ghost var before := dir;
      links := [];
      assert waiting[0..] == waiting;
      for i := 0 to |waiting|
        invariant dir == before.(names := before.names - (set n <- waiting[..i] | removes(n)))
        invariant Links(before, Chosen(waiting, removes)) == links + Links(before, Chosen(waiting[i..], removes))
      {
        assert waiting[i] !in waiting[..i] by {
          NoRepeats(waiting, i);
        }
        TakenAlike(dir, before, waiting[i]);
        LinksNext(before, waiting, removes, i);
        var link := Take(waiting[i], removes(waiting[i]));
        if link.Some? {
          links := links + [link.value];
        }
        assert waiting[..i + 1] == waiting[..i] + [waiting[i]];
      }
      assert waiting[..|waiting|] == waiting;
      LinksEnd(before, waiting, removes);
    }
  }

  /** The names whose removal succeeds, in order. */
  function Chosen(names: seq<string>, removes: string -> bool): seq<string> {
    if names == [] then [] else (if removes(names[0]) then [names[0]] else []) + Chosen(names[1..], removes)
  }

  lemma {:induction false} ChosenMembers(names: seq<string>, removes: string -> bool, n: string)
    ensures n in Chosen(names, removes) <==> n in names && removes(n)
  {
    if names != [] {
      ChosenMembers(names[1..], removes, n);
      assert names == [names[0]] + names[1..];
    }
  }

  /** When every removal succeeds, nothing is left out. */
  lemma {:induction false} AllChosen(names: seq<string>, removes: string -> bool)
    requires forall n <- names :: removes(n)
    ensures Chosen(names, removes) == names
  {
    if names != [] {
      assert names[0] in names && forall n <- names[1..] :: n in names;
      AllChosen(names[1..], removes);
    }
  }

  lemma LinksNext(d: Dir, names: seq<string>, removes: string -> bool, i: nat)
    requires i < |names|
    ensures Links(d, Chosen(names[i..], removes))
         == (match if removes(names[i]) then Taken(d, names[i]) else None case Some(url) => [url] case None => [])
          + Links(d, Chosen(names[i + 1..], removes))
  {
    hide Taken;
    assert names[i..][1..] == names[i + 1..];
    var rest := Chosen(names[i + 1..], removes);
    assert ([names[i]] + rest)[1..] == rest && [] + rest == rest;
  }

  lemma LinksEnd(d: Dir, names: seq<string>, removes: string -> bool)
    ensures Links(d, Chosen(names[|names|..], removes)) == []
  {
    assert names[|names|..] == [];
  }

  lemma TakenAlike(d: Dir, e: Dir, name: string)
    requires d.Read(name) == e.Read(name)
    ensures Taken(d, name) == Taken(e, name)
  {
  }

  /** The names a directory read gives, in any order, filtered and sorted. */
  method Listing(names: map<string, Inode>) returns (waiting: seq<string>)
    ensures Lists(waiting, set n <- names | IsEntry(n))
  {
    waiting := [];
    var left := names.Keys;
    while left != {}
      invariant left <= names.Keys
      invariant Lists(waiting, set n <- names.Keys - left | IsEntry(n))
      decreases |left|
    {
      var n :| n in left;
      if IsEntry(n) {
        InsertedIsSorted(waiting, n);
        waiting := Inserted(waiting, n);
      }
      left := left - {n};
    }
  }

  // ----- The bounds -----

  /** An entry gives a link exactly when it is the link's UTF-8, of at most 16384 bytes. */
  lemma LinkOfEntry(d: Dir, name: string, url: string)
    ensures Taken(d, name) == Some(url) <==> d.Read(name) == Some(Encode(url)) && |Encode(url)| <= 16384
  {
    hide Encode, Decode;
    DecodeEncode(url);
    if Taken(d, name) == Some(url) {
      EncodeDecode(d.Read(name).value);
    }
  }

  /** A deposit takes the first number of its own and the 999 after it whose name is free, and is refused when none
      is. */
  lemma NumberTaken(d: Dir, pid: nat, url: string, stamp: nat, k: nat)
    ensures Deposited(d, pid, url, stamp).1.None? <==>
      forall j: nat | j < 1000 :: IsTaken(Drafted(d, pid, url, stamp).names, pid, stamp, j)
    ensures k < 1000 && !IsTaken(Drafted(d, pid, url, stamp).names, pid, stamp, k)
      && (forall j: nat | j < k :: IsTaken(Drafted(d, pid, url, stamp).names, pid, stamp, j))
      ==> Deposited(d, pid, url, stamp).1 == Some(EntryName(stamp + k, pid))
  {
    hide IsTaken, Encode, DraftName;
    var free := FirstFree(Drafted(d, pid, url, stamp).names, pid, stamp, 0);
  }
}
