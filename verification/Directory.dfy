/** A directory as the inbox uses it: names, the inodes they are links to, and the inodes' bytes. Two
    names can share an inode, and writing through one then shows through the other. */
module Directory {
  import opened Wrappers
  import opened Utf8

  type Inode = nat

  datatype Dir = Dir(names: map<string, Inode>, files: map<Inode, seq<byte>>, next: Inode) {

    ghost predicate Valid() {
      && (forall n <- names :: names[n] in files)
      && forall i <- files :: i < next
    }

    /** What a name reads as. */
    function Read(name: string): Option<seq<byte>> {
      if name in names && names[name] in files then Some(files[names[name]]) else None
    }

    /** Open for writing: a name already there keeps its inode and loses its bytes. */
    function Opened(name: string): Dir {
      if name in names then this.(files := files[names[name] := []])
      else Dir(names[name := next], files[next := []], next + 1)
    }

    function Appended(i: Inode, bytes: seq<byte>): Dir {
      if i in files then this.(files := files[i := files[i] + bytes]) else this
    }

    /** A hard link, which never replaces a name. */
    function Linked(from: string, to: string): Option<Dir> {
      if to in names || from !in names then None else Some(this.(names := names[to := names[from]]))
    }

    function Removed(name: string): Dir {
      this.(names := names - {name})
    }
  }
}
