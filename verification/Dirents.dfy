// The sliding window over a directory's entries that fd_readdir reads through.

module Dirents {
  import opened Words
  import opened Wrappers
  import opened Values

  /** The type bits of a file mode; other stands for pipes, sockets and irregular files. */
  datatype Mode = Mode(dir: bool, symlink: bool, device: bool, charDevice: bool, other: bool)

  datatype Dirent = Dirent(ino: uint64, name: Bytes, mode: Mode)

  datatype Errno = ENOENT | EINVAL | EFAULT | EBADF

  function Min(a: nat, b: nat): nat {
    if a < b then a else b
  }

  lemma DropSlice<T>(s: seq<T>, a: nat, b: nat, c: nat)
    requires a <= c <= b <= |s|
    ensures s[a..b][c - a..] == s[c..b]
  {
  }

  lemma TakeSlice<T>(s: seq<T>, a: nat, b: nat, n: nat)
    requires a <= b <= |s| && n <= b - a
    ensures s[a..b][..n] == s[a..a + n]
  {
  }

  lemma JoinSlices<T>(s: seq<T>, a: nat, b: nat, c: nat)
    requires a <= b <= c <= |s|
    ensures s[a..b] + s[b..c] == s[a..c]
  {
  }

  class DirentCache {
    /** "." and "..". */
    const dotEntries: seq<Dirent>
    /** What the underlying file lists, and how far it has been read. */
    const files: seq<Dirent>
    var filePos: nat
    /** The entries still cached; None before the first read and after a rewind. */
    var dirents: Option<seq<Dirent>>
    /** Entries read since the last rewind. */
    var countRead: nat
    var eof: bool

    ghost predicate Valid()
      reads this
    {
      && |dotEntries| == 2
      && filePos <= |files| < TWO_63
      && (dirents.None? ==> countRead == 0 && filePos == 0)
      && (dirents.Some? ==>
            && countRead == 2 + filePos
            && |dirents.value| <= countRead
            && dirents.value == All()[Start()..countRead]
            && (eof ==> filePos == |files|))
    }

    /** Every entry of the directory, dot entries first. */
    function All(): (ds: seq<Dirent>)
      ensures |ds| == |dotEntries| + |files|
    {
      dotEntries + files
    }

    lemma AllSlice(a: nat, b: nat)
      requires |dotEntries| == 2 && a <= b <= |files|
      ensures All()[2 + a..2 + b] == files[a..b]
    {
    }

    /** The position of the first cached entry. */
    ghost function Start(): int
      reads this
    {
      if dirents.None? then 0 else countRead - |dirents.value|
    }

    constructor (dotEntries: seq<Dirent>, files: seq<Dirent>)
      requires |dotEntries| == 2 && |files| < TWO_63
      ensures Valid() && All() == dotEntries + files && countRead == 0 && Start() == 0
    {
      this.dotEntries, this.files := dotEntries, files;
      filePos, dirents, countRead, eof := 0, None, 0, false;
    }

    /** The next entries of the underlying file, fewer than n only at its end. */
    method Readdir(n: nat) returns (ds: seq<Dirent>)
      requires filePos <= |files|
      modifies this`filePos
      ensures filePos == Min(old(filePos) + n, |files|)
      ensures ds == files[old(filePos)..filePos]
    {
      var end := Min(filePos + n, |files|);
      ds := files[filePos..end];
      filePos := end;
    }

    /**
      Up to n entries from pos. Fails exactly when pos is past what was read, or before the window and
      not a rewind. The one shortfall is n == 2 at position 0, where the dot entries are cached but not returned.
     */
    method Read(pos: uint64, n: uint32) returns (r: Result<seq<Dirent>, Errno>)
      requires Valid()
      modifies this
      ensures Valid()
      ensures r == Err(ENOENT) <==> pos > old(countRead) || (n > 0 && 0 < pos < old(Start()))
      ensures r.Err? ==> r.error == ENOENT
      ensures r.Ok? ==> pos <= |All()| && r.value == if n == 2 && pos == 0 then [] else All()[pos..Min(pos + n, |All()|)]
      ensures r.Ok? && n > 0 ==> Start() == pos && Min(pos + n, |All()|) <= countRead
    {
      if pos > countRead {
        return Err(ENOENT);
      }
      if pos == 0 && dirents.Some? {
        filePos := 0;
        dirents := None;
        countRead := 0;
      }
      if n == 0 {
        return Ok([]);
      }
      if dirents.None? {
        r := ReadFirst(n);
        return;
      }
      if pos < countRead - |dirents.value| {
        return Err(ENOENT);
      }
      r := ReadOn(pos, n);
    }

    /** Moves the window up to pos and extends it to n entries. */
    method ReadOn(pos: uint64, n: uint32) returns (r: Result<seq<Dirent>, Errno>)
      requires Valid() && dirents.Some? && Start() <= pos <= countRead
      modifies this
      ensures Valid() && r.Ok?
      ensures pos <= |All()| && r.value == All()[pos..Min(pos + n, |All()|)]
      ensures dirents.Some? && Start() == pos && Min(pos + n, |All()|) <= countRead
    {
      hide DirentCache.All;
      DropSlice(All(), Start(), countRead, pos);
      var cached := dirents.value[pos - (countRead - |dirents.value|)..];
      dirents := Some(cached);
      Extend(n);
      r := Ok(Cached(dirents.value, n));
      if |dirents.value| > n {
        TakeSlice(All(), pos, countRead, n);
      }
    }

    /** Reads on until n entries are cached or the file ends. */
    method Extend(n: uint32)
      requires Valid() && dirents.Some?
      modifies this
      ensures Valid() && dirents.Some? && Start() == old(Start()) && Min(Start() + n, |All()|) <= countRead
    {
      hide DirentCache.All;
      var cached := dirents.value;
      var countToRead: int := n - |cached|;
      if countToRead > 0 && !eof {
        ghost var before := countRead;
        var more := Readdir(countToRead);
        AllSlice(before - 2, filePos);
        JoinSlices(All(), before - |cached|, before, 2 + filePos);
        if more != [] {
          eof := |more| < countToRead;
          dirents := Some(cached + more);
          countRead := countRead + |more|;
        }
      }
    }

    /** The dot entries, then what the file lists. */
    method ReadFirst(n: uint32) returns (r: Result<seq<Dirent>, Errno>)
      requires Valid() && dirents.None? && n > 0
      modifies this
      ensures Valid() && r.Ok?
      ensures r.value == if n == 2 then [] else All()[0..Min(n, |All()|)]
      ensures dirents.Some? && Start() == 0 && Min(n, |All()|) <= countRead
    {
      dirents := Some(dotEntries);
      countRead := 2;
      eof := false;
      var countToRead := WrapU32(n - 2);
      if countToRead <= 0 {
        return Ok([]);
      }
      var more := Readdir(countToRead);
      AllSlice(0, filePos);
      JoinSlices(All(), 0, 2, 2 + filePos);
      if more != [] {
        eof := |more| < countToRead;
        dirents := Some(dotEntries + more);
        countRead := countRead + |more|;
      }
      r := Ok(Cached(dirents.value, n));
    }

    static function Cached(ds: seq<Dirent>, n: uint32): seq<Dirent> {
      if |ds| > n then ds[..n] else ds
    }
  }
}
