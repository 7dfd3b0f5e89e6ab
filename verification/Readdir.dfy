// fd_readdir: the byte-exact directory page, its end-of-directory signal, and a guest that lists by pages.

module DirentPages {
  import opened Words
  import opened Wrappers
  import opened Values
  import opened LittleEndian
  import opened Dirents

  const DIRENT_SIZE := 24

  /** The WASI filetype of a mode: unknown 0, block device 1, character device 2, directory 3, regular 4, symbolic link 7. */
  function Filetype(m: Mode): byte {
    if !m.dir && !m.symlink && !m.device && !m.charDevice && !m.other then 4
    else if m.dir then 3
    else if m.symlink then 7
    else if m.device then if m.charDevice then 2 else 1
    else 0
  }

  /** d_next, d_ino, d_namlen and d_type. */
  function Header(next: uint64, d: Dirent): (bs: Bytes)
    ensures |bs| == DIRENT_SIZE
  {
    Pow256Values();
    LeBytes(next, 8) + LeBytes(d.ino, 8) + LeBytes(WrapU32(|d.name|), 4) + LeBytes(Filetype(d.mode), 4)
  }

  function EntrySize(d: Dirent): nat {
    DIRENT_SIZE + |d.name|
  }

  function Size(ds: seq<Dirent>): nat {
    if ds == [] then 0 else EntrySize(ds[0]) + Size(ds[1..])
  }

  function WrapU64(n: nat): uint64 {
    n % TWO_64
  }

  function EntryBytes(next: uint64, d: Dirent): (bs: Bytes)
    ensures |bs| == EntrySize(d)
  {
    Header(next, d) + d.name
  }

  /** Entries one after another, with d_next counting up from next. */
  function Encoded(ds: seq<Dirent>, next: nat): (bs: Bytes)
    ensures |bs| == Size(ds)
  {
    if ds == [] then [] else EntryBytes(WrapU64(next), ds[0]) + Encoded(ds[1..], next + 1)
  }

  /** How many leading entries fit whole into len bytes. */
  function WholeCount(ds: seq<Dirent>, len: nat): (k: nat)
    ensures k <= |ds|
  {
    if ds == [] || EntrySize(ds[0]) > len then 0 else 1 + WholeCount(ds[1..], len - EntrySize(ds[0]))
  }

  lemma {:induction false} WholeCountIs(ds: seq<Dirent>, len: nat)
    ensures Size(ds[..WholeCount(ds, len)]) <= len
    ensures WholeCount(ds, len) < |ds| ==> Size(ds[..WholeCount(ds, len)]) + EntrySize(ds[WholeCount(ds, len)]) > len
    ensures WholeCount(ds, len) * DIRENT_SIZE <= len
  {
    var k := WholeCount(ds, len);
    if k != 0 {
      WholeCountIs(ds[1..], len - EntrySize(ds[0]));
      assert ds[..k][1..] == ds[1..][..k - 1];
    }
  }

  lemma {:induction false} SizeSnoc(ds: seq<Dirent>, k: nat)
    requires k < |ds|
    ensures Size(ds[..k + 1]) == Size(ds[..k]) + EntrySize(ds[k])
  {
    if k != 0 {
      SizeSnoc(ds[1..], k - 1);
      assert ds[..k + 1][1..] == ds[1..][..k] && ds[..k][1..] == ds[1..][..k - 1];
    }
  }

  lemma {:induction false} SizeMono(ds: seq<Dirent>, k: nat, m: nat)
    requires k <= m <= |ds|
    ensures Size(ds[..k]) <= Size(ds[..m])
    decreases m
  {
    if k < m {
      SizeMono(ds, k, m - 1);
      SizeSnoc(ds, m - 1);
    }
  }

  /** The count is the only one whose entries fit while the next does not. */
  lemma WholeCountUnique(ds: seq<Dirent>, len: nat, k: nat)
    requires k <= |ds| && Size(ds[..k]) <= len
    requires k < |ds| ==> Size(ds[..k + 1]) > len
    ensures WholeCount(ds, len) == k
  {
    var w := WholeCount(ds, len);
    WholeCountIs(ds, len);
    if w < k {
      SizeSnoc(ds, w);
      SizeMono(ds, w + 1, k);
    } else if k < w {
      SizeMono(ds, k + 1, w);
    }
  }

  /** A window of n entries is as good as the whole directory when n headers exceed the buffer. */
  lemma WindowEnough(ds: seq<Dirent>, len: nat, n: nat)
    requires n * DIRENT_SIZE > len
    ensures WholeCount(ds[..Min(n, |ds|)], len) == WholeCount(ds, len)
    ensures WholeCount(ds, len) < |ds| ==> WholeCount(ds, len) < Min(n, |ds|)
  {
    var k := WholeCount(ds, len);
    WholeCountIs(ds, len);
    var window := ds[..Min(n, |ds|)];
    assert window[..k] == ds[..k];
    if k < |window| {
      SizeSnoc(ds, k);
      assert window[..k + 1] == ds[..k + 1];
    }
    WholeCountUnique(window, len, k);
  }

  lemma {:induction false} EncodedSnoc(ds: seq<Dirent>, next: nat, k: nat)
    requires k < |ds|
    ensures Encoded(ds[..k + 1], next) == Encoded(ds[..k], next) + EntryBytes(WrapU64(next + k), ds[k])
  {
    hide EntryBytes, WrapU64, EntrySize, Size;
    if k == 0 {
      assert ds[..1] == [ds[0]] && ds[..1][1..] == [];
    } else {
      EncodedSnoc(ds[1..], next + 1, k - 1);
      assert ds[..k + 1][1..] == ds[1..][..k] && ds[..k][1..] == ds[1..][..k - 1];
      assert EntryBytes(WrapU64(next), ds[0]) + (Encoded(ds[1..][..k - 1], next + 1) + EntryBytes(WrapU64(next + k), ds[k]))
             == EntryBytes(WrapU64(next), ds[0]) + Encoded(ds[1..][..k - 1], next + 1) + EntryBytes(WrapU64(next + k), ds[k]);
    }
  }

  // ----- what a guest decodes -----

  datatype Seen = Seen(next: uint64, ino: uint64, name: Bytes, filetype: uint32)

  function SeenAs(d: Dirent, next: nat): Seen {
    Seen(WrapU64(next), d.ino, d.name, Filetype(d.mode))
  }

  /** An entry is seen with its own inode and name, the number of the entry after it, and its type in WASI's numbers. */
  lemma SeenFields(d: Dirent, next: uint64)
    ensures SeenAs(d, next).next == next && SeenAs(d, next).ino == d.ino && SeenAs(d, next).name == d.name
    ensures d.mode == Mode(false, false, false, false, false) <==> SeenAs(d, next).filetype == 4
    ensures d.mode.dir <==> SeenAs(d, next).filetype == 3
    ensures !d.mode.dir && d.mode.symlink <==> SeenAs(d, next).filetype == 7
    ensures !d.mode.dir && !d.mode.symlink && d.mode.device ==> SeenAs(d, next).filetype == if d.mode.charDevice then 2 else 1
    ensures !d.mode.dir && !d.mode.symlink && !d.mode.device && (d.mode.charDevice || d.mode.other) ==> SeenAs(d, next).filetype == 0
  {
  }

  function SeenAll(ds: seq<Dirent>, next: nat): (ss: seq<Seen>)
    ensures |ss| == |ds| && forall i :: 0 <= i < |ds| ==> ss[i] == SeenAs(ds[i], next + i)
  {
    seq(|ds|, i requires 0 <= i < |ds| => SeenAs(ds[i], next + i))
  }

  /** bs starts with a whole entry: a header and as many bytes as it announces. */
  predicate HasEntry(bs: Bytes) {
    |bs| >= DIRENT_SIZE && |bs| >= DIRENT_SIZE + GetLe(bs, 16, 4)
  }

  function FirstEntry(bs: Bytes): Seen
    requires HasEntry(bs)
  {
    Pow256Values();
    Seen(GetLe(bs, 0, 8), GetLe(bs, 8, 8), bs[DIRENT_SIZE..DIRENT_SIZE + GetLe(bs, 16, 4)], GetLe(bs, 20, 4))
  }

  /** The whole entries of a page, up to the first incomplete one. */
  function Decode(bs: Bytes): seq<Seen>
    decreases |bs|
  {
    if !HasEntry(bs) then [] else [FirstEntry(bs)] + Decode(bs[DIRENT_SIZE + GetLe(bs, 16, 4)..])
  }

  lemma HeaderFields(next: uint64, d: Dirent, rest: Bytes)
    ensures GetLe(Header(next, d) + rest, 0, 8) == next && GetLe(Header(next, d) + rest, 8, 8) == d.ino
    ensures GetLe(Header(next, d) + rest, 16, 4) == WrapU32(|d.name|) && GetLe(Header(next, d) + rest, 20, 4) == Filetype(d.mode)
  {
    hide LeBytes, LeValue, Filetype, WrapU32;
    Pow256Values();
    var bs := Header(next, d) + rest;
    assert bs[0..8] == LeBytes(next, 8);
    assert bs[8..16] == LeBytes(d.ino, 8);
    assert bs[16..20] == LeBytes(WrapU32(|d.name|), 4);
    assert bs[20..24] == LeBytes(Filetype(d.mode), 4);
  }

  lemma EntryComesFirst(next: uint64, d: Dirent, rest: Bytes)
    requires |d.name| < TWO_32
    ensures HasEntry(EntryBytes(next, d) + rest)
    ensures FirstEntry(EntryBytes(next, d) + rest) == Seen(next, d.ino, d.name, Filetype(d.mode))
    ensures GetLe(EntryBytes(next, d) + rest, 16, 4) == |d.name|
    ensures (EntryBytes(next, d) + rest)[DIRENT_SIZE + |d.name|..] == rest
  {
    hide Header, GetLe, Filetype;
    var bs := EntryBytes(next, d) + rest;
    assert bs == Header(next, d) + (d.name + rest);
    HeaderFields(next, d, d.name + rest);
    assert bs[DIRENT_SIZE..DIRENT_SIZE + |d.name|] == d.name;
  }

  /** Encoded entries followed by an incomplete one decode to exactly the entries. */
  lemma {:induction false} DecodeEncoded(ds: seq<Dirent>, next: nat, tail: Bytes)
    requires forall i :: 0 <= i < |ds| ==> |ds[i].name| < TWO_32
    requires !HasEntry(tail)
    ensures Decode(Encoded(ds, next) + tail) == SeenAll(ds, next)
  {
    hide EntryBytes, HasEntry, FirstEntry, GetLe, WrapU64, Filetype, EntrySize, Size, SeenAll;
    if ds == [] {
      assert Encoded(ds, next) + tail == tail;
      assert SeenAll(ds, next) == [];
    } else {
      var rest := Encoded(ds[1..], next + 1) + tail;
      var bs := Encoded(ds, next) + tail;
      assert bs == EntryBytes(WrapU64(next), ds[0]) + rest;
      EntryComesFirst(WrapU64(next), ds[0], rest);
      DecodeEncoded(ds[1..], next + 1, tail);
      SeenAllCons(ds, next);
    }
  }

  lemma SeenAllCons(ds: seq<Dirent>, next: nat)
    requires ds != []
    ensures SeenAll(ds, next) == [SeenAs(ds[0], next)] + SeenAll(ds[1..], next + 1)
  {
    hide SeenAs;
  }

  /** A header whose name does not fit, with stale bytes after it, is incomplete. */
  lemma TruncatedIncomplete(next: uint64, d: Dirent, stale: Bytes)
    requires |stale| < |d.name| < TWO_32
    ensures !HasEntry(Header(next, d) + stale)
  {
    hide Header, GetLe;
    HeaderFields(next, d, stale);
  }
}

module Readdir {
  import opened Words
  import opened Wrappers
  import opened Values
  import opened LittleEndian
  import opened Buffers
  import opened Dirents
  import opened DirentPages

  // ----- planning a page -----

  /** Bytes to write, entries to write counting a truncated last one, and what of that one is written. */
  datatype Plan = Plan(bufToWrite: nat, direntCount: nat, truncatedLen: nat)

  /** Every entry that fits whole, then as much of the next header as there is room for. */
  function PlanOf(ds: seq<Dirent>, bufLen: nat): (p: Plan)
    ensures p.direntCount <= |ds|
  {
    WholeCountIs(ds, bufLen);
    var k := WholeCount(ds, bufLen);
    var used := Size(ds[..k]);
    if k < |ds| && used < bufLen
    then Plan(used + Min(DIRENT_SIZE, bufLen - used), k + 1, Min(DIRENT_SIZE, bufLen - used))
    else Plan(used, k, 0)
  }

  /** The name is too long for the length of its entry to be encoded. */
  predicate TooLarge(d: Dirent) {
    EntrySize(d) > TWO_32 - 1 - DIRENT_SIZE
  }

  /** Names from 48 bytes below 2^32 on are too long. */
  lemma TooLargeIs(d: Dirent)
    ensures TooLarge(d) <==> |d.name| >= 0xffff_ffd0
  {
  }

  /** None is the panic on a name that is too long. */
  method MaxDirents(ds: seq<Dirent>, bufLen: uint32) returns (p: Option<Plan>)
    ensures p.Some? ==> p.value == PlanOf(ds, bufLen)
    ensures p.None? ==> exists i :: 0 <= i < |ds| && TooLarge(ds[i])
  {
    var lenRemaining: nat, bufToWrite: nat := bufLen, 0;
    for i := 0 to |ds|
      invariant bufToWrite == Size(ds[..i]) && lenRemaining == bufLen - bufToWrite
    {
      if lenRemaining == 0 {
        FullAt(ds, bufLen, i);
        return Some(Plan(bufToWrite, i, 0));
      }
      if TooLarge(ds[i]) {
        return None;
      }
      var entryLen := EntrySize(ds[i]);
      SizeSnoc(ds, i);
      if entryLen > lenRemaining {
        var truncatedLen := if lenRemaining >= DIRENT_SIZE then DIRENT_SIZE else lenRemaining;
        WholeCountUnique(ds, bufLen, i);
        return Some(Plan(bufToWrite + truncatedLen, i + 1, truncatedLen));
      }
      lenRemaining := lenRemaining - entryLen;
      bufToWrite := bufToWrite + entryLen;
    }
    assert ds[..|ds|] == ds;
    WholeCountUnique(ds, bufLen, |ds|);
    p := Some(Plan(bufToWrite, |ds|, 0));
  }

  lemma FullAt(ds: seq<Dirent>, bufLen: nat, i: nat)
    requires i <= |ds| && Size(ds[..i]) == bufLen
    ensures PlanOf(ds, bufLen) == Plan(bufLen, i, 0)
  {
    if i < |ds| {
      SizeSnoc(ds, i);
    }
    WholeCountUnique(ds, bufLen, i);
  }

  // ----- writing a page -----

  /** The bytes of a page: the whole entries, then the bare header of a last one that has room for it. */
  function PageBytes(ds: seq<Dirent>, next: nat, p: Plan): Bytes
    requires p.direntCount <= |ds| && (p.truncatedLen > 0 ==> p.direntCount > 0)
  {
    if p.truncatedLen == 0 then Encoded(ds[..p.direntCount], next)
    else
      var k := p.direntCount - 1;
      Encoded(ds[..k], next) + if p.truncatedLen < DIRENT_SIZE then [] else Header(WrapU64(next + k), ds[k])
  }

  /** Header and name. */
  method WriteEntry(mem: array<byte>, at: nat, next: uint64, e: Dirent)
    requires at + EntrySize(e) <= mem.Length
    modifies mem
    ensures mem[..] == Splice(old(mem[..]), at, EntryBytes(next, e))
  {
    hide Header, Splice;
    SpliceTwice(mem[..], at, Header(next, e), e.name);
    CopyTo(mem, at, Header(next, e));
    CopyTo(mem, at + DIRENT_SIZE, e.name);
  }

  /** The page goes at base, a place of the guest's memory; nothing else of it changes. */
  method WriteDirents(mem: array<byte>, base: nat, ds: seq<Dirent>, dNext: uint64, p: Plan)
    requires p.direntCount <= |ds| && (p.truncatedLen > 0 ==> p.direntCount > 0)
    requires base + |PageBytes(ds, dNext, p)| <= mem.Length
    modifies mem
    ensures mem[..] == Splice(old(mem[..]), base, PageBytes(ds, dNext, p))
  {
    hide Header, WrapU64, Splice, Encoded, EntryBytes, EntrySize, Size, PageBytes;
    ghost var mem0 := mem[..];
    var pos: nat, next: nat := 0, dNext;
    var direntCount, skipName := p.direntCount, false;
    if p.truncatedLen > 0 {
      direntCount := direntCount - 1;
      skipName := p.truncatedLen >= DIRENT_SIZE;
    }
    PageParts(ds, dNext, p, direntCount);
    EncodedNone(ds, dNext, mem0, base);
    for i := 0 to direntCount
      invariant next == WrapU64(dNext + i) && pos == Size(ds[..i])
      invariant mem.Length == |mem0| && base + pos <= mem.Length
      invariant mem[..] == Splice(mem0, base, Encoded(ds[..i], dNext))
    {
      var e := ds[i];
      PageRoom(ds, direntCount, i);
      EncodedSnoc(ds, dNext, i);
      SpliceTwice(mem0, base, Encoded(ds[..i], dNext), EntryBytes(next, e));
      WriteEntry(mem, base + pos, next, e);
      pos := pos + EntrySize(e);
      next := WrapU64(next + 1);
      NextWraps(dNext, i);
    }
    if skipName {
      SpliceTwice(mem0, base, Encoded(ds[..direntCount], dNext), Header(next, ds[direntCount]));
      CopyTo(mem, base + pos, Header(next, ds[direntCount]));
    }
  }

  /** A page is the whole entries and at most the header of one more. */
  lemma PageParts(ds: seq<Dirent>, next: nat, p: Plan, n: nat)
    requires p.direntCount <= |ds| && (p.truncatedLen > 0 ==> p.direntCount > 0)
    requires n == if p.truncatedLen > 0 then p.direntCount - 1 else p.direntCount
    ensures |Encoded(ds[..n], next)| == Size(ds[..n]) <= |PageBytes(ds, next, p)|
    ensures if p.truncatedLen >= DIRENT_SIZE then PageBytes(ds, next, p) == Encoded(ds[..n], next) + Header(WrapU64(next + n), ds[n])
      else PageBytes(ds, next, p) == Encoded(ds[..n], next)
  {
    hide Header, WrapU64, Encoded, Size;
  }

  lemma EncodedNone(ds: seq<Dirent>, next: nat, mem: Bytes, base: nat)
    requires base <= |mem|
    ensures Encoded(ds[..0], next) == [] && Size(ds[..0]) == 0
    ensures Splice(mem, base, []) == mem
    ensures next < TWO_64 ==> WrapU64(next) == next
  {
  }

  lemma PageRoom(ds: seq<Dirent>, n: nat, i: nat)
    requires i < n <= |ds|
    ensures Size(ds[..i + 1]) == Size(ds[..i]) + EntrySize(ds[i]) <= Size(ds[..n])
  {
    SizeSnoc(ds, i);
    SizeMono(ds, i + 1, n);
  }

  lemma NextWraps(next: nat, i: nat)
    ensures WrapU64(WrapU64(next + i) + 1) == WrapU64(next + i + 1)
  {
  }

  // ----- the call -----

  datatype Outcome = Done | Failed(errno: Errno) | Panicked

  /** What the guest is told was used: the whole buffer when an entry was cut off. */
  function BufUsed(p: Plan, bufLen: uint32): nat {
    if p.truncatedLen > 0 then bufLen else p.bufToWrite
  }

  /** The plan stays in the buffer, and the page ends where the plan does, less a tail shorter than a header. */
  lemma PlanFits(ds: seq<Dirent>, next: nat, bufLen: uint32)
    ensures var p := PlanOf(ds, bufLen);
      && p.truncatedLen <= p.bufToWrite <= bufLen && p.truncatedLen <= DIRENT_SIZE && (p.truncatedLen > 0 ==> p.direntCount > 0)
      && BufUsed(p, bufLen) < TWO_32
      && |PageBytes(ds, next, p)| == p.bufToWrite - if p.truncatedLen < DIRENT_SIZE then p.truncatedLen else 0
  {
    hide Header, WrapU64, Encoded;
    WholeCountIs(ds, bufLen);
  }

  /** Memory with a page at buf. */
  function Paged(mem: Bytes, buf: nat, page: Bytes): (mem': Bytes)
    ensures |mem'| == |mem|
  {
    if buf + |page| <= |mem| then Splice(mem, buf, page) else mem
  }

  method WritePage(mem: array<byte>, buf: uint32, bufLen: uint32, cookie: uint64, resultBufused: uint32, ds: seq<Dirent>)
    returns (o: Outcome)
    modifies mem
    ensures o == Panicked ==> exists i :: 0 <= i < |ds| && TooLarge(ds[i])
    ensures var p := PlanOf(ds, bufLen);
      && (o == Done ==>
            && resultBufused + 4 <= mem.Length
            && (p.bufToWrite > 0 ==> buf + p.bufToWrite <= mem.Length)
            && BufUsed(p, bufLen) < Pow256(4)
            && (p.truncatedLen > 0 ==> p.direntCount > 0)
            && mem[..] == PutLe(Paged(old(mem[..]), buf, PageBytes(ds, WrapU64(cookie + 1), p)), resultBufused, BufUsed(p, bufLen), 4))
      && (o.Failed? ==> o.errno == EFAULT && ((p.bufToWrite > 0 && buf + p.bufToWrite > mem.Length) || resultBufused + 4 > mem.Length))
  {
    hide PlanOf, PageBytes, Splice, WrapU64, PutLe, Pow256, LeBytes;
    Pow256Values();
    var plan := MaxDirents(ds, bufLen);
    if plan.None? {
      return Panicked;
    }
    var p := plan.value;
    ghost var mem0 := mem[..];
    var dNext := WrapU64(cookie + 1);
    PlanFits(ds, dNext, bufLen);
    if p.bufToWrite > 0 {
      if buf + p.bufToWrite > mem.Length {
        return Failed(EFAULT);
      }
      WriteDirents(mem, buf, ds, dNext, p);
    } else {
      NothingPaged(mem0, buf, PageBytes(ds, dNext, p));
    }
    if resultBufused + 4 > mem.Length {
      return Failed(EFAULT);
    }
    WriteWord(mem, resultBufused, BufUsed(p, bufLen));
    o := Done;
  }

  lemma NothingPaged(mem: Bytes, buf: nat, page: Bytes)
    requires page == []
    ensures Paged(mem, buf, page) == mem
  {
  }

  /** A page that starts at cookie was written: what the guest finds in its buffer and in the result word. */
  ghost predicate PageWritten(mem: Bytes, mem': Bytes, all: seq<Dirent>, buf: uint32, bufLen: uint32, cookie: uint64, resultBufused: uint32) {
    && cookie <= |all| < TWO_64 - 1
    && resultBufused + 4 <= |mem|
    && BufUsed(PlanOf(all[cookie..], bufLen), bufLen) < Pow256(4)
    && (PlanOf(all[cookie..], bufLen).truncatedLen > 0 ==> PlanOf(all[cookie..], bufLen).direntCount > 0)
    && mem' == PutLe(Paged(mem, buf, PageBytes(all[cookie..], cookie + 1, PlanOf(all[cookie..], bufLen))), resultBufused,
                     BufUsed(PlanOf(all[cookie..], bufLen), bufLen), 4)
  }

  method FdReaddir(mem: array<byte>, dir: DirentCache?, buf: uint32, bufLen: uint32, cookie: uint64, resultBufused: uint32)
    returns (o: Outcome)
    requires dir != null ==> dir.Valid()
    modifies mem, dir
    ensures dir != null ==> dir.Valid()
    ensures o == Failed(EINVAL) <==> bufLen < DIRENT_SIZE
    ensures o == Failed(EBADF) <==> bufLen >= DIRENT_SIZE && dir == null
    ensures o == Failed(ENOENT) <==>
      bufLen >= DIRENT_SIZE && dir != null && (cookie > old(dir.countRead) || 0 < cookie < old(dir.Start()))
    ensures o == Failed(EFAULT) ==>
      var p := PlanOf(dir.All()[cookie..], bufLen);
      (p.bufToWrite > 0 && buf + p.bufToWrite > mem.Length) || resultBufused + 4 > mem.Length
    ensures o.Failed? && o.errno != EFAULT ==> mem[..] == old(mem[..])
    ensures o == Panicked ==> exists i :: 0 <= i < |dir.All()| && TooLarge(dir.All()[i])
    ensures o == Done ==>
      && (PlanOf(dir.All()[cookie..], bufLen).bufToWrite > 0 ==> buf + PlanOf(dir.All()[cookie..], bufLen).bufToWrite <= mem.Length)
      && dir.Start() == cookie && cookie + PlanOf(dir.All()[cookie..], bufLen).direntCount <= dir.countRead
      && PageWritten(old(mem[..]), mem[..], dir.All(), buf, bufLen, cookie, resultBufused)
  {
    hide PlanOf, Paged, PutLe, PageBytes, BufUsed, DirentCache.All, Pow256;
    if bufLen < DIRENT_SIZE {
      return Failed(EINVAL);
    }
    if dir == null {
      return Failed(EBADF);
    }
    var maxDirEntries := bufLen / DIRENT_SIZE + 1;
    maxDirEntries := maxDirEntries + 1;
    var read := dir.Read(cookie, maxDirEntries);
    if read.Err? {
      return Failed(read.error);
    }
    var ds := read.value;
    SamePlan(dir.All(), cookie, bufLen, maxDirEntries, WrapU64(cookie + 1));
    o := WritePage(mem, buf, bufLen, cookie, resultBufused, ds);
  }

  /** Planning and encoding from the window read is the same as from the rest of the directory. */
  lemma SamePlan(all: seq<Dirent>, cookie: nat, bufLen: nat, n: nat, next: nat)
    requires cookie <= |all| && n * DIRENT_SIZE > bufLen
    ensures var rest := all[cookie..];
      var ds := all[cookie..Min(cookie + n, |all|)];
      var p := PlanOf(ds, bufLen);
      && PlanOf(rest, bufLen) == p
      && ((p.truncatedLen > 0 ==> p.direntCount > 0) ==> PageBytes(ds, next, p) == PageBytes(rest, next, p))
  {
    hide Size, Encoded, Header, WrapU64;
    var rest := all[cookie..];
    var ds := all[cookie..Min(cookie + n, |all|)];
    assert ds == rest[..Min(n, |rest|)];
    WindowEnough(rest, bufLen, n);
    var k := WholeCount(rest, bufLen);
    assert ds[..k] == rest[..k];
  }
}

// A guest that lists a directory page by page.
module ReaddirRuns {
  import opened Words
  import opened Wrappers
  import opened Values
  import opened LittleEndian
  import opened Buffers
  import opened Dirents
  import opened DirentPages
  import opened Readdir

  /** The result word lies outside the buffer. */
  predicate Apart(buf: nat, bufLen: nat, resultBufused: nat) {
    resultBufused + 4 <= buf || buf + bufLen <= resultBufused
  }

  /** How many entries of the page that starts at cookie are whole. */
  function Turned(all: seq<Dirent>, cookie: nat, bufLen: nat): (k: nat)
    requires cookie <= |all|
    ensures cookie + k <= |all|
  {
    WholeCount(all[cookie..], bufLen)
  }

  /** What a whole page leaves in the buffer, as far as it is used: its entries, then something incomplete. */
  lemma PageShape(rest: seq<Dirent>, next: nat, bufLen: uint32, used: Bytes)
    requires forall i :: 0 <= i < |rest| ==> |rest[i].name| < TWO_32
    requires var p := PlanOf(rest, bufLen);
      && (p.truncatedLen > 0 ==> p.direntCount > 0)
      && |used| == BufUsed(p, bufLen)
      && |PageBytes(rest, next, p)| <= |used|
      && used[..|PageBytes(rest, next, p)|] == PageBytes(rest, next, p)
    ensures Decode(used) == SeenAll(rest[..WholeCount(rest, bufLen)], next)
  {
    hide Header, Encoded, HasEntry, Decode, WrapU64, SeenAll;
    var p, k := PlanOf(rest, bufLen), WholeCount(rest, bufLen);
    WholeCountIs(rest, bufLen);
    var whole := Encoded(rest[..k], next);
    assert used[..|whole|] == whole;
    var tail := used[|whole|..];
    assert used == whole + tail;
    if p.truncatedLen == DIRENT_SIZE {
      assert tail[..DIRENT_SIZE] == Header(WrapU64(next + k), rest[k]);
      assert tail == Header(WrapU64(next + k), rest[k]) + tail[DIRENT_SIZE..];
      TruncatedIncomplete(WrapU64(next + k), rest[k], tail[DIRENT_SIZE..]);
    } else {
      ShortIncomplete(tail);
    }
    DecodeEncoded(rest[..k], next, tail);
  }

  lemma ShortIncomplete(bs: Bytes)
    requires |bs| < DIRENT_SIZE
    ensures !HasEntry(bs)
  {
  }

  /** The guest decodes exactly the whole entries of the page, and no stale byte of its buffer. */
  lemma PageDecodes(mem: Bytes, mem': Bytes, all: seq<Dirent>, buf: uint32, bufLen: uint32, cookie: uint64, resultBufused: uint32)
    requires PageWritten(mem, mem', all, buf, bufLen, cookie, resultBufused)
    requires buf + bufLen <= |mem| && Apart(buf, bufLen, resultBufused)
    requires forall i :: 0 <= i < |all| ==> |all[i].name| < TWO_32
    ensures var used := BufUsed(PlanOf(all[cookie..], bufLen), bufLen);
      && |mem'| == |mem| && used <= bufLen && GetLe(mem', resultBufused, 4) == used
      && Decode(mem'[buf..buf + used]) == SeenAll(all[cookie..cookie + Turned(all, cookie, bufLen)], cookie + 1)
  {
    hide PlanOf, PageBytes, Encoded, Decode, SeenAll, PutLe, Splice, GetLe, Pow256, LeBytes, LeValue;
    var rest := all[cookie..];
    var p := PlanOf(rest, bufLen);
    var used := BufUsed(p, bufLen);
    var page := PageBytes(rest, cookie + 1, p);
    PlanFits(rest, cookie + 1, bufLen);
    var paged := Paged(mem, buf, page);
    PutThenGet(paged, resultBufused, used, 4);
    SliceKept(paged, mem', buf, used);
    SplicedPrefix(mem, buf, page, used);
    PageShape(rest, cookie + 1, bufLen, mem'[buf..buf + used]);
    assert rest[..Turned(all, cookie, bufLen)] == all[cookie..cookie + Turned(all, cookie, bufLen)];
  }

  lemma SliceKept(a: Bytes, b: Bytes, at: nat, n: nat)
    requires at + n <= |a| == |b| && forall i :: at <= i < at + n ==> a[i] == b[i]
    ensures a[at..at + n] == b[at..at + n]
  {
  }

  lemma SplicedPrefix(mem: Bytes, at: nat, page: Bytes, n: nat)
    requires |page| <= n && at + n <= |mem|
    ensures Splice(mem, at, page)[at..at + n][..|page|] == page
  {
  }

  /**
    The end-of-directory signal: a page shorter than the buffer means that the directory ended, that every
    entry read was written whole, and that fewer entries were left than the call asks for.
   */
  lemma EndSignal(rest: seq<Dirent>, bufLen: uint32)
    ensures BufUsed(PlanOf(rest, bufLen), bufLen) < bufLen <==> Size(rest) < bufLen
    ensures WholeCount(rest, bufLen) < |rest| <==> Size(rest) > bufLen
    ensures Size(rest) < bufLen ==> |rest| < bufLen / DIRENT_SIZE + 2
  {
    var k := WholeCount(rest, bufLen);
    WholeCountIs(rest, bufLen);
    assert rest[..|rest|] == rest;
    if k < |rest| {
      SizeSnoc(rest, k);
      SizeMono(rest, k + 1, |rest|);
    }
  }

  /** More entries exist exactly when the buffer is reported full, except when the rest fits the buffer exactly. */
  lemma FullMeansMore(rest: seq<Dirent>, bufLen: uint32)
    ensures (BufUsed(PlanOf(rest, bufLen), bufLen) == bufLen <==> WholeCount(rest, bufLen) < |rest|) <==> Size(rest) != bufLen
  {
    EndSignal(rest, bufLen);
    PlanFits(rest, 0, bufLen);
  }

  /** The dot entries alone fill a buffer of 51 bytes: it is reported full although nothing is left. */
  lemma FullWithoutMore(dot: Dirent, dotDot: Dirent)
    requires dot.name == [46] && dotDot.name == [46, 46]
    ensures BufUsed(PlanOf([dot, dotDot], 51), 51) == 51 && WholeCount([dot, dotDot], 51) == 2
  {
    var rest := [dot, dotDot];
    assert rest[1..] == [dotDot] && [dotDot][1..] == [];
    assert Size([dotDot]) == EntrySize(dotDot) == 26;
    assert Size(rest) == EntrySize(dot) + Size([dotDot]);
    EndSignal(rest, 51);
    PlanFits(rest, 0, 51);
  }

  // ----- listing -----

  /** What the guest's buffers and the directory must satisfy for a listing: every entry fits a page. */
  ghost predicate Roomy(memLen: nat, all: seq<Dirent>, buf: uint32, resultBufused: uint32, bufLen: uint32) {
    && buf + bufLen <= memLen
    && resultBufused + 4 <= memLen
    && Apart(buf, bufLen, resultBufused)
    && bufLen >= DIRENT_SIZE
    && forall i :: 0 <= i < |all| ==> EntrySize(all[i]) <= bufLen && !TooLarge(all[i])
  }

  lemma Progress(all: seq<Dirent>, cookie: nat, bufLen: uint32)
    requires cookie < |all| && EntrySize(all[cookie]) <= bufLen
    ensures Turned(all, cookie, bufLen) > 0
  {
  }

  lemma NoSize(ds: seq<Dirent>)
    requires ds == []
    ensures Size(ds) == 0
  {
  }

  /** The directory can be read on from cookie. */
  ghost predicate Resumable(dir: DirentCache, cookie: nat)
    reads dir
  {
    dir.Valid() && cookie <= |dir.All()| && (cookie == 0 || dir.Start() <= cookie <= dir.countRead)
  }

  /** Reads one page, decodes it, and moves the cookie behind its last whole entry. */
  method ReadPage(mem: array<byte>, dir: DirentCache, buf: uint32, bufLen: uint32, cookie: uint64, resultBufused: uint32)
    returns (page: seq<Seen>, next: uint64, last: bool)
    requires Resumable(dir, cookie) && Roomy(mem.Length, dir.All(), buf, resultBufused, bufLen)
    modifies mem, dir
    ensures Resumable(dir, next)
    ensures SeenAll(dir.All()[..cookie], 1) + page == SeenAll(dir.All()[..next], 1)
    ensures cookie < |dir.All()| ==> cookie < next
    ensures last ==> next == |dir.All()|
    ensures cookie == |dir.All()| ==> last && next == cookie
  {
    hide PlanOf, PageBytes, Decode, SeenAll, DirentCache.All, GetLe, PutLe, PageWritten, Size;
    var o := FdReaddir(mem, dir, buf, bufLen, cookie, resultBufused);
    ghost var all := dir.All();
    PlanFits(all[cookie..], 0, bufLen);
    assert o == Done;
    PageDecodes(old(mem[..]), mem[..], all, buf, bufLen, cookie, resultBufused);
    Pow256Values();
    var used := GetLe(mem[..], resultBufused, 4);
    page := Decode(mem[buf..buf + used]);
    last := used < bufLen;
    next := if page == [] then cookie else page[|page| - 1].next;
    PageTurned(all, cookie, bufLen, page, next, last);
  }

  /** The last entry's d_next is the position after it. */
  lemma LastNext(ds: seq<Dirent>, next: nat)
    requires next + |ds| <= TWO_64
    ensures ds != [] ==> SeenAll(ds, next)[|ds| - 1].next == next + |ds| - 1
  {
  }

  lemma PageTurned(all: seq<Dirent>, cookie: nat, bufLen: uint32, page: seq<Seen>, next: nat, last: bool)
    requires cookie <= |all| < TWO_64 - 1 && bufLen > 0
    requires forall i :: 0 <= i < |all| ==> EntrySize(all[i]) <= bufLen
    requires page == SeenAll(all[cookie..cookie + Turned(all, cookie, bufLen)], cookie + 1)
    requires next == if page == [] then cookie else page[|page| - 1].next
    requires last <==> BufUsed(PlanOf(all[cookie..], bufLen), bufLen) < bufLen
    ensures next == cookie + Turned(all, cookie, bufLen) <= cookie + PlanOf(all[cookie..], bufLen).direntCount
    ensures SeenAll(all[..cookie], 1) + page == SeenAll(all[..next], 1)
    ensures cookie < |all| ==> cookie < next
    ensures last ==> next == |all|
    ensures cookie == |all| ==> last && next == cookie
  {
    hide PlanOf, Size, SeenAs, SeenAll, WholeCount, EntrySize;
    var k := Turned(all, cookie, bufLen);
    LastNext(all[cookie..cookie + k], cookie + 1);
    EndSignal(all[cookie..], bufLen);
    PlanCounts(all[cookie..], bufLen);
    if cookie < |all| {
      Progress(all, cookie, bufLen);
    } else {
      NoSize(all[cookie..]);
    }
    SeenMore(all, cookie, Turned(all, cookie, bufLen), 1);
  }

  lemma PlanCounts(ds: seq<Dirent>, bufLen: nat)
    ensures WholeCount(ds, bufLen) <= PlanOf(ds, bufLen).direntCount
  {
  }

  /**
    Lists a directory from the start with buffers of any sizes that hold the longest entry, resuming after
    the last whole entry of each page and stopping at the first page shorter than its buffer.
   */
  method ListDirectory(mem: array<byte>, dir: DirentCache, buf: uint32, resultBufused: uint32, sizes: nat -> uint32)
    returns (seen: seq<Seen>, calls: nat)
    requires dir.Valid()
    requires forall i :: Roomy(mem.Length, dir.All(), buf, resultBufused, sizes(i))
    modifies mem, dir
    ensures dir.Valid()
    ensures seen == SeenAll(dir.All(), 1)
    ensures calls <= |dir.All()| + 1
  {
    hide SeenAll, DirentCache.All, Resumable, Roomy;
    ghost var all := dir.All();
    var cookie: uint64, last := 0, false;
    seen, calls := [], 0;
    SeenNone(all);
    ResumableStart(dir);
    while !last
      invariant Resumable(dir, cookie) && cookie <= |all|
      invariant seen == SeenAll(all[..cookie], 1)
      invariant calls <= cookie + if last then 1 else 0
      invariant last ==> cookie == |all|
      decreases |all| - cookie, !last
    {
      var page;
      page, cookie, last := ReadPage(mem, dir, buf, sizes(calls), cookie, resultBufused);
      ResumableWithin(dir, cookie);
      seen := seen + page;
      calls := calls + 1;
    }
    assert all[..cookie] == all;
    ResumableWithin(dir, cookie);
  }

  lemma ResumableStart(dir: DirentCache)
    requires dir.Valid()
    ensures Resumable(dir, 0)
  {
  }

  lemma ResumableWithin(dir: DirentCache, cookie: nat)
    requires Resumable(dir, cookie)
    ensures dir.Valid() && cookie <= |dir.All()|
  {
  }

  lemma SeenNone(all: seq<Dirent>)
    ensures SeenAll(all[..0], 1) == []
  {
  }

  lemma SeenMore(all: seq<Dirent>, cookie: nat, k: nat, next: nat)
    requires cookie + k <= |all|
    ensures SeenAll(all[..cookie], next) + SeenAll(all[cookie..cookie + k], cookie + next) == SeenAll(all[..cookie + k], next)
  {
    hide SeenAs;
  }
}
