/** Writing files copy on write: every page touched is written to a newly allocated page and
    its inode redirected; a write that runs on into further pages chains them through new
    inodes. */
module FileWriting {
  import opened Integers
  import opened FlashLayout
  import opened Filesystem
  import opened Files

  // ---------- what a write stores ----------

  /** The bytes that a write of `length` bytes stores from position `offset` of a page on,
      for data given at `data`: the pointer is not advanced, so that every further page
      starts again with the first byte of the data. */
  function Stored(data: seq<byte>, offset: nat, length: nat): (s: seq<byte>)
    requires offset <= FS_DATASIZE && length <= |data|
    ensures |s| == length
    decreases length, offset
  {
    if length + offset > FS_DATASIZE then data[..FS_DATASIZE - offset] + Stored(data, 0, length - (FS_DATASIZE - offset))
    else data[..length]
  }

  /** How many pages the write fills up and leaves behind before its last one. */
  function Splits(offset: nat, length: nat): nat
    decreases length, offset
  {
    if length + offset > FS_DATASIZE >= offset then 1 + Splits(0, LeftOver(offset, length)) else 0
  }

  /** The bytes that a filled page leaves for the next ones. */
  function LeftOver(offset: nat, length: nat): nat {
    if length + offset >= FS_DATASIZE then length + offset - FS_DATASIZE else 0
  }

  /** `content` with `data` written over it from `offset` on. */
  function Overwrite(content: seq<byte>, offset: nat, data: seq<byte>): (r: seq<byte>)
    requires offset <= |content|
    ensures |r| == if offset + |data| < |content| then |content| else offset + |data|
  {
    content[..offset] + data + (if offset + |data| < |content| then content[offset + |data|..] else [])
  }

  /** The position in a page that a write to `offset` of an existing file starts from: the
      seek stops one page early on a page boundary. */
  function StartInPage(offset: nat): (o: nat)
    ensures o <= FS_DATASIZE && (offset - o) % FS_DATASIZE == 0 && o <= offset
  {
    if offset == 0 then 0 else (offset - 1) % FS_DATASIZE + 1
  }

  lemma StartAndBlock(offset: nat)
    ensures offset % FS_DATASIZE == if StartInPage(offset) == FS_DATASIZE then 0 else StartInPage(offset)
  {
  }

  lemma OneBlockIsStored(data: seq<byte>, offset: nat)
    requires offset % FS_DATASIZE + |data| <= FS_DATASIZE
    ensures Stored(data, StartInPage(offset), |data|) == data
  {
  }

  /** A write stores its data, whatever they are, exactly when it stays inside one block of
      the file. */
  lemma StoredExactlyWithinABlock(offset: nat, length: nat)
    ensures (forall data: seq<byte> :: |data| == length ==> Stored(data, StartInPage(offset), length) == data)
      <==> offset % FS_DATASIZE + length <= FS_DATASIZE
  {
    if offset % FS_DATASIZE + length <= FS_DATASIZE {
      forall data: seq<byte> | |data| == length
        ensures Stored(data, StartInPage(offset), length) == data
      {
        OneBlockIsStored(data, offset);
      }
    } else {
      var data := StoredWrongly(offset, length);
      assert Stored(data, StartInPage(offset), length) != data;
    }
  }

  /** Data that a write across a block boundary does not store. */
  lemma StoredWrongly(offset: nat, length: nat) returns (data: seq<byte>)
    requires offset % FS_DATASIZE + length > FS_DATASIZE
    ensures |data| == length && Stored(data, StartInPage(offset), length) != data
  {
    var o := StartInPage(offset);
    StartAndBlock(offset);
    var first := if o == FS_DATASIZE then FS_DATASIZE else FS_DATASIZE - o;
    data := seq(length, i => if i < first then 0 else 1);
    var again := Stored(data, 0, length - first);
    assert again[0] == data[0] == 0;
    if o == FS_DATASIZE {
      assert Stored(data, 0, length) == data[..FS_DATASIZE] + again;
      assert Stored(data, o, length) == data[..0] + Stored(data, 0, length);
    } else {
      assert Stored(data, o, length) == data[..first] + again;
    }
    hide Stored;
    assert Stored(data, o, length)[first] == again[0] != data[first];
  }

  // ---------- a write under way ----------

  /** What the proofs follow of the filesystem: the flash, the inode map, the root page with
      its directory entries, and which pages the allocator will not touch. */
  datatype Disk = Disk(flash: Flash, pages: seq<u16>, directory: Page, used: set<nat>, start: nat, pos: nat) {
    ghost predicate IsSafe(page: nat) {
      Protected(used, start, pos, page)
    }

    /** `later` came about by allocating more pages and writing only to those. */
    ghost predicate GrowsTo(later: Disk) {
      && later.used == used && later.start == start && pos <= later.pos && SameEntries(later.directory, directory)
      && forall page: nat :: IsSafe(page) ==> later.IsSafe(page) && later.flash[page] == flash[page]
    }
  }

  /** The old file, what it will read as, the inodes of the pages already written, and the
      inode whose page is written next. */
  datatype Progress = Progress(inodes: seq<nat>, content: seq<byte>, target: seq<byte>, built: seq<nat>, cur: nat)

  ghost predicate IsBuilt(d: Disk, g: Progress, k: nat)
    requires k < |g.built| && FS_DATASIZE * |g.built| <= |g.target|
  {
    && Mapped(d.pages, g.built[k]) && g.built[k] != g.cur && d.IsSafe(d.pages[g.built[k]])
    && Holds(d.flash[d.pages[g.built[k]]], g.target[FS_DATASIZE * k..FS_DATASIZE * (k + 1)], false, NextOf(g.built + [g.cur], k))
  }

  ghost predicate IsKept(d: Disk, g: Progress, k: nat)
    requires k < |g.inodes| && FS_DATASIZE * k <= |g.content|
  {
    && Mapped(d.pages, g.inodes[k]) && g.inodes[k] != g.cur && g.inodes[k] !in g.built && d.IsSafe(d.pages[g.inodes[k]])
    && Holds(d.flash[d.pages[g.inodes[k]]], Block(g.content, k), k == |g.inodes| - 1, NextOf(g.inodes, k))
  }

  /** The pages before the current one are written and chained up to it; the old pages after
      it are still there; `oldPage` is the old page of the current block, if any. */
  ghost predicate Midway(d: Disk, g: Progress, oldPage: nat, eof: bool) {
    var j, n := |g.built|, |g.inodes|;
    && |d.pages| == FS_INODES && g.cur < FS_INODES && Distinct(g.built) && Distinct(g.inodes)
    && FS_DATASIZE * j <= |g.target| && (n == 0 || Spans(n, |g.content|)) && eof == (j >= n)
    && (forall k :: 0 <= k < j ==> IsBuilt(d, g, k))
    && (forall k :: j < k < n ==> IsKept(d, g, k))
    && (!eof ==> IsOldPage(d, g, oldPage))
    && (eof && n > 0 ==> oldPage < DF_PAGES && d.IsSafe(oldPage) && PageHeader(d.flash[oldPage]).eof)
  }

  ghost predicate IsOldPage(d: Disk, g: Progress, oldPage: nat)
    requires |g.built| < |g.inodes| && FS_DATASIZE * |g.built| <= |g.content|
  {
    && oldPage < DF_PAGES && d.IsSafe(oldPage)
    && Holds(d.flash[oldPage], Block(g.content, |g.built|), |g.built| == |g.inodes| - 1, NextOf(g.inodes, |g.built|))
  }

  /** The page `p`, allocated since, was programmed with `content`, and the current inode
      points to it. */
  ghost predicate PageWritten(d: Disk, g: Progress, d': Disk, p: nat, content: Page) {
    && d.GrowsTo(d') && p < DF_PAGES && !d.IsSafe(p) && d'.IsSafe(p) && d'.flash[p] == content
    && |d.pages| == FS_INODES && g.cur < FS_INODES && d'.pages == d.pages[g.cur := p]
  }

  /** A filled page joins the chain, and the write goes on behind it through a new inode. */
  lemma SplitStep(d: Disk, g: Progress, oldPage: nat, eof: bool, d': Disk, p: nat, content: Page, next: nat)
    requires Midway(d, g, oldPage, eof) && PageWritten(d, g, d', p, content)
    requires next < FS_INODES && d'.pages[next] == NONE
    requires FS_DATASIZE * (|g.built| + 1) <= |g.target|
    requires Holds(content, g.target[FS_DATASIZE * |g.built|..FS_DATASIZE * (|g.built| + 1)], false, next)
    ensures var j := |g.built| + 1;
      && (j < |g.inodes| ==> Mapped(d.pages, g.inodes[j]) && g.inodes[j] != g.cur)
      && Midway(d', g.(built := g.built + [g.cur], cur := next), NextOldPage(d'.pages, g.(built := g.built + [g.cur]), oldPage), j >= |g.inodes|)
  {
    assert eof || PageHeader(d.flash[oldPage]).eof == (|g.built| == |g.inodes| - 1);
    hide Holds, Disk.IsSafe;
    var g' := g.(built := g.built + [g.cur], cur := next);
    var j := |g.built| + 1;
    forall k | 0 <= k < j
      ensures IsBuilt(d', g', k) && (k < j - 1 ==> g.built[k] != g.cur)
    {
      if k < |g.built| {
        assert IsBuilt(d, g, k);
      }
      assert k < j - 1 ==> NextOf(g'.built + [next], k) == NextOf(g.built + [g.cur], k);
    }
    forall k | j <= k < |g.inodes|
      ensures IsKept(d, g, k)
      ensures k > j ==> IsKept(d', g', k)
    {
      assert IsKept(d, g, k);
    }
    if j < |g.inodes| {
      assert IsKept(d, g, j);
      assert IsOldPage(d', g', d.pages[g.inodes[j]]);
    }
  }

  /** The inodes of the file once the current page is the last one written. */
  function FinalInodes(g: Progress): seq<nat> {
    g.built + [g.cur] + (if |g.built| + 1 < |g.inodes| then g.inodes[|g.built| + 1..] else [])
  }

  lemma FinalInodesDistinct(d: Disk, g: Progress, oldPage: nat, eof: bool)
    requires Midway(d, g, oldPage, eof)
    ensures Distinct(FinalInodes(g))
  {
    hide Disk.IsSafe, Holds;
    var inodes := FinalInodes(g);
    forall i, k | 0 <= i < k < |inodes|
      ensures inodes[i] != inodes[k]
    {
      if i < |g.built| {
        assert IsBuilt(d, g, i);
      }
      if k > |g.built| {
        assert inodes[k] == g.inodes[k];
        assert IsKept(d, g, k);
      }
    }
  }

  /** Page `k` of the file that the last step leaves. */
  lemma FinalPage(d: Disk, g: Progress, oldPage: nat, eof: bool, d': Disk, p: nat, content: Page, k: nat)
    requires Midway(d, g, oldPage, eof) && PageWritten(d, g, d', p, content) && k < |FinalInodes(g)|
    requires var j, n := |g.built|, |g.inodes|;
      && Spans(if j < n then n else j + 1, |g.target|)
      && Holds(content, Block(g.target, j), j >= n - 1, NextOf(g.inodes, j))
      && (forall k :: j < k < n ==> FS_DATASIZE * k <= |g.content| && Block(g.target, k) == Block(g.content, k))
    ensures var inodes := FinalInodes(g);
      && Mapped(d'.pages, inodes[k]) && FS_DATASIZE * k <= |g.target|
      && Holds(d'.flash[d'.pages[inodes[k]]], Block(g.target, k), k == |inodes| - 1, NextOf(inodes, k))
      && d'.IsSafe(d'.pages[inodes[k]])
  {
    hide Disk.IsSafe, Holds;
    var j, n := |g.built|, |g.inodes|;
    var inodes := FinalInodes(g);
    if k < j {
      assert IsBuilt(d, g, k);
      assert NextOf(inodes, k) == NextOf(g.built + [g.cur], k);
      assert Block(g.target, k) == g.target[FS_DATASIZE * k..FS_DATASIZE * (k + 1)];
    } else if k > j {
      assert inodes[k] == g.inodes[k];
      assert IsKept(d, g, k);
      assert NextOf(inodes, k) == NextOf(g.inodes, k);
    } else {
      assert inodes[k] == g.cur;
      assert NextOf(inodes, k) == NextOf(g.inodes, k);
    }
  }

  /** The last page written ends the file, or hands over to the old pages behind it. */
  lemma LastStep(d: Disk, g: Progress, oldPage: nat, eof: bool, d': Disk, p: nat, content: Page)
    requires Midway(d, g, oldPage, eof) && PageWritten(d, g, d', p, content)
    requires var j, n := |g.built|, |g.inodes|;
      && Spans(if j < n then n else j + 1, |g.target|)
      && Holds(content, Block(g.target, j), j >= n - 1, NextOf(g.inodes, j))
      && (forall k :: j < k < n ==> FS_DATASIZE * k <= |g.content| && Block(g.target, k) == Block(g.content, k))
    ensures IsFile(d'.flash, d'.pages, FinalInodes(g), g.target)
    ensures forall k :: 0 <= k < |FinalInodes(g)| ==> d'.IsSafe(d'.pages[FinalInodes(g)[k]])
  {
    hide Disk.IsSafe, Holds, Block, IsBuilt, IsKept;
    var inodes := FinalInodes(g);
    FinalInodesDistinct(d, g, oldPage, eof);
    forall k | 0 <= k < |inodes|
      ensures Mapped(d'.pages, inodes[k]) && FS_DATASIZE * k <= |g.target|
      ensures Holds(d'.flash[d'.pages[inodes[k]]], Block(g.target, k), k == |inodes| - 1, NextOf(inodes, k))
      ensures d'.IsSafe(d'.pages[inodes[k]])
    {
      FinalPage(d, g, oldPage, eof, d', p, content, k);
    }
  }

  // ---------- the bytes ----------

  /** The rest of the write, `length` bytes from `offset` of the current block on, is what
      the target still lacks. */
  ghost predicate Remaining(g: Progress, data: seq<byte>, offset: nat, length: nat) {
    var j, n := |g.built|, |g.inodes|;
    var at := FS_DATASIZE * j + offset;
    && offset <= FS_DATASIZE && length <= |data| && (n == 0 ==> g.content == []) && (n > 0 ==> Spans(n, |g.content|))
    && (offset > 0 ==> j < n && at <= |g.content|)
    && at + length <= |g.target| && |g.target| == (if at + length < |g.content| then |g.content| else at + length)
    && (forall i :: at <= i < at + length ==> g.target[i] == Stored(data, offset, length)[i - at])
    && (forall i :: at - offset <= i < |g.content| && !(at <= i < at + length) ==> g.target[i] == g.content[i])
  }

  /** The bytes `was` begin like block `k`, as far as `n`. */
  predicate BeginsLike(was: seq<byte>, content: seq<byte>, k: nat, n: nat) {
    n <= |was| && FS_DATASIZE * k + n <= |content| && forall i :: 0 <= i < n ==> was[i] == content[FS_DATASIZE * k + i]
  }

  /** The block that a split fills up, and what then remains. */
  lemma SplitBlock(g: Progress, data: seq<byte>, offset: nat, length: nat, was: seq<byte>)
    requires Remaining(g, data, offset, length) && length + offset > FS_DATASIZE
    requires |was| == FS_DATASIZE && (offset > 0 ==> BeginsLike(was, g.content, |g.built|, offset))
    ensures FS_DATASIZE - offset <= length && FS_DATASIZE * (|g.built| + 1) <= |g.target|
    ensures g.target[FS_DATASIZE * |g.built|..FS_DATASIZE * (|g.built| + 1)] == Splice(was, offset, data[..FS_DATASIZE - offset])
  {
  }

  lemma SplitRemaining(g: Progress, data: seq<byte>, offset: nat, length: nat, next: nat)
    requires Remaining(g, data, offset, length) && length + offset > FS_DATASIZE
    ensures FS_DATASIZE - offset <= length
    ensures Remaining(g.(built := g.built + [g.cur], cur := next), data, 0, LeftOver(offset, length))
  {
  }

  /** How long the file gets, and that the blocks behind the last page written stay. */
  lemma LastSize(g: Progress, data: seq<byte>, offset: nat, length: nat, size: nat)
    requires Remaining(g, data, offset, length) && length + offset <= FS_DATASIZE
    requires |g.built| < |g.inodes| ==> var b := Block(g.content, |g.built|);
      offset <= |b| && size == (if length + offset > |b| then length + offset else |b|)
    requires |g.built| >= |g.inodes| ==> size == length && (|g.built| > 0 ==> length > 0)
    ensures var j, n := |g.built|, |g.inodes|;
      && Spans(if j < n then n else j + 1, |g.target|)
      && FS_DATASIZE * j <= |g.target| && size <= FS_DATASIZE && |Block(g.target, j)| == size
      && (forall k :: j < k < n ==> FS_DATASIZE * k <= |g.content| && Block(g.target, k) == Block(g.content, k))
  {
  }

  lemma LastBlock(g: Progress, data: seq<byte>, offset: nat, length: nat, was: seq<byte>, size: nat)
    requires Remaining(g, data, offset, length) && length + offset <= FS_DATASIZE && |was| == FS_DATASIZE
    requires FS_DATASIZE * |g.built| <= |g.target| && |Block(g.target, |g.built|)| == size
    requires |g.built| < |g.inodes| ==> BeginsLike(was, g.content, |g.built|, |Block(g.content, |g.built|)|)
    ensures size <= FS_DATASIZE
    ensures Splice(was, offset, data[..length])[..size] == Block(g.target, |g.built|)
  {
    hide Splice, Stored, BeginsLike;
    var begin := FS_DATASIZE * |g.built|;
    BlockEnds(g, size);
    forall i | 0 <= i < size
      ensures g.target[begin + i] == Splice(was, offset, data[..length])[i]
    {
      LastBlockAt(g, data, offset, length, was, size, i);
    }
    assert Block(g.target, |g.built|) == g.target[begin..begin + size];
  }

  lemma BlockEnds(g: Progress, size: nat)
    requires FS_DATASIZE * |g.built| <= |g.target| && |Block(g.target, |g.built|)| == size
    ensures size <= FS_DATASIZE && FS_DATASIZE * |g.built| + size <= |g.target|
    ensures Block(g.target, |g.built|) == g.target[FS_DATASIZE * |g.built|..FS_DATASIZE * |g.built| + size]
  {
  }

  /** Byte `i` of the last block comes from the data, or is that of the page before. */
  lemma LastBlockAt(g: Progress, data: seq<byte>, offset: nat, length: nat, was: seq<byte>, size: nat, i: nat)
    requires Remaining(g, data, offset, length) && length + offset <= FS_DATASIZE && |was| == FS_DATASIZE
    requires FS_DATASIZE * |g.built| <= |g.target| && |Block(g.target, |g.built|)| == size && i < size
    requires |g.built| < |g.inodes| ==> BeginsLike(was, g.content, |g.built|, |Block(g.content, |g.built|)|)
    ensures size <= FS_DATASIZE && FS_DATASIZE * |g.built| + i < |g.target|
    ensures g.target[FS_DATASIZE * |g.built| + i] == Splice(was, offset, data[..length])[i]
  {
    var begin := FS_DATASIZE * |g.built|;
    assert Stored(data, offset, length) == data[..length];
    hide Stored, Spans;
    if i < offset || offset + length <= i {
      assert g.target[begin + i] == g.content[begin + i] == was[i];
    } else {
      assert g.target[begin + i] == data[..length][i - offset];
    }
  }

  // ---------- power failures during a write ----------

  /** Inodes that were in use and are not touched point where they did. */
  ghost predicate KeepsOthers(before: seq<u16>, after: seq<u16>, touched: set<nat>) {
    && |before| == |after| == FS_INODES
    && forall i: nat :: i < FS_INODES && i !in touched && before[i] != NONE ==> after[i] == before[i]
  }

  /** A power failure that leaves this flash has damaged nothing but the touched inodes: a
      root page is recovered that keeps all others and the names, and every safe page reads
      as before. */
  ghost predicate SafePoint(d: Disk, touched: set<nat>, flash: Flash) {
    && (exists m :: Recovers(flash, m, d.directory) && KeepsOthers(d.pages, m, touched))
    && SameProtected(d.used, d.start, d.pos, d.flash, flash)
  }

  ghost predicate SafePoints(d: Disk, touched: set<nat>, history: seq<Flash>, base: seq<Flash>) {
    base <= history && forall k :: |base| <= k < |history| ==> SafePoint(d, touched, history[k])
  }

  ghost function DiskOf(fs: Fs): Disk
    reads fs
  {
    if Mounted(fs.flash, fs.root) then Disk(fs.flash, fs.Map(), fs.flash[fs.root], fs.used, fs.start, fs.pos)
    else Disk(fs.flash, [], BlankPage(), fs.used, fs.start, fs.pos)
  }

  /** The filesystem came from `d` by steps that a power failure may interrupt anywhere. */
  ghost predicate Follows(fs: Fs, d: Disk, touched: set<nat>, base: seq<Flash>)
    reads fs
  {
    && fs.Ready() && d.GrowsTo(DiskOf(fs)) && KeepsOthers(d.pages, fs.Map(), touched)
    && SafePoints(d, touched, fs.history, base)
  }

  /** A touched inode, or one that was not in use. */
  ghost predicate IsOurs(d: Disk, touched: set<nat>, inode: nat) {
    inode < FS_INODES == |d.pages| && (inode in touched || d.pages[inode] == NONE)
  }

  ghost predicate AreOurs(d: Disk, touched: set<nat>, inodes: seq<nat>) {
    forall k :: 0 <= k < |inodes| ==> IsOurs(d, touched, inodes[k])
  }

  /** A commit that changes a touched or an unused inode adds safe points only. */
  lemma CommitIsSafe(d: Disk, touched: set<nat>, d1: Disk, history: seq<Flash>, base: seq<Flash>, history': seq<Flash>, inode: nat, page: u16)
    requires d.GrowsTo(d1) && KeepsOthers(d.pages, d1.pages, touched) && SafePoints(d, touched, history, base)
    requires history <= history' && IsOurs(d, touched, inode)
    requires CrashSafe(history', |history|, d1.pages, d1.pages[inode := page], d1.directory, d1.used, d1.start, d1.pos, d1.flash)
    ensures SafePoints(d, touched, history', base)
  {
    hide SameEntries, Settled;
    forall k | |history| <= k < |history'|
      ensures SafePoint(d, touched, history'[k])
    {
      if Recovers(history'[k], d1.pages, d1.directory) {
        RecoversSameNames(history'[k], d1.pages, d1.directory, d.directory);
      } else {
        RecoversSameNames(history'[k], d1.pages[inode := page], d1.directory, d.directory);
      }
    }
  }

  /** Programming a page that is neither safe nor metadata is safe, too. */
  lemma PageSaveIsSafe(d: Disk, touched: set<nat>, history: seq<Flash>, base: seq<Flash>, flash: Flash, root: nat, p: nat, content: Page)
    requires SafePoints(d, touched, history, base) && SameProtected(d.used, d.start, d.pos, d.flash, flash)
    requires Settled(flash, root) && KeepsOthers(d.pages, InodeMap(flash, root), touched) && SameEntries(flash[root], d.directory)
    requires p < DF_PAGES && !d.IsSafe(p) && !Meta(flash, root, p) && !PageHeader(content).root
    ensures Settled(flash[p := content], root) && InodeMap(flash[p := content], root) == InodeMap(flash, root)
    ensures SafePoints(d, touched, history + [flash[p := content]], base)
  {
    hide SameEntries, Newest, ValidRoot, PageHeader;
    SaveOther(flash, root, p, content);
    assert flash[p := content][root] == flash[root];
    assert Recovers(flash[p := content], InodeMap(flash, root), d.directory);
  }

  lemma AllProtectedGrow(used: set<nat>, start: nat, pos: nat, pos': nat)
    requires pos <= pos'
    ensures forall page: nat :: Protected(used, start, pos, page) ==> Protected(used, start, pos', page)
  {
  }

  /** Allocate a page: nothing points to it yet. */
  method TakePage(fs: Fs, ghost d: Disk, ghost touched: set<nat>, ghost base: seq<Flash>) returns (pagenum: nat)
    requires Follows(fs, d, touched, base) && fs.HasRoom(1)
    modifies fs`lastFree, fs`pos
    ensures Follows(fs, d, touched, base) && old(DiskOf(fs)).GrowsTo(DiskOf(fs)) && DiskOf(fs).pages == old(DiskOf(fs).pages)
    ensures pagenum == NONE <==> old(fs.PagesLeft()) == 0
    ensures Takes(fs.used, fs.start, old(fs.pos), fs.pos, 1, pagenum != NONE)
    ensures pagenum != NONE ==>
      && pagenum == fs.pos % DF_PAGES && Allocated(fs.used, fs.start, old(fs.pos), fs.pos)
      && !old(DiskOf(fs)).IsSafe(pagenum) && DiskOf(fs).IsSafe(pagenum)
  {
    hide NextFree, Newest, Meta, SafePoints, MapThrough, Entry, PageHeader, ValidRoot, Protected, SameEntries, Disk.GrowsTo, KeepsOthers, Allocated, Ahead, Exhausted;
    ghost var d0 := DiskOf(fs);
    pagenum := fs.Allocate();
    if pagenum != NONE {
      AllocatedIsUnprotected(fs.used, fs.start, old(fs.pos), fs.pos);
    }
    GrowsByAllocation(d0, DiskOf(fs));
    GrowsTransitively(d, d0, DiskOf(fs));
    AllProtectedGrow(fs.used, fs.start, d0.pos, fs.pos);
  }

  /** Allocate a page and point the inode to it, before the page is written: it still holds
      what it held before. This takes three pages and one version. */
  method Redirect(fs: Fs, inode: nat, ghost d: Disk, ghost touched: set<nat>, ghost base: seq<Flash>)
    returns (status: Status, pagenum: nat)
    requires Follows(fs, d, touched, base) && fs.HasRoom(3) && fs.version < MAX_VERSION
    requires IsOurs(d, touched, inode)
    modifies fs`flash, fs`history, fs`buf1, fs`root, fs`version, fs`lastFree, fs`pos
    ensures Follows(fs, d, touched, base) && fs.version <= old(fs.version) + 1
    ensures status == if old(fs.PagesLeft()) >= 3 then FS_OK else FS_BADPAGE
    ensures Takes(fs.used, fs.start, old(fs.pos), fs.pos, 3, status == FS_OK)
    ensures status != FS_OK ==> DiskOf(fs).pages == old(DiskOf(fs).pages)
    ensures status == FS_OK ==>
      && fs.version == old(fs.version) + 1
      && pagenum < DF_PAGES && fs.root < DF_PAGES && !Meta(fs.flash, fs.root, pagenum)
      && old(DiskOf(fs)).GrowsTo(DiskOf(fs)) && DiskOf(fs).pages == old(DiskOf(fs).pages)[inode := pagenum]
      && !old(DiskOf(fs)).IsSafe(pagenum) && DiskOf(fs).IsSafe(pagenum) && fs.flash[pagenum] == old(fs.flash)[pagenum]
  {
    hide NextFree, Newest, Meta, SafePoints, Live, MapThrough, Entry, PageHeader, ValidRoot, SameEntries, Disk.GrowsTo, Disk.IsSafe, KeepsOthers, MetaReused, Allocated, Ahead, Exhausted;
    ghost var d0, version0, root0 := DiskOf(fs), fs.version, fs.root;
    pagenum := TakePage(fs, d, touched, base);
    ghost var d1 := DiskOf(fs);
    if pagenum == NONE {
      TakesNoMore(fs.used, fs.start, old(fs.pos), fs.pos, 1, 3);
      return FS_BADPAGE, pagenum;
    }
    status := PointTo(fs, inode, pagenum, d, touched, base);
    TakesMore(fs.used, fs.start, old(fs.pos), d1.pos, fs.pos, 1, 2, status == FS_OK);
    if status == FS_OK {
      FreshIsNotMeta(d0.flash, root0, version0, d0.used, d0.start, d0.pos, d1.pos, fs.flash, fs.root);
      SafeStays(d1, DiskOf(fs), pagenum);
      GrowsTransitively(d0, d1, DiskOf(fs));
    }
  }

  /** Point the inode to a page in one commit. */
  method PointTo(fs: Fs, inode: nat, pagenum: u16, ghost d: Disk, ghost touched: set<nat>, ghost base: seq<Flash>) returns (status: Status)
    requires Follows(fs, d, touched, base) && fs.HasRoom(2) && fs.version < MAX_VERSION
    requires IsOurs(d, touched, inode) && pagenum < DF_PAGES
    modifies fs`flash, fs`history, fs`buf1, fs`root, fs`version, fs`lastFree, fs`pos
    ensures Follows(fs, d, touched, base) && fs.version <= old(fs.version) + 1
    ensures Takes(fs.used, fs.start, old(fs.pos), fs.pos, 2, status == FS_OK) && status in {FS_OK, FS_BADPAGE}
    ensures status != FS_OK ==> DiskOf(fs).pages == old(DiskOf(fs).pages)
    ensures status == FS_OK ==>
      && fs.version == old(fs.version) + 1 && fs.root < DF_PAGES && old(fs.root) < DF_PAGES
      && old(DiskOf(fs)).GrowsTo(DiskOf(fs)) && DiskOf(fs).pages == old(DiskOf(fs).pages)[inode := pagenum]
      && MetaReused(fs.used, fs.start, old(fs.pos), old(fs.flash), old(fs.root), fs.flash, fs.root)
  {
    hide NextFree, Newest, Meta, SafePoints, CrashSafe, MapThrough, Entry, PageHeader, ValidRoot, Protected, SameEntries, Disk.GrowsTo, KeepsOthers, Recovers, InodeNode, Target, MetaReused, Allocated, Ahead, Exhausted, Tracks, SameProtected, SafePoint;
    ghost var d1, history := DiskOf(fs), fs.history;
    status := fs.UpdateInodeTable(inode, pagenum);
    CommitIsSafe(d, touched, d1, history, base, fs.history, inode, pagenum);
    ChangeKeepsOthers(d.pages, d1.pages, touched, inode, pagenum);
    GrowsByCommit(d1, DiskOf(fs));
    GrowsTransitively(d, d1, DiskOf(fs));
  }

  lemma SafeStays(d: Disk, d': Disk, page: nat)
    requires d.GrowsTo(d') && d.IsSafe(page)
    ensures d'.IsSafe(page) && d'.flash[page] == d.flash[page]
  {
  }

  /** A page just allocated does not become live metadata by a commit that follows. */
  lemma FreshIsNotMeta(flash: Flash, root: nat, version: u32, used: set<nat>, start: nat, pos: nat, q: nat, flash': Flash, root': nat)
    requires Live(flash, root, version, used, start, pos) && Allocated(used, start, pos, q)
    requires root' < DF_PAGES && MetaReused(used, start, q, flash, root, flash', root')
    ensures !Meta(flash', root', q % DF_PAGES)
  {
    hide Allocated, Protected, Newest;
    AllocatedIsUnprotected(used, start, pos, q);
  }

  lemma ChangeKeepsOthers(before: seq<u16>, now: seq<u16>, touched: set<nat>, inode: nat, page: u16)
    requires KeepsOthers(before, now, touched) && inode < FS_INODES && (inode < |before| ==> inode in touched || before[inode] == NONE)
    ensures KeepsOthers(before, now[inode := page], touched)
  {
  }

  lemma GrowsByAllocation(d: Disk, d': Disk)
    requires d'.used == d.used && d'.start == d.start && d.pos <= d'.pos && d'.flash == d.flash && d'.directory == d.directory
    ensures d.GrowsTo(d')
  {
  }

  lemma PreservedIsKept(d: Disk, d': Disk)
    requires d'.used == d.used && d'.start == d.start && Preserved(d.used, d.start, d.pos, d.flash, d'.pos, d'.flash)
    ensures forall page: nat :: d.IsSafe(page) ==> d'.IsSafe(page) && d'.flash[page] == d.flash[page]
  {
  }

  lemma GrowsByCommit(d: Disk, d': Disk)
    requires d'.used == d.used && d'.start == d.start && Preserved(d.used, d.start, d.pos, d.flash, d'.pos, d'.flash)
    requires SameEntries(d'.directory, d.directory)
    ensures d.GrowsTo(d')
  {
  }

  lemma GrowsTransitively(d: Disk, d1: Disk, d2: Disk)
    requires d.GrowsTo(d1) && d1.GrowsTo(d2)
    ensures d.GrowsTo(d2)
  {
  }

  /** Program buffer 1 to a page that is neither safe nor metadata. */
  method SavePage(fs: Fs, pagenum: nat, ghost d: Disk, ghost touched: set<nat>, ghost base: seq<Flash>)
    requires Follows(fs, d, touched, base)
    requires pagenum < DF_PAGES && !d.IsSafe(pagenum) && !Meta(fs.flash, fs.root, pagenum) && !PageHeader(fs.buf1).root
    modifies fs`flash, fs`history
    ensures Follows(fs, d, touched, base)
    ensures fs.flash == old(fs.flash)[pagenum := fs.buf1] && fs.flash[fs.root] == old(fs.flash[fs.root])
    ensures DiskOf(fs).pages == old(DiskOf(fs).pages)
  {
    hide Newest, TableOf, SafePoints, MapThrough, PageHeader, ValidRoot, SameEntries;
    PageSaveIsSafe(d, touched, fs.history, base, fs.flash, fs.root, pagenum, fs.buf1);
    fs.BufSave(pagenum);
  }

  ghost function FreeInodes(m: seq<u16>): set<nat>
  {
    set i: nat | i < |m| && m[i] == NONE
  }

  /** A page was allocated for the current inode, which points to it, but it is not written. */
  ghost predicate Redirected(fs: Fs, before: Disk, g: Progress, pagenum: nat)
    reads fs
  {
    && before.GrowsTo(DiskOf(fs)) && |before.pages| == FS_INODES && g.cur < FS_INODES && pagenum < DF_PAGES
    && DiskOf(fs).pages == before.pages[g.cur := pagenum]
    && !before.IsSafe(pagenum) && DiskOf(fs).IsSafe(pagenum) && fs.root < DF_PAGES && !Meta(fs.flash, fs.root, pagenum)
  }

  /** Fill the page up to its end and chain it to a new inode; buffer 1 holds what the page
      keeps of its old contents. */
  method FillPage(fs: Fs, pagenum: nat, reserved: bool, data: seq<byte>, offset: nat, length: nat,
                  ghost g: Progress, ghost oldPage: nat, ghost eof: bool, ghost before: Disk, ghost d: Disk, ghost touched: set<nat>, ghost base: seq<Flash>)
    returns (next: u12)
    requires Follows(fs, d, touched, base) && Midway(before, g, oldPage, eof) && d.GrowsTo(before) && Redirected(fs, before, g, pagenum)
    requires Remaining(g, data, offset, length) && length + offset > FS_DATASIZE
    requires offset > 0 ==> BeginsLike(PageData(fs.buf1), g.content, |g.built|, offset)
    requires FreeInodes(DiskOf(fs).pages) != {}
    modifies fs`flash, fs`history, fs`buf1
    ensures Follows(fs, d, touched, base)
    ensures DiskOf(fs).pages == old(DiskOf(fs).pages) && next in FreeInodes(DiskOf(fs).pages)
    ensures IsOurs(d, touched, next)
    ensures d.GrowsTo(DiskOf(fs)) && |DiskOf(fs).pages| == FS_INODES
    ensures PageWritten(before, g, DiskOf(fs), pagenum, fs.flash[pagenum])
    ensures FS_DATASIZE * (|g.built| + 1) <= |g.target|
    ensures Holds(fs.flash[pagenum], g.target[FS_DATASIZE * |g.built|..FS_DATASIZE * (|g.built| + 1)], false, next)
  {
    hide Newest, Meta, SafePoints, ValidRoot, KeepsOthers, Entry, PageData, PageHeader, Midway, Stored, Block, InodeNode, MapThrough, FreeInodes;
    next := FreeInode(fs);
    UntouchedInode(d.pages, DiskOf(fs).pages, touched, next);
    SplitBlock(g, data, offset, length, PageData(fs.buf1));
    FillBuffer(fs, Header(false, false, false, reserved, next, FS_DATASIZE), offset, data[..FS_DATASIZE - offset]);
    SavePage(fs, pagenum, d, touched, base);
  }

  /** `fs_new_inode` into a field of 12 bits: an inode that points nowhere, as long as there
      is one. */
  method FreeInode(fs: Fs) returns (inode: u12)
    requires Mounted(fs.flash, fs.root)
    ensures FreeInodes(DiskOf(fs).pages) != {} ==> inode in FreeInodes(DiskOf(fs).pages)
    ensures FreeInodes(DiskOf(fs).pages) == {} ==> inode == FS_INODES - 1
  {
    hide Mounted, MapThrough, InodeMap;
    var found := fs.NewInode();
    inode := found % 0x1000;
    if found == NONE {
      assert FreeInodes(DiskOf(fs).pages) == {};
    } else {
      assert found as int in FreeInodes(DiskOf(fs).pages);
    }
  }

  lemma UntouchedInode(before: seq<u16>, after: seq<u16>, touched: set<nat>, inode: nat)
    requires KeepsOthers(before, after, touched) && inode in FreeInodes(after)
    ensures inode < FS_INODES == |before| && (inode in touched || before[inode] == NONE)
  {
  }

  /** Put a header and a stretch of data into buffer 1. */
  method FillBuffer(fs: Fs, page: Header, offset: nat, bytes: seq<byte>)
    requires offset + |bytes| <= FS_DATASIZE
    modifies fs`buf1
    ensures PageHeader(fs.buf1) == page
    ensures PageData(fs.buf1) == Splice(PageData(old(fs.buf1)), offset, bytes)
  {
    PutData(fs.buf1, page, offset, bytes);
    fs.buf1 := Put(fs.buf1, 0, HeaderBytes(page));
    if |bytes| != 0 {
      fs.buf1 := Put(fs.buf1, FS_DATA_OFFSET + offset, bytes);
    } else {
      assert Put(fs.buf1, FS_DATA_OFFSET + offset, bytes) == fs.buf1;
    }
  }

  /** Write the last page of a write. */
  method LastPage(fs: Fs, pagenum: nat, page: Header, data: seq<byte>, offset: nat, length: nat,
                  ghost g: Progress, ghost oldPage: nat, ghost eof: bool, ghost before: Disk, ghost d: Disk, ghost touched: set<nat>, ghost base: seq<Flash>)
    requires Follows(fs, d, touched, base) && Midway(before, g, oldPage, eof) && d.GrowsTo(before) && Redirected(fs, before, g, pagenum)
    requires Remaining(g, data, offset, length) && length + offset <= FS_DATASIZE && !page.root
    requires page.eof == (|g.built| >= |g.inodes| - 1) && (!page.eof ==> page.nextInode == NextOf(g.inodes, |g.built|))
    requires |g.built| < |g.inodes| ==> var b := Block(g.content, |g.built|);
      && offset <= |b| && BeginsLike(PageData(fs.buf1), g.content, |g.built|, |b|)
      && page.size == (if length + offset > |b| then length + offset else |b|)
    requires |g.built| >= |g.inodes| ==> page.size == length && (|g.built| > 0 ==> length > 0)
    modifies fs`flash, fs`history, fs`buf1
    ensures Follows(fs, d, touched, base)
    ensures DiskOf(fs).pages == old(DiskOf(fs).pages)
    ensures IsFile(fs.flash, DiskOf(fs).pages, FinalInodes(g), g.target)
    ensures forall k :: 0 <= k < |FinalInodes(g)| ==> DiskOf(fs).IsSafe(DiskOf(fs).pages[FinalInodes(g)[k]])
  {
    hide Newest, Meta, SafePoints, ValidRoot, KeepsOthers, Entry, PageData, Midway, Stored, InodeNode, MapThrough, IsFile;
    LastSize(g, data, offset, length, page.size);
    LastBlock(g, data, offset, length, PageData(fs.buf1), page.size);
    FillBuffer(fs, page, offset, data[..length]);
    SavePage(fs, pagenum, d, touched, base);
    LastStep(before, g, oldPage, eof, DiskOf(fs), pagenum, fs.flash[pagenum]);
  }

  // ---------- the whole write ----------

  /** What a page of a file begins with. */
  lemma HoldsBegins(p: Page, content: seq<byte>, k: nat, last: bool, next: nat)
    requires FS_DATASIZE * k <= |content| && Holds(p, Block(content, k), last, next)
    ensures BeginsLike(PageData(p), content, k, |Block(content, k)|)
  {
  }

  /** Before the first page is written: the blocks before the offset stay as they are. */
  lemma StartOfWrite(d: Disk, inodes: seq<nat>, content: seq<byte>, data: seq<byte>, offset: nat, length: nat, k: nat, rest: nat)
    requires IsFile(d.flash, d.pages, inodes, content) && |d.pages| == FS_INODES && k < |inodes|
    requires forall i :: 0 <= i < |inodes| ==> d.IsSafe(d.pages[inodes[i]])
    requires offset <= |content| && offset == FS_DATASIZE * k + rest && rest <= FS_DATASIZE && length <= |data|
    ensures var target := Overwrite(content, offset, Stored(data, rest, length));
      var g := Progress(inodes, content, target, inodes[..k], inodes[k]);
      Midway(d, g, d.pages[inodes[k]], false) && Remaining(g, data, rest, length)
  {
    hide Disk.IsSafe, Stored, PageHeader, PageData;
    var target := Overwrite(content, offset, Stored(data, rest, length));
    var g := Progress(inodes, content, target, inodes[..k], inodes[k]);
    forall i | 0 <= i < |inodes|
      ensures i < k ==> IsBuilt(d, g, i)
      ensures i > k ==> IsKept(d, g, i)
    {
      PageOfFile(d.flash, d.pages, inodes, content, i);
      if i < k {
        assert target[FS_DATASIZE * i..FS_DATASIZE * (i + 1)] == Block(content, i);
        assert NextOf(g.built + [g.cur], i) == NextOf(inodes, i);
      }
    }
    PageOfFile(d.flash, d.pages, inodes, content, k);
  }

  /** An inode that is given a page is no longer free. */
  lemma GivenInode(m: seq<u16>, cur: nat, page: u16)
    requires |m| == FS_INODES && cur < FS_INODES && page != NONE
    ensures FreeInodes(m[cur := page]) == FreeInodes(m) - {cur}
  {
  }

  lemma FinalAreOurs(d: Disk, touched: set<nat>, g: Progress)
    requires IsOurs(d, touched, g.cur) && AreOurs(d, touched, g.built) && AreOurs(d, touched, g.inodes)
    ensures AreOurs(d, touched, FinalInodes(g))
  {
    hide IsOurs;
  }

  lemma UsesFreeInode(m: seq<u16>, cur: nat, page: u16, next: nat)
    requires |m| == FS_INODES && cur < FS_INODES && page != NONE
    requires next in FreeInodes(m[cur := page])
    ensures |FreeInodes(m) - {cur}| == |FreeInodes(m[cur := page])|
    ensures |FreeInodes(m[cur := page]) - {next}| == |FreeInodes(m) - {cur}| - 1
  {
    assert FreeInodes(m[cur := page]) == FreeInodes(m) - {cur};
  }

  /** What follows one write and then another follows both, when the other touches no more
      than what the first could. */
  lemma FollowsTransitively(fs: Fs, d: Disk, touched: set<nat>, base: seq<Flash>, d1: Disk, touched1: set<nat>, history1: seq<Flash>)
    requires d.GrowsTo(d1) && KeepsOthers(d.pages, d1.pages, touched) && SafePoints(d, touched, history1, base)
    requires Follows(fs, d1, touched1, history1) && forall i :: i in touched1 ==> IsOurs(d, touched, i)
    ensures Follows(fs, d, touched, base)
  {
    hide Disk.IsSafe, SafePoint, Recovers;
    GrowsTransitively(d, d1, DiskOf(fs));
    forall k | |base| <= k < |fs.history|
      ensures SafePoint(d, touched, fs.history[k])
    {
      if k < |history1| {
        assert fs.history[k] == history1[k];
      } else {
        SafePointTransitively(d, touched, d1, touched1, fs.history[k]);
      }
    }
  }

  lemma OursTransitively(d: Disk, touched: set<nat>, d1: Disk, touched1: set<nat>, inodes: seq<nat>)
    requires KeepsOthers(d.pages, d1.pages, touched) && AreOurs(d1, touched1, inodes)
    requires forall i :: i in touched1 ==> IsOurs(d, touched, i)
    ensures AreOurs(d, touched, inodes)
  {
    forall k | 0 <= k < |inodes|
      ensures IsOurs(d, touched, inodes[k])
    {
      assert IsOurs(d1, touched1, inodes[k]);
    }
  }

  /** What `Follows` says of the state in which it holds. */
  lemma FollowedSoFar(fs: Fs, d: Disk, touched: set<nat>, base: seq<Flash>)
    requires Follows(fs, d, touched, base)
    ensures d.GrowsTo(DiskOf(fs)) && KeepsOthers(d.pages, DiskOf(fs).pages, touched) && SafePoints(d, touched, fs.history, base)
  {
  }

  lemma SafePointTransitively(d: Disk, touched: set<nat>, d1: Disk, touched1: set<nat>, flash: Flash)
    requires d.GrowsTo(d1) && KeepsOthers(d.pages, d1.pages, touched) && SafePoint(d1, touched1, flash)
    requires forall i :: i in touched1 ==> IsOurs(d, touched, i)
    ensures SafePoint(d, touched, flash)
  {
    hide Recovers, SameEntries, Protected;
    var m :| Recovers(flash, m, d1.directory) && KeepsOthers(d1.pages, m, touched1);
    RecoversSameNames(flash, m, d1.directory, d.directory);
    assert KeepsOthers(d.pages, m, touched);
  }

  /** What a write leaves over: pages (fewer than none when they do not suffice), the version
      it ends with, and free inodes. */
  datatype Budget = Budget(pages: int, version: int, inodes: int)

  /** Besides the budget there are `pages` pages, `commits` versions and `n` free inodes. */
  ghost predicate Affords(fs: Fs, free: set<nat>, b: Budget, pages: nat, commits: nat, n: nat)
    reads fs
  {
    && fs.PagesLeft() == b.pages + pages && (b.pages >= 0 || fs.IsExhausted())
    && fs.version + commits == b.version <= MAX_VERSION
    && |free| == b.inodes + n && b.inodes >= 0
  }

  lemma ExhaustedIsFew(used: set<nat>, start: nat, pos: nat)
    requires start <= pos && Exhausted(used, start, pos)
    ensures |Ahead(used, start, pos)| <= 1
  {
    var ahead := Ahead(used, start, pos);
    if |ahead| >= 2 {
      var a :| a in ahead;
      if ahead <= {a} {
        SubsetSize(ahead, {a});
      }
      var b :| b in ahead && b != a;
      if a < b {
        DifferentPages(a, b);
      } else {
        DifferentPages(b, a);
      }
      TwoElements(FreePages(used), a % DF_PAGES, b % DF_PAGES);
    }
  }

  /** Where a loop of `fs_write` stands before its next page: `inode` is to be redirected;
      for every page to be filled up it will take three pages, a version and an inode, and
      for the last one three pages and a version. */
  ghost predicate UnderWay(fs: Fs, g: Progress, oldPage: nat, eof: bool, data: seq<byte>, offset: nat, length: nat,
                           d: Disk, touched: set<nat>, base: seq<Flash>, b: Budget)
    reads fs
  {
    && Follows(fs, d, touched, base) && Midway(DiskOf(fs), g, oldPage, eof) && Remaining(g, data, offset, length)
    && IsOurs(d, touched, g.cur) && AreOurs(d, touched, g.built) && AreOurs(d, touched, g.inodes)
    && |DiskOf(fs).pages| == FS_INODES && d.GrowsTo(DiskOf(fs))
    && (|g.built| >= |g.inodes| && |g.built| > 0 ==> length > 0)
    && Affords(fs, FreeInodes(DiskOf(fs).pages) - {g.cur}, b, 3 * Splits(offset, length) + 3, Splits(offset, length) + 1, Splits(offset, length))
  }

  /** The old page of the current block, or the last one there was. */
  function NextOldPage(m: seq<u16>, g: Progress, oldPage: nat): nat {
    if |g.built| < |g.inodes| && g.inodes[|g.built|] < |m| then m[g.inodes[|g.built|]] else oldPage
  }

  /** The current inode points to the new page `pagenum`, which is to be written now. */
  ghost predicate RoundBegun(fs: Fs, before: Disk, pagenum: nat, g: Progress, oldPage: nat, eof: bool, data: seq<byte>, offset: nat, length: nat,
                             d: Disk, touched: set<nat>, base: seq<Flash>, b: Budget)
    reads fs
  {
    && Follows(fs, d, touched, base) && Midway(before, g, oldPage, eof) && d.GrowsTo(before) && Redirected(fs, before, g, pagenum)
    && Remaining(g, data, offset, length) && (|g.built| >= |g.inodes| && |g.built| > 0 ==> length > 0)
    && IsOurs(d, touched, g.cur) && AreOurs(d, touched, g.built) && AreOurs(d, touched, g.inodes)
    && b.pages >= 0
    && Affords(fs, FreeInodes(before.pages) - {g.cur}, b, 3 * Splits(offset, length), Splits(offset, length), Splits(offset, length))
  }

  lemma NothingToTake(fs: Fs, d: Disk, touched: set<nat>, base: seq<Flash>)
    requires Follows(fs, d, touched, base) && fs.IsExhausted()
    ensures fs.PagesLeft() <= 1
  {
    hide Exhausted, Ahead, Live, SafePoints, KeepsOthers, Disk.GrowsTo;
    ExhaustedIsFew(fs.used, fs.start, fs.pos);
  }

  /** What every round starts with: allocate a page and redirect the inode to it. */
  method StartRound(fs: Fs, ghost g: Progress, inode: nat, ghost oldPage: nat, ghost eof: bool, ghost data: seq<byte>, ghost offset: nat, ghost length: nat,
                    ghost d: Disk, ghost touched: set<nat>, ghost base: seq<Flash>, ghost b: Budget)
    returns (status: Status, pagenum: nat, ghost before: Disk)
    requires UnderWay(fs, g, oldPage, eof, data, offset, length, d, touched, base, b) && inode == g.cur
    modifies fs`flash, fs`history, fs`buf1, fs`root, fs`version, fs`lastFree, fs`pos
    ensures Follows(fs, d, touched, base) && status == if b.pages >= 0 then FS_OK else FS_BADPAGE
    ensures status != FS_OK ==> DiskOf(fs).pages == old(DiskOf(fs).pages)
    ensures status == FS_OK ==> RoundBegun(fs, before, pagenum, g, oldPage, eof, data, offset, length, d, touched, base, b)
  {
    hide Newest, Meta, SafePoints, Midway, Splits, FreeInodes, Remaining, Follows, Disk.GrowsTo, DiskOf, Disk.IsSafe, Ahead, Exhausted, AreOurs;
    before := DiskOf(fs);
    if b.pages < 0 {
      NothingToTake(fs, d, touched, base);
    }
    status, pagenum := Redirect(fs, inode, d, touched, base);
  }

  /** A round that fills a page. */
  method SplitRound(fs: Fs, pagenum: nat, reserved: bool, data: seq<byte>, offset: nat, length: nat,
                    ghost g: Progress, ghost oldPage: nat, ghost eof: bool, ghost before: Disk, ghost d: Disk, ghost touched: set<nat>, ghost base: seq<Flash>, ghost b: Budget)
    returns (next: u12, ghost g': Progress)
    requires RoundBegun(fs, before, pagenum, g, oldPage, eof, data, offset, length, d, touched, base, b)
    requires offset <= FS_DATASIZE < length + offset
    requires offset > 0 ==> BeginsLike(PageData(fs.buf1), g.content, |g.built|, offset)
    modifies fs`flash, fs`history, fs`buf1
    ensures g' == g.(built := g.built + [g.cur], cur := next) && DiskOf(fs).pages == old(DiskOf(fs).pages)
    ensures UnderWay(fs, g', NextOldPage(DiskOf(fs).pages, g', oldPage), |g'.built| >= |g.inodes|,
                     data, 0, LeftOver(offset, length), d, touched, base, b)
  {
    hide Newest, Meta, SafePoints, ValidRoot, Entry, PageData, PageHeader, Midway, Stored, Block, InodeNode, MapThrough, Remaining, BeginsLike, Follows, PageWritten, SameEntries, Disk.GrowsTo, KeepsOthers, Mounted, Splits, LeftOver, NextOldPage, DiskOf, FreeInodes, Disk.IsSafe;
    SomeInodeIsFree(before.pages, g.cur, pagenum, offset, length);
    next := FillPage(fs, pagenum, reserved, data, offset, length, g, oldPage, eof, before, d, touched, base);
    g' := g.(built := g.built + [g.cur], cur := next);
    Advance(before, g, oldPage, eof, DiskOf(fs), pagenum, fs.flash[pagenum], next, data, offset, length);
  }

  lemma SomeInodeIsFree(m: seq<u16>, cur: nat, page: u16, offset: nat, length: nat)
    requires |m| == FS_INODES && cur < FS_INODES && page != NONE
    requires offset <= FS_DATASIZE < length + offset && |FreeInodes(m) - {cur}| >= Splits(offset, length)
    ensures FreeInodes(m[cur := page]) != {}
  {
  }

  /** All that a filled page means for the rest of the write. */
  lemma Advance(d: Disk, g: Progress, oldPage: nat, eof: bool, d': Disk, p: nat, content: Page, next: nat,
                data: seq<byte>, offset: nat, length: nat)
    requires Midway(d, g, oldPage, eof) && PageWritten(d, g, d', p, content) && next in FreeInodes(d'.pages)
    requires Remaining(g, data, offset, length) && length + offset > FS_DATASIZE && FS_DATASIZE * (|g.built| + 1) <= |g.target|
    requires Holds(content, g.target[FS_DATASIZE * |g.built|..FS_DATASIZE * (|g.built| + 1)], false, next)
    ensures var g' := g.(built := g.built + [g.cur], cur := next);
      && Splits(offset, length) == 1 + Splits(0, LeftOver(offset, length)) && LeftOver(offset, length) > 0
      && Midway(d', g', NextOldPage(d'.pages, g', oldPage), |g'.built| >= |g.inodes|)
      && Remaining(g', data, 0, LeftOver(offset, length))
      && |FreeInodes(d'.pages) - {next}| == |FreeInodes(d.pages) - {g.cur}| - 1
  {
    assert offset <= FS_DATASIZE && p != NONE;
    hide Midway, Remaining, Holds, FreeInodes, Disk.GrowsTo;
    SplitStep(d, g, oldPage, eof, d', p, content, next) by {
      assert d'.pages[next] == NONE by {
        FreeInodePointsNowhere(d'.pages, next);
      }
    }
    SplitRemaining(g, data, offset, length, next);
    UsesFreeInode(d.pages, g.cur, p, next);
  }

  lemma FreeInodePointsNowhere(m: seq<u16>, inode: nat)
    requires |m| == FS_INODES && inode in FreeInodes(m)
    ensures inode < FS_INODES && m[inode] == NONE
  {
  }

  /** The seek of `fs_write`: the page where the write starts, on a page boundary the page
      before it; fails when the file ends further in front. */
  method SeekToWrite(fs: Fs, inode: nat, offset: nat, ghost inodes: seq<nat>, ghost content: seq<byte>)
    returns (found: bool, at: nat, pagenum: nat, rest: nat, ghost k: nat)
    requires Mounted(fs.flash, fs.root) && inode < FS_INODES
    requires IsFile(fs.flash, fs.Map(), inodes, content) && inodes[0] == inode
    ensures found <==> offset <= FS_DATASIZE * |inodes|
    ensures found ==> k < |inodes| && at == inodes[k] < FS_INODES && pagenum == fs.Map()[at]
    ensures found ==> offset == FS_DATASIZE * k + rest && rest == StartInPage(offset)
  {
    PageOfFile(fs.flash, fs.Map(), inodes, content, 0);
    hide PageHeader, PageData, TablesInRange, ValidRoot, Block, IsFile, StartInPage;
    found, at, pagenum, rest, k := true, inode, PageThrough(fs.flash, fs.flash[fs.root], inode), offset, 0;
    while rest > FS_DATASIZE
      invariant found && k < |inodes| && at == inodes[k] < FS_INODES && pagenum == fs.Map()[at] && offset == FS_DATASIZE * k + rest
      invariant k > 0 ==> rest > 0
    {
      PageOfFile(fs.flash, fs.Map(), inodes, content, k);
      var page := PageHeader(fs.flash[pagenum]);
      if page.eof {
        found := false;
        return;
      }
      PageOfFile(fs.flash, fs.Map(), inodes, content, k + 1);
      at := page.nextInode;
      pagenum := PageThrough(fs.flash, fs.flash[fs.root], at);
      k := k + 1;
      rest := rest - FS_DATASIZE;
    }
    StartIsUnique(offset, k, rest);
  }

  lemma StartIsUnique(offset: nat, k: nat, rest: nat)
    requires offset == FS_DATASIZE * k + rest && rest <= FS_DATASIZE && (k > 0 ==> rest > 0)
    ensures rest == StartInPage(offset)
  {
  }

  /** What a finished write has left: the file reads as the target, on safe pages. */
  ghost predicate Written(fs: Fs, inode: nat, inodes: seq<nat>, target: seq<byte>)
    reads fs
  {
    var d := DiskOf(fs);
    && IsFile(d.flash, d.pages, inodes, target) && inodes[0] == inode
    && forall k :: 0 <= k < |inodes| ==> d.IsSafe(d.pages[inodes[k]])
  }

  /** A finished write has left what the budget says, and has used no inode of another file. */
  ghost predicate Finished(fs: Fs, inode: nat, inodes: seq<nat>, target: seq<byte>, d: Disk, touched: set<nat>, b: Budget)
    reads fs
  {
    && Written(fs, inode, inodes, target) && AreOurs(d, touched, inodes)
    && Affords(fs, FreeInodes(DiskOf(fs).pages), b, 0, 0, 0)
  }

  /** What the old page of the current block says. */
  lemma OldPage(d: Disk, g: Progress, oldPage: nat, eof: bool, data: seq<byte>, offset: nat, length: nat)
    requires Midway(d, g, oldPage, eof) && Remaining(g, data, offset, length) && |g.inodes| > 0
    ensures oldPage < DF_PAGES && d.IsSafe(oldPage) && offset <= FS_DATASIZE
    ensures eof ==> offset == 0 && PageHeader(d.flash[oldPage]).eof
    ensures !eof ==> FS_DATASIZE * |g.built| <= |g.content| && var b := Block(g.content, |g.built|);
      && offset <= |b| && BeginsLike(PageData(d.flash[oldPage]), g.content, |g.built|, |b|) && PageHeader(d.flash[oldPage]).size == |b|
    ensures !eof ==> PageHeader(d.flash[oldPage]).eof == (|g.built| == |g.inodes| - 1)
    ensures !eof && |g.built| < |g.inodes| - 1 ==>
      && PageHeader(d.flash[oldPage]).nextInode == g.inodes[|g.built| + 1] && g.inodes[|g.built| + 1] != g.cur
      && Mapped(d.pages, g.inodes[|g.built| + 1])
    ensures eof == (|g.built| >= |g.inodes|)
  {
    if !eof {
      HoldsBegins(d.flash[oldPage], g.content, |g.built|, |g.built| == |g.inodes| - 1, NextOf(g.inodes, |g.built|));
      if |g.built| < |g.inodes| - 1 {
        assert IsKept(d, g, |g.built| + 1);
      }
    }
  }

  /** The branch of the loop over an existing file that fills a page: what the file had
      there so far is kept in front of the data. */
  method FillExisting(fs: Fs, page: nat, oldPage: nat, eof: bool, data: seq<byte>, offset: nat, length: nat,
                      ghost g: Progress, ghost before: Disk, ghost d: Disk, ghost touched: set<nat>, ghost base: seq<Flash>, ghost b: Budget)
    returns (next: u12, oldPage': nat, eof': bool, ghost g': Progress)
    requires RoundBegun(fs, before, page, g, oldPage, eof, data, offset, length, d, touched, base, b)
    requires |g.inodes| > 0 && length + offset > FS_DATASIZE
    modifies fs`flash, fs`history, fs`buf1
    ensures g' == g.(built := g.built + [g.cur], cur := next)
    ensures UnderWay(fs, g', oldPage', eof', data, 0, LeftOver(offset, length), d, touched, base, b)
  {
    hide Newest, SafePoints, ValidRoot, PageData, PageHeader, Midway, Stored, Block, InodeNode, Remaining, KeepsOthers, Splits, LeftOver, FreeInodes, Meta, Entry, AreOurs, TablePage, Protected, Tracks, Ahead, Exhausted;
    OldPage(before, g, oldPage, eof, data, offset, length);
    fs.buf1 := fs.flash[oldPage];
    var header := PageHeader(fs.buf1);
    oldPage', eof' := oldPage, eof;
    if header.eof {
      eof' := true;
    } else {
      oldPage' := PageThrough(fs.flash, fs.flash[fs.root], header.nextInode);
    }
    next, g' := SplitRound(fs, page, header.reserved, data, offset, length, g, oldPage, eof, before, d, touched, base, b);
  }

  /** The branch of the loop over an existing file that ends the write. */
  method FinishExisting(fs: Fs, page: nat, oldPage: nat, eof: bool, data: seq<byte>, offset: nat, length: nat,
                        ghost g: Progress, ghost before: Disk, ghost d: Disk, ghost touched: set<nat>, ghost base: seq<Flash>, ghost b: Budget)
    returns (ghost inodes: seq<nat>)
    requires RoundBegun(fs, before, page, g, oldPage, eof, data, offset, length, d, touched, base, b)
    requires |g.inodes| > 0 && length + offset <= FS_DATASIZE
    modifies fs`flash, fs`history, fs`buf1
    ensures Follows(fs, d, touched, base) && Finished(fs, (g.built + [g.cur])[0], inodes, g.target, d, touched, b)
  {
    hide Newest, SafePoints, ValidRoot, PageData, Midway, Stored, Block, InodeNode, Remaining, KeepsOthers, FreeInodes, Meta, Entry, IsFile, Ahead, Exhausted, AreOurs, Protected, Tracks;
    OldPage(before, g, oldPage, eof, data, offset, length);
    fs.buf1 := fs.flash[oldPage];
    var header := PageHeader(fs.buf1);
    header := header.(unused := false, root := false, eof := eof || header.eof);
    if eof || length + offset > header.size {
      header := header.(size := length + offset);
    }
    LastPage(fs, page, header, data, offset, length, g, oldPage, eof, before, d, touched, base);
    inodes := FinalInodes(g);
    FinalAreOurs(d, touched, g);
    GivenInode(before.pages, g.cur, page);
  }

  /** The loop of `fs_write` over a file that has pages already. */
  method WriteExisting(fs: Fs, at: nat, pagenum: nat, data: seq<byte>, rest: nat, count: nat, ghost start: Progress,
                       ghost d: Disk, ghost touched: set<nat>, ghost base: seq<Flash>, ghost b: Budget)
    returns (status: Status, ghost inodes: seq<nat>)
    requires UnderWay(fs, start, pagenum, false, data, rest, count, d, touched, base, b)
    requires at == start.cur && |start.inodes| > 0 && rest <= FS_DATASIZE
    modifies fs`flash, fs`history, fs`buf1, fs`root, fs`version, fs`lastFree, fs`pos
    ensures Follows(fs, d, touched, base) && status == if b.pages >= 0 then FS_OK else FS_BADPAGE
    ensures status != FS_OK ==> DiskOf(fs).pages == old(DiskOf(fs).pages)
    ensures status == FS_OK ==> Finished(fs, (start.built + [start.cur])[0], inodes, start.target, d, touched, b)
  {
    hide UnderWay, RoundBegun, Follows, Finished, DiskOf;
    var inode, oldPage, offset: nat, length: nat := at, pagenum, rest, count;
    var eof := false;
    ghost var g := start;
    while true
      invariant UnderWay(fs, g, oldPage, eof, data, offset, length, d, touched, base, b) && inode == g.cur
      invariant g.inodes == start.inodes && g.target == start.target && offset <= FS_DATASIZE
      invariant (g.built + [g.cur])[0] == (start.built + [start.cur])[0]
      invariant b.pages < 0 ==> DiskOf(fs).pages == old(DiskOf(fs).pages)
      decreases Splits(offset, length)
    {
      var page: nat;
      ghost var before: Disk;
      status, page, before := StartRound(fs, g, inode, oldPage, eof, data, offset, length, d, touched, base, b);
      if status != FS_OK {
        return status, [];
      }
      if length + offset > FS_DATASIZE {
        inode, oldPage, eof, g := FillExisting(fs, page, oldPage, eof, data, offset, length, g, before, d, touched, base, b);
        length := LeftOver(offset, length);
      } else {
        inodes := FinishExisting(fs, page, oldPage, eof, data, offset, length, g, before, d, touched, base, b);
        return FS_OK, inodes;
      }
      offset := 0;
    }
  }

  /** The loop of `fs_write` for a file that has no page yet; `reserved` is what the page
      structure happens to contain. */
  method WriteNew(fs: Fs, at: nat, data: seq<byte>, count: nat, reserved: bool, unset: u12, ghost start: Progress,
                  ghost d: Disk, ghost touched: set<nat>, ghost base: seq<Flash>, ghost b: Budget)
    returns (status: Status, ghost inodes: seq<nat>)
    requires UnderWay(fs, start, 0, true, data, 0, count, d, touched, base, b)
    requires at == start.cur && start.inodes == [] && start.built == []
    modifies fs`flash, fs`history, fs`buf1, fs`root, fs`version, fs`lastFree, fs`pos
    ensures Follows(fs, d, touched, base) && status == if b.pages >= 0 then FS_OK else FS_BADPAGE
    ensures status != FS_OK ==> DiskOf(fs).pages == old(DiskOf(fs).pages)
    ensures status == FS_OK ==> Finished(fs, at, inodes, start.target, d, touched, b)
  {
    hide UnderWay, RoundBegun, Follows, Finished, DiskOf;
    var inode, length: nat := at, count;
    ghost var g := start;
    while true
      invariant UnderWay(fs, g, 0, true, data, 0, length, d, touched, base, b) && inode == g.cur
      invariant g.inodes == [] && g.target == start.target
      invariant (g.built + [g.cur])[0] == at
      invariant b.pages < 0 ==> DiskOf(fs).pages == old(DiskOf(fs).pages)
      decreases Splits(0, length)
    {
      var page: nat;
      ghost var before: Disk;
      status, page, before := StartRound(fs, g, inode, 0, true, data, 0, length, d, touched, base, b);
      if status != FS_OK {
        return status, [];
      }
      if length > FS_DATASIZE {
        inode, g := SplitRound(fs, page, reserved, data, 0, length, g, 0, true, before, d, touched, base, b);
        length := LeftOver(0, length);
      } else {
        inodes := FinishNew(fs, page, Header(false, false, true, reserved, unset, length), data, length, g, before, d, touched, base, b);
        return FS_OK, inodes;
      }
    }
  }

  /** The branch of the loop for a new file that ends it. */
  method FinishNew(fs: Fs, page: nat, header: Header, data: seq<byte>, length: nat,
                   ghost g: Progress, ghost before: Disk, ghost d: Disk, ghost touched: set<nat>, ghost base: seq<Flash>, ghost b: Budget)
    returns (ghost inodes: seq<nat>)
    requires RoundBegun(fs, before, page, g, 0, true, data, 0, length, d, touched, base, b)
    requires g.inodes == [] && length <= FS_DATASIZE && header.eof && !header.root && header.size == length
    modifies fs`flash, fs`history, fs`buf1
    ensures Follows(fs, d, touched, base) && Finished(fs, (g.built + [g.cur])[0], inodes, g.target, d, touched, b)
  {
    hide Newest, SafePoints, ValidRoot, PageData, Midway, Stored, Block, InodeNode, Remaining, KeepsOthers, FreeInodes, Meta, Entry, IsFile;
    LastPage(fs, page, header, data, 0, length, g, 0, true, before, d, touched, base);
    inodes := FinalInodes(g);
    FinalAreOurs(d, touched, g);
    GivenInode(before.pages, g.cur, page);
  }

  /** The file behind `inode`, or none yet. */
  ghost predicate IsFileOrNew(d: Disk, inode: nat, inodes: seq<nat>, content: seq<byte>) {
    && inode < FS_INODES == |d.pages|
    && (d.pages[inode] == NONE ==> inodes == [] && content == [])
    && (d.pages[inode] != NONE ==>
      && IsFile(d.flash, d.pages, inodes, content) && inodes[0] == inode
      && forall k :: 0 <= k < |inodes| ==> d.IsSafe(d.pages[inodes[k]]))
  }

  ghost function Touched(inode: nat, inodes: seq<nat>): set<nat> {
    {inode} + set i | i in inodes
  }

  /** What a write that fills up `n` pages would leave over. */
  ghost function BudgetOf(fs: Fs, inode: nat, n: nat): Budget
    reads fs
  {
    Budget(fs.PagesLeft() - (3 * n + 3), fs.version + n + 1, |FreeInodes(DiskOf(fs).pages) - {inode}| - n)
  }

  /** A write that fills up `n` pages does not make the allocator wrap, nor use up the versions
      or the inodes. */
  ghost predicate IsAffordable(fs: Fs, inode: nat, n: nat)
    reads fs
  {
    fs.HasRoom(3 * n + 3) && fs.version + n < MAX_VERSION && |FreeInodes(DiskOf(fs).pages) - {inode}| >= n
  }

  /** `fs_write`: it takes three pages and one version for every page it writes, and an inode
      for every page but the last. */
  method Write(fs: Fs, inode: nat, data: seq<byte>, offset: nat, length: nat, ghost inodes: seq<nat>, ghost content: seq<byte>)
    returns (status: Status, ghost inodes': seq<nat>)
    requires fs.Ready() && IsFileOrNew(DiskOf(fs), inode, inodes, content) && length <= |data|
    requires offset <= |content| || offset > FS_DATASIZE * |inodes|
    requires IsAffordable(fs, inode, Splits(StartInPage(offset), length))
    modifies fs`flash, fs`history, fs`buf1, fs`root, fs`version, fs`lastFree, fs`pos
    ensures Follows(fs, old(DiskOf(fs)), Touched(inode, inodes), old(fs.history))
    ensures status == if offset > FS_DATASIZE * |inodes| then FS_BADSEEK
                      else if old(fs.PagesLeft()) >= 3 * Splits(StartInPage(offset), length) + 3 then FS_OK else FS_BADPAGE
    ensures status == FS_BADSEEK ==> DiskOf(fs) == old(DiskOf(fs)) && fs.history == old(fs.history)
    ensures status != FS_OK ==> DiskOf(fs).pages == old(DiskOf(fs).pages) && IsFileOrNew(DiskOf(fs), inode, inodes, content)
    ensures status == FS_OK ==> Written(fs, inode, inodes', Overwrite(content, offset, Stored(data, StartInPage(offset), length)))
    ensures status == FS_OK ==> AreOurs(old(DiskOf(fs)), Touched(inode, inodes), inodes')
    ensures status == FS_OK ==> var n := Splits(StartInPage(offset), length);
      && fs.PagesLeft() == old(fs.PagesLeft()) - (3 * n + 3) && fs.version == old(fs.version) + n + 1
      && |FreeInodes(DiskOf(fs).pages)| == |old(FreeInodes(DiskOf(fs).pages)) - {inode}| - n
  {
    hide UnderWay, Midway, Written, IsFile, Overwrite, Stored, Splits, Remaining, FreeInodes, MapThrough, PageThrough, Disk.GrowsTo, Disk.IsSafe, KeepsOthers, SafePoints, Follows, Touched, Live, Fs.Ready, DiskOf, AreOurs, IsAffordable;
    ghost var d := DiskOf(fs);
    ghost var touched := Touched(inode, inodes);
    StartsFollowing(fs, touched);
    ReadyIsMounted(fs);
    ghost var b := BudgetOf(fs, inode, Splits(StartInPage(offset), length));
    var pagenum: nat := PageThrough(fs.flash, fs.flash[fs.root], inode);
    assert pagenum == d.pages[inode];
    if pagenum != NONE {
      status, inodes' := WriteToFile(fs, inode, data, offset, length, inodes, content, b);
    } else {
      if offset != 0 {
        return FS_BADSEEK, [];
      }
      ghost var g := Progress([], [], Overwrite([], 0, Stored(data, 0, length)), [], inode);
      BeginNew(fs, inode, data, length, b);
      // what the page structure on the stack happens to contain
      var reserved: bool, unset: u12 := *, *;
      status, inodes' := WriteNew(fs, inode, data, length, reserved, unset, g, d, touched, fs.history, b);
    }
    if status != FS_OK {
      UnwrittenFile(fs, d, touched, old(fs.history), inode, inodes, content);
    }
  }

  lemma UnwrittenFile(fs: Fs, d: Disk, touched: set<nat>, base: seq<Flash>, inode: nat, inodes: seq<nat>, content: seq<byte>)
    requires Follows(fs, d, touched, base) && DiskOf(fs).pages == d.pages && IsFileOrNew(d, inode, inodes, content)
    ensures IsFileOrNew(DiskOf(fs), inode, inodes, content)
  {
    hide IsFileOrNew, SafePoints, Disk.IsSafe, KeepsOthers, DiskOf;
    UnchangedFile(d, DiskOf(fs), inode, inodes, content);
  }

  /** The first branch of `fs_write`: the file has pages already. */
  method WriteToFile(fs: Fs, inode: nat, data: seq<byte>, offset: nat, length: nat,
                     ghost inodes: seq<nat>, ghost content: seq<byte>, ghost b: Budget)
    returns (status: Status, ghost inodes': seq<nat>)
    requires fs.Ready() && IsFileOrNew(DiskOf(fs), inode, inodes, content) && DiskOf(fs).pages[inode] != NONE && length <= |data|
    requires offset <= |content| || offset > FS_DATASIZE * |inodes|
    requires IsAffordable(fs, inode, Splits(StartInPage(offset), length)) && b == BudgetOf(fs, inode, Splits(StartInPage(offset), length))
    modifies fs`flash, fs`history, fs`buf1, fs`root, fs`version, fs`lastFree, fs`pos
    ensures Follows(fs, old(DiskOf(fs)), Touched(inode, inodes), old(fs.history))
    ensures status == if offset > FS_DATASIZE * |inodes| then FS_BADSEEK else if b.pages >= 0 then FS_OK else FS_BADPAGE
    ensures status == FS_BADSEEK ==> DiskOf(fs) == old(DiskOf(fs)) && fs.history == old(fs.history)
    ensures status != FS_OK ==> DiskOf(fs).pages == old(DiskOf(fs).pages)
    ensures status == FS_OK ==> Finished(fs, inode, inodes', Overwrite(content, offset, Stored(data, StartInPage(offset), length)), old(DiskOf(fs)), Touched(inode, inodes), b)
  {
    hide UnderWay, Midway, Finished, IsFile, Overwrite, Stored, Splits, Remaining, FreeInodes, StartInPage, MapThrough, Disk.GrowsTo, KeepsOthers, SafePoints, Follows, Touched, Live, IsAffordable, BudgetOf;
    ghost var d := DiskOf(fs);
    ghost var touched := Touched(inode, inodes);
    StartsFollowing(fs, touched);
    var found, at, pagenum, rest: nat;
    ghost var k: nat;
    assert Mounted(fs.flash, fs.root) by {
      ReadyIsMounted(fs);
    }
    found, at, pagenum, rest, k := SeekToWrite(fs, inode, offset, inodes, content);
    if !found {
      return FS_BADSEEK, [];
    }
    ghost var g := Progress(inodes, content, Overwrite(content, offset, Stored(data, rest, length)), inodes[..k], inodes[k]);
    BeginExisting(fs, inode, inodes, content, data, offset, length, k, rest, b);
    status, inodes' := WriteExisting(fs, at, pagenum, data, rest, length, g, d, touched, fs.history, b);
  }

  lemma ReadyIsMounted(fs: Fs)
    requires fs.Ready()
    ensures Mounted(fs.flash, fs.root) && DiskOf(fs).pages == fs.Map()
  {
  }

  lemma BeginExisting(fs: Fs, inode: nat, inodes: seq<nat>, content: seq<byte>, data: seq<byte>, offset: nat, length: nat, k: nat, rest: nat, b: Budget)
    requires fs.Ready() && IsFileOrNew(DiskOf(fs), inode, inodes, content) && DiskOf(fs).pages[inode] != NONE && length <= |data|
    requires k < |inodes| && offset <= |content| && offset == FS_DATASIZE * k + rest && rest == StartInPage(offset)
    requires IsAffordable(fs, inode, Splits(rest, length)) && b == BudgetOf(fs, inode, Splits(rest, length))
    ensures UnderWay(fs, Progress(inodes, content, Overwrite(content, offset, Stored(data, rest, length)), inodes[..k], inodes[k]),
                     DiskOf(fs).pages[inodes[k]], false, data, rest, length, DiskOf(fs), Touched(inode, inodes), fs.history, b)
    ensures (inodes[..k] + [inodes[k]])[0] == inode
  {
    hide Fs.Ready, Follows, Midway, Remaining, IsFile, Overwrite, Stored, Splits, FreeInodes, Disk.GrowsTo, Disk.IsSafe, DiskOf, StartInPage, Block, Holds, Ahead, Exhausted;
    var d := DiskOf(fs);
    StartsFollowing(fs, Touched(inode, inodes));
    StartOfWrite(d, inodes, content, data, offset, length, k, rest);
    PageOfFile(d.flash, d.pages, inodes, content, k);
    OnlyCurrentMapped(d.pages, inode, inodes[k]);
    TheirOwn(d, inode, inodes, content);
    assert inodes[k] in Touched(inode, inodes);
    assert k == 0 ==> inodes[..k] + [inodes[k]] == [inode];
  }

  /** The inodes of a file are its own. */
  lemma TheirOwn(d: Disk, inode: nat, inodes: seq<nat>, content: seq<byte>)
    requires IsFile(d.flash, d.pages, inodes, content) && |d.pages| == FS_INODES
    ensures AreOurs(d, Touched(inode, inodes), inodes)
  {
    hide Holds;
    forall k | 0 <= k < |inodes|
      ensures IsOurs(d, Touched(inode, inodes), inodes[k])
    {
      assert Mapped(d.pages, inodes[k]);
      assert inodes[k] in Touched(inode, inodes);
    }
  }

  lemma TheirOwnOrNew(d: Disk, inode: nat, inodes: seq<nat>, content: seq<byte>)
    requires IsFileOrNew(d, inode, inodes, content)
    ensures IsOurs(d, Touched(inode, inodes), inode) && AreOurs(d, Touched(inode, inodes), inodes)
  {
    hide IsFile;
    if d.pages[inode] != NONE {
      TheirOwn(d, inode, inodes, content);
    }
  }

  /** A file stays what it is while neither its inodes nor its pages change. */
  lemma UnchangedFile(d: Disk, d': Disk, inode: nat, inodes: seq<nat>, content: seq<byte>)
    requires IsFileOrNew(d, inode, inodes, content) && d'.pages == d.pages
    requires forall page: nat :: d.IsSafe(page) ==> d'.IsSafe(page) && d'.flash[page] == d.flash[page]
    ensures IsFileOrNew(d', inode, inodes, content)
  {
    hide Holds;
    forall k | 0 <= k < |inodes|
      ensures d'.IsSafe(d'.pages[inodes[k]]) && d'.flash[d'.pages[inodes[k]]] == d.flash[d.pages[inodes[k]]]
    {
      assert d.IsSafe(d.pages[inodes[k]]);
    }
  }

  lemma StartsFollowing(fs: Fs, touched: set<nat>)
    requires fs.Ready()
    ensures Follows(fs, DiskOf(fs), touched, fs.history)
    ensures |DiskOf(fs).pages| == FS_INODES && DiskOf(fs).GrowsTo(DiskOf(fs))
  {
  }

  lemma BeginNew(fs: Fs, inode: nat, data: seq<byte>, length: nat, b: Budget)
    requires fs.Ready() && IsFileOrNew(DiskOf(fs), inode, [], []) && DiskOf(fs).pages[inode] == NONE && length <= |data|
    requires IsAffordable(fs, inode, Splits(0, length)) && b == BudgetOf(fs, inode, Splits(0, length))
    ensures UnderWay(fs, Progress([], [], Overwrite([], 0, Stored(data, 0, length)), [], inode),
                     0, true, data, 0, length, DiskOf(fs), Touched(inode, []), fs.history, b)
  {
    hide Fs.Ready, Follows, Stored, Splits, FreeInodes, Disk.GrowsTo, Disk.IsSafe, DiskOf, Block, Holds, Ahead, Exhausted;
    StartsFollowing(fs, Touched(inode, []));
    assert Overwrite([], 0, Stored(data, 0, length)) == Stored(data, 0, length);
  }

  lemma OnlyCurrentMapped(m: seq<u16>, inode: nat, cur: nat)
    requires inode < FS_INODES == |m| && cur < FS_INODES && m[inode] != NONE && m[cur] != NONE
    ensures FreeInodes(m) - {inode} == FreeInodes(m) - {cur} == FreeInodes(m)
  {
  }

  ghost predicate HasPages(d: Disk, inode: nat) {
    inode < |d.pages| && d.pages[inode] != NONE
  }

  lemma WrittenIsFile(fs: Fs, d: Disk, touched: set<nat>, base: seq<Flash>, inode: nat, inodes: seq<nat>, content: seq<byte>)
    requires Follows(fs, d, touched, base) && Written(fs, inode, inodes, content) && inode < FS_INODES
    ensures fs.Ready() && IsFileOrNew(DiskOf(fs), inode, inodes, content) && HasPages(DiskOf(fs), inode)
  {
    hide Newest, Meta, SafePoints, KeepsOthers, Disk.GrowsTo, Holds, MapThrough;
  }

  lemma DirectoryOf(fs: Fs)
    requires fs.Ready()
    ensures fs.root < DF_PAGES && DiskOf(fs).directory == fs.flash[fs.root]
  {
  }

  lemma FollowsSameNames(fs: Fs, d: Disk, touched: set<nat>, base: seq<Flash>)
    requires Follows(fs, d, touched, base)
    ensures Mounted(fs.flash, fs.root) && SameEntries(fs.flash[fs.root], d.directory)
  {
    hide SafePoints, KeepsOthers, SameEntries;
  }

  /** The file as a mounted filesystem presents it. */
  lemma FileOf(fs: Fs, inode: nat, inodes: seq<nat>, content: seq<byte>)
    requires fs.Ready() && IsFileOrNew(DiskOf(fs), inode, inodes, content) && HasPages(DiskOf(fs), inode)
    ensures fs.Map()[inode] != NONE && IsFile(fs.flash, fs.Map(), inodes, content) && inodes[0] == inode
  {
    hide IsFile, MapThrough;
  }

  // ---------- what a write means ----------

  /** Blocks written one after the other, each at the end of the file, add up to it. */
  lemma AppendedBlock(content: seq<byte>, data: seq<byte>)
    requires |content| % FS_DATASIZE == 0 && |data| <= FS_DATASIZE
    ensures Overwrite(content, |content|, Stored(data, StartInPage(|content|), |data|)) == content + data
  {
    hide Stored, StartInPage, Overwrite;
    OneBlockIsStored(data, |content|);
    AppendedIs(content, data);
  }

  lemma AppendedIs(content: seq<byte>, data: seq<byte>)
    ensures Overwrite(content, |content|, data) == content + data
  {
  }

  /** Between the commit that redirects an inode and the save of its page the file has the
      bytes that the fresh page happens to hold: a power failure there keeps the old content
      exactly when these are the old block, and gives the new one exactly when they are the
      new block. */
  lemma BetweenCommitAndSave(flash: Flash, m: seq<u16>, inodes: seq<nat>, content: seq<byte>, k: nat, page: u16, target: seq<byte>)
    requires IsFile(flash, m, inodes, content) && k < |inodes| && page < DF_PAGES
    requires Spans(|inodes|, |target|)
    requires forall i :: 0 <= i < |inodes| && i != k ==> FS_DATASIZE * i <= |content| && Block(target, i) == Block(content, i)
    ensures IsFile(flash, m[inodes[k] := page], inodes, target) <==>
      Holds(flash[page], Block(target, k), k == |inodes| - 1, NextOf(inodes, k))
  {
    hide Holds, Block;
    var m' := m[inodes[k] := page];
    forall i | 0 <= i < |inodes|
      ensures m'[inodes[i]] == if i == k then page else m[inodes[i]]
    {
      PageOfFile(flash, m, inodes, content, i);
    }
  }

  /** A power failure anywhere in a write, or its completion, leaves every other file whole:
      the root page that a scan recovers has the same names and leads to the same bytes. */
  lemma OtherFilesSurvive(d: Disk, touched: set<nat>, flash: Flash, inodes: seq<nat>, content: seq<byte>)
    requires SafePoint(d, touched, flash)
    requires IsFile(d.flash, d.pages, inodes, content)
    requires forall k :: 0 <= k < |inodes| ==> inodes[k] !in touched && d.IsSafe(d.pages[inodes[k]])
    ensures exists root: nat :: Settled(flash, root) && IsFile(flash, InodeMap(flash, root), inodes, content) && SameEntries(flash[root], d.directory)
  {
    hide Holds;
    var m :| Recovers(flash, m, d.directory) && KeepsOthers(d.pages, m, touched);
    var root: nat :| Settled(flash, root) && InodeMap(flash, root) == m && SameEntries(flash[root], d.directory);
    forall k | 0 <= k < |inodes|
      ensures Mapped(m, inodes[k]) && flash[m[inodes[k]]] == d.flash[d.pages[inodes[k]]]
    {
      assert Mapped(d.pages, inodes[k]) && d.IsSafe(d.pages[inodes[k]]);
    }
    assert IsFile(flash, m, inodes, content);
  }
}
