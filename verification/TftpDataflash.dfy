/** The TFTP server of the application: a client writes a file of the dataflash filesystem. */
module TftpDataflash {
  import opened Integers
  import opened FlashLayout
  import opened Filesystem
  import opened Files
  import opened FileWriting
  import opened Directory
  import opened Formatting
  import T = Tftp

  /** How much of the file the first `t` blocks are. */
  function Have(file: seq<byte>, t: nat): (n: nat)
    ensures n <= |file|
  {
    if T.BLOCK * t < |file| then T.BLOCK * t else |file|
  }

  /** At least the first `t` blocks of the file lie over what was there before. */
  ghost predicate Received(before: seq<byte>, file: seq<byte>, content: seq<byte>, t: nat) {
    exists p: nat :: Have(file, t) <= p <= |file| && content == Overwrite(before, 0, file[..p])
  }

  lemma OverlaidTwice(before: seq<byte>, file: seq<byte>, p: nat, o: nat, q: nat)
    requires o <= p <= |file| && o <= q <= |file|
    ensures Overwrite(Overwrite(before, 0, file[..p]), o, file[o..q]) == Overwrite(before, 0, file[..if p < q then q else p])
  {
  }

  /** Where the block after the first `t` goes. */
  lemma BlockPlace(file: seq<byte>, t: nat)
    requires |file| <= T.FLASH_SIZE && t < T.Blocks(file)
    ensures T.BlockAt(t) <= Have(file, t)
    ensures T.Payload(file, t + 1) == if t < 128 then file[T.BlockAt(t)..Have(file, t + 1)] else []
    ensures t < 128 ==> T.BlockAt(t) == T.BLOCK * t == Have(file, t) <= Have(file, t + 1)
    ensures t >= 128 ==> T.BlockAt(t) == 0 && Have(file, t) == |file|
    ensures T.BlockAt(t) % FS_DATASIZE == 0
  {
  }

  /** One more block. The last one of a file of 64 KiB is empty, so it does no harm here where
      its place wraps to the beginning. */
  lemma ReceivedNext(before: seq<byte>, file: seq<byte>, content: seq<byte>, t: nat)
    requires |file| <= T.FLASH_SIZE && t < T.Blocks(file) && Received(before, file, content, t)
    ensures T.BlockAt(t) <= |content|
    ensures Received(before, file, Overwrite(content, T.BlockAt(t), T.Payload(file, t + 1)), t + 1)
  {
    BlockPlace(file, t);
    var p: nat :| Have(file, t) <= p <= |file| && content == Overwrite(before, 0, file[..p]);
    if t < 128 {
      OverlaidTwice(before, file, p, T.BlockAt(t), Have(file, t + 1));
    } else {
      assert Overwrite(content, 0, []) == content;
    }
  }

  /** When all blocks are there, so is the file, unless a longer one was there before. */
  lemma AllReceived(before: seq<byte>, file: seq<byte>, content: seq<byte>)
    requires Received(before, file, content, T.Blocks(file))
    ensures content == file + (if |before| > |file| then before[|file|..] else [])
    ensures content == file <==> |before| <= |file|
  {
    assert file[..|file|] == file;
  }

  /** How many pages the write of a data block fills up before its last one: a block that is
      appended begins behind the last byte of the page before. */
  function BlockSplits(block: u16, payload: seq<byte>): nat
    requires block > 0
  {
    Splits(StartInPage(T.BlockAt(block - 1)), |payload|)
  }

  lemma BlockSplitsOnce(block: u16, payload: seq<byte>)
    requires block > 0 && |payload| <= T.BLOCK
    ensures BlockSplits(block, payload) <= if block == 1 then 0 else 1
  {
    var offset := StartInPage(T.BlockAt(block - 1));
    assert block == 1 ==> offset == 0;
    assert Splits(0, LeftOver(offset, |payload|)) == 0;
  }

  /** A place inside the content is not behind the chain of pages. */
  lemma IsWithin(fs: Fs, inode: nat, inodes: seq<nat>, content: seq<byte>, offset: nat)
    requires IsFileOrNew(DiskOf(fs), inode, inodes, content) && offset <= |content|
    ensures offset <= FS_DATASIZE * |inodes|
  {
    hide Holds;
  }

  lemma BoundIsNamed(p: Page, n: nat, f: Name, inode: nat)
    requires n <= FS_NODES_IN_ROOT && IsBound(p, n, f, inode)
    ensures Names(p, n, f)
  {
  }

  lemma ReceivedFewer(before: seq<byte>, file: seq<byte>, content: seq<byte>, t: nat)
    requires Received(before, file, content, t)
    ensures Received(before, file, content, 0)
  {
  }

  lemma WithoutOne<X>(s: set<X>, x: X)
    ensures |s - {x}| >= |s| - 1
    ensures x !in s ==> s - {x} == s
  {
    if x in s {
      assert s == (s - {x}) + {x};
    }
  }

  /** A file without pages takes a free inode itself, but its first block fills up no page. */
  lemma OneInodeSuffices(fs: Fs, inode: nat)
    ensures var free := FreeInodes(DiskOf(fs).pages);
      |free - {inode}| >= |free| - 1 && (HasPages(DiskOf(fs), inode) ==> free - {inode} == free)
  {
    WithoutOne(FreeInodes(DiskOf(fs).pages), inode);
  }

  lemma DiskIs(fs: Fs)
    ensures var d := DiskOf(fs); d.flash == fs.flash && d.used == fs.used && d.start == fs.start && d.pos == fs.pos
  {
  }

  lemma NothingReceived(before: seq<byte>, file: seq<byte>)
    ensures Received(before, file, before, 0)
  {
    assert before == Overwrite(before, 0, file[..0]);
  }

  lemma RunOfFirst(s: T.State, packets: seq<T.Packet>)
    requires packets != [] && packets[0] == T.WriteRequest
    ensures T.Answer(s, packets[..1]).1 == T.SendAck(0)
    ensures T.Run(s, packets[..1]) == s.(download := false, transfered := 0, finished := false)
  {
    assert packets[..1] == [] + [T.WriteRequest];
    T.AnswerToNext(s, [], T.WriteRequest);
    T.EmptyRun(s);
  }

  lemma RunOfNext(s: T.State, packets: seq<T.Packet>, i: nat)
    requires i < |packets|
    ensures T.Answer(s, packets[..i + 1]) == T.Step(T.Run(s, packets[..i]), packets[i])
    ensures T.Run(s, packets[..i + 1]) == T.Answer(s, packets[..i + 1]).0
  {
    assert packets[..i + 1] == packets[..i] + [packets[i]];
    T.AnswerToNext(s, packets[..i], packets[i]);
  }

  /** A write leaves the names as they are. */
  lemma NamesStay(fs: Fs, d: Disk, touched: set<nat>, base: seq<Flash>, n: nat, f: Name, inode: nat)
    requires Follows(fs, d, touched, base) && IsDirectory(d.directory, n) && IsBound(d.directory, n, f, inode)
    ensures Mounted(fs.flash, fs.root) && IsDirectory(fs.flash[fs.root], n) && IsBound(fs.flash[fs.root], n, f, inode)
  {
    hide Follows, SameEntries, IsTable, IsBound;
    FollowsSameNames(fs, d, touched, base);
    SameEntriesSameDirectory(fs.flash[fs.root], d.directory, n);
    SameEntriesSameBinding(fs.flash[fs.root], d.directory, n, f, inode);
  }

  /** What the boot loader's receiver makes of a data packet, apart from its flash. */
  lemma StepOfData(s: T.State, p: T.Packet)
    requires !s.download && p.Data? && p.block < 0xFFFF
    ensures var (t, reply) := T.Step(s, p);
      var taken := p.block == s.transfered + 1;
      && reply == (if p.block == s.transfered || taken then T.SendAck(p.block) else T.SendError)
      && !t.download && t.transfered == (if taken then p.block else s.transfered)
      && t.finished == (s.finished || (taken && |p.payload| < T.BLOCK))
  {
    hide T.Programmed, T.Filled;
  }

  lemma FollowsIsReady(fs: Fs, d: Disk, touched: set<nat>, base: seq<Flash>)
    requires Follows(fs, d, touched, base)
    ensures fs.Ready()
  {
  }

  /** What the next write of an upload touches is its own. */
  lemma TouchedAreOurs(d: Disk, m: seq<u16>, touched: set<nat>, inode: nat, inodes: seq<nat>, inodes': seq<nat>)
    requires KeepsOthers(d.pages, m, touched) && inode < FS_INODES && touched == Touched(inode, inodes) && AreOurs(d, touched, inodes')
    ensures forall i :: i in Touched(inode, inodes') ==> IsOurs(d, touched, i)
  {
  }

  class Receiver {
    const fs: Fs
    var download: bool
    var transfered: u16
    var finished: bool
    var inode: u16

    constructor (fs: Fs)
      ensures this.fs == fs
    {
      this.fs := fs;
      download, transfered, finished, inode := false, 0, false, 0;
    }

    /** The file under the inode is what was there `before` with the blocks received so far
        laid over it. */
    ghost predicate Receiving(before: seq<byte>, file: seq<byte>, inodes: seq<nat>, content: seq<byte>)
      reads this, fs
    {
      && fs.Ready() && !download && transfered <= T.Blocks(file) && |file| <= T.FLASH_SIZE && inode < FS_INODES
      && IsFileOrNew(DiskOf(fs), inode, inodes, content) && Received(before, file, content, transfered)
      && (transfered > 0 ==> HasPages(DiskOf(fs), inode))
    }

    /** A data packet of the upload of `file`. The next block is written if there are pages
        for it; every other packet changes nothing. */
    method Data(block: u16, payload: seq<byte>, ghost before: seq<byte>, ghost file: seq<byte>,
                ghost inodes: seq<nat>, ghost content: seq<byte>)
      returns (reply: T.Reply, ghost inodes': seq<nat>, ghost content': seq<byte>)
      requires Receiving(before, file, inodes, content) && T.Sends(file, T.Data(block, payload))
      requires block == transfered + 1 ==> IsAffordable(fs, inode, BlockSplits(block, payload))
      modifies this`transfered, this`finished, fs`flash, fs`history, fs`buf1, fs`root, fs`version, fs`lastFree, fs`pos
      ensures reply == if block == old(transfered) || (block == old(transfered) + 1 && old(fs.PagesLeft()) >= 3 * BlockSplits(block, payload) + 3)
                       then T.SendAck(block) else T.SendError
      ensures reply.SendAck? ==> transfered == block
      ensures reply.SendError? ==> transfered == old(transfered)
      ensures finished == (old(finished) || (reply.SendAck? && block > old(transfered) && |payload| < T.BLOCK))
      ensures block != old(transfered) + 1 ==>
        && DiskOf(fs) == old(DiskOf(fs)) && fs.pos == old(fs.pos) && fs.history == old(fs.history) && fs.version == old(fs.version)
        && inodes' == inodes && content' == content
      ensures block == old(transfered) + 1 && reply.SendAck? ==> var n := BlockSplits(block, payload);
        && fs.PagesLeft() == old(fs.PagesLeft()) - (3 * n + 3) && fs.version == old(fs.version) + n + 1
        && |FreeInodes(DiskOf(fs).pages)| == |old(FreeInodes(DiskOf(fs).pages)) - {inode as nat}| - n
      ensures Follows(fs, old(DiskOf(fs)), Touched(inode as nat, inodes), old(fs.history))
      ensures Receiving(before, file, inodes', content') && AreOurs(old(DiskOf(fs)), Touched(inode as nat, inodes), inodes')
    {
      hide IsFileOrNew, Received, DiskOf, Fs.Ready, Follows, FreeInodes, Touched, AreOurs, Ahead, Exhausted, BlockSplits;
      inodes', content' := inodes, content;
      StartsFollowing(fs, Touched(inode as nat, inodes));
      TheirOwnOrNew(DiskOf(fs), inode, inodes, content);
      if download || block < transfered {
        return T.SendError, inodes', content';
      }
      if block == transfered {
        return T.SendAck(block), inodes', content';
      }
      if block > (transfered + 1) % 0x1_0000 {
        return T.SendError, inodes', content';
      }
      var status;
      status, inodes', content' := StoreNext(block, payload, before, file, inodes, content);
      if status != FS_OK {
        return T.SendError, inodes', content';
      }
      if |payload| < T.BLOCK {
        finished := true;
      }
      transfered := block;
      reply := T.SendAck(block);
    }

    /** Write the block after those received. */
    method StoreNext(block: u16, payload: seq<byte>, ghost before: seq<byte>, ghost file: seq<byte>,
                     ghost inodes: seq<nat>, ghost content: seq<byte>)
      returns (status: Status, ghost inodes': seq<nat>, ghost content': seq<byte>)
      requires Receiving(before, file, inodes, content) && T.Sends(file, T.Data(block, payload)) && block == transfered + 1
      requires IsAffordable(fs, inode, BlockSplits(block, payload))
      modifies fs`flash, fs`history, fs`buf1, fs`root, fs`version, fs`lastFree, fs`pos
      ensures status == if old(fs.PagesLeft()) >= 3 * BlockSplits(block, payload) + 3 then FS_OK else FS_BADPAGE
      ensures fs.Ready() && IsFileOrNew(DiskOf(fs), inode, inodes', content')
      ensures status == FS_OK ==> HasPages(DiskOf(fs), inode) && Received(before, file, content', block)
      ensures status != FS_OK ==> inodes' == inodes && content' == content && DiskOf(fs).pages == old(DiskOf(fs).pages)
      ensures status == FS_OK ==> var n := BlockSplits(block, payload);
        && fs.PagesLeft() == old(fs.PagesLeft()) - (3 * n + 3) && fs.version == old(fs.version) + n + 1
        && |FreeInodes(DiskOf(fs).pages)| == |old(FreeInodes(DiskOf(fs).pages)) - {inode as nat}| - n
      ensures Follows(fs, old(DiskOf(fs)), Touched(inode as nat, inodes), old(fs.history))
      ensures status == FS_OK ==> AreOurs(old(DiskOf(fs)), Touched(inode as nat, inodes), inodes')
    {
      hide IsFileOrNew, Received, DiskOf, Fs.Ready, Follows, FreeInodes, Splits, StartInPage, Stored, Overwrite, IsFile, Touched, Written, HasPages, AreOurs, Ahead, Exhausted;
      var offset := T.BlockAt(block - 1);
      ReceivedNext(before, file, content, transfered);
      BlockPlace(file, transfered);
      OneBlockIsStored(payload, offset);
      IsWithin(fs, inode, inodes, content, offset);
      status, inodes' := Write(fs, inode, payload, offset, |payload|, inodes, content);
      if status != FS_OK {
        FollowsIsReady(fs, old(DiskOf(fs)), Touched(inode as nat, inodes), old(fs.history));
        return status, inodes, content;
      }
      content' := Overwrite(content, offset, payload);
      WrittenIsFile(fs, old(DiskOf(fs)), Touched(inode as nat, inodes), old(fs.history), inode, inodes', content');
    }

    /** A write request: the name is entered into the directory if it is not there, and the
        upload goes to the inode it is bound to. A new file begins empty. */
    method WriteRequest(name: CString, ghost n: nat) returns (reply: T.Reply, ghost n': nat)
      requires fs.Ready() && IsDirectory(fs.flash[fs.root], n)
      requires Names(fs.flash[fs.root], n, Field(name)) || n + 1 < FS_NODES_IN_ROOT
      requires fs.HasRoom(1) && fs.version < MAX_VERSION
      modifies this`download, this`transfered, this`finished, this`inode
      modifies fs`flash, fs`history, fs`buf1, fs`root, fs`version, fs`lastFree, fs`pos
      ensures fs.Ready() && fs.Map() == old(fs.Map()) && Preserved(fs.used, fs.start, old(fs.pos), old(fs.flash), fs.pos, fs.flash)
      ensures !download && transfered == 0 && !finished
      ensures old(Names(fs.flash[fs.root], n, Field(name))) ==>
        && n' == n && reply == T.SendAck(0)
        && fs.flash == old(fs.flash) && fs.root == old(fs.root) && fs.pos == old(fs.pos) && fs.history == old(fs.history) && fs.version == old(fs.version)
      ensures !old(Names(fs.flash[fs.root], n, Field(name))) && old(fs.PagesLeft()) > 0 ==>
        && n' == n + 1 && reply == T.SendAck(0) && Names(fs.flash[fs.root], n', Field(name)) && inode < FS_INODES && IsGiven(fs.Map(), inode)
        && fs.PagesLeft() == old(fs.PagesLeft()) - 1 && fs.version == old(fs.version) + 1 && fs.history == old(fs.history) + [fs.flash]
      ensures !old(Names(fs.flash[fs.root], n, Field(name))) && old(fs.PagesLeft()) == 0 ==>
        fs.flash == old(fs.flash) && fs.root == old(fs.root) && n' == n
      ensures IsDirectory(fs.flash[fs.root], n')
      ensures forall i: nat :: IsBound(fs.flash[fs.root], n', Field(name), i) ==> inode == i
      ensures Names(fs.flash[fs.root], n', Field(name)) ==> IsBound(fs.flash[fs.root], n', Field(name), inode)
    {
      hide Fs.Ready, Names, IsTable, Field, IsGiven, NextFree, FreePositions, Bindings, Entry, Less, Preserved, MetaReused, MapThrough, InodeMap, Fs.Map, Ahead, Exhausted;
      download, transfered, finished := false, 0, false;
      ReadyIsMounted(fs);
      ghost var at, given;
      var status;
      status, at, given := Create(fs, name, n);
      n' := if status == FS_OK then n + 1 else n;
      ReadyIsMounted(fs);
      if status == FS_OK {
        InsertedIsBound(fs.flash[fs.root], n, old(Bindings(fs.flash[fs.root], n)), at, Field(name), given);
      }
      inode := GetInode(fs, name, n');
      if inode == NONE {
        return T.SendError, n';
      }
      reply := T.SendAck(0);
    }

    /** The upload of `file` is under way, and the inode is still bound to the name. */
    ghost predicate Uploading(name: CString, n: nat, before: seq<byte>, file: seq<byte>, inodes: seq<nat>, content: seq<byte>)
      reads this, fs
    {
      && Receiving(before, file, inodes, content)
      && IsDirectory(fs.flash[fs.root], n) && IsBound(fs.flash[fs.root], n, Field(name), inode)
    }

    /** The receiver stands where the one of the boot loader would stand. */
    ghost predicate Agrees(s: T.State)
      reads this
    {
      !s.download && transfered == s.transfered && finished == s.finished
    }

    ghost function FreeCount(): nat
      reads fs
    {
      |FreeInodes(DiskOf(fs).pages)|
    }

    /** A repeated write request during an upload: it begins again, over what is there. */
    method Repeat(name: CString, ghost n: nat, ghost before: seq<byte>, ghost file: seq<byte>, ghost inodes: seq<nat>, ghost content: seq<byte>)
      returns (reply: T.Reply)
      requires Uploading(name, n, before, file, inodes, content) && fs.HasRoom(1) && fs.version < MAX_VERSION
      modifies this`download, this`transfered, this`finished, this`inode
      modifies fs`flash, fs`history, fs`buf1, fs`root, fs`version, fs`lastFree, fs`pos
      ensures Uploading(name, n, before, file, inodes, content) && inode == old(inode)
      ensures reply == T.SendAck(0) && transfered == 0 && !finished
      ensures DiskOf(fs) == old(DiskOf(fs)) && fs.pos == old(fs.pos) && fs.history == old(fs.history) && fs.version == old(fs.version)
    {
      hide IsFileOrNew, Fs.Ready, Field, IsTable, Entry, Less, HasPages, Ahead, Exhausted, IsGiven, Bindings;
      ghost var n';
      DirectoryOf(fs);
      BoundIsNamed(fs.flash[fs.root], n, Field(name), inode);
      reply, n' := WriteRequest(name, n);
      ReceivedFewer(before, file, content, old(transfered));
    }

    /** One more packet of an upload takes no more than six pages, two versions and an inode. */
    method Handle(p: T.Packet, name: CString, ghost n: nat, ghost before: seq<byte>, ghost file: seq<byte>,
                  ghost inodes: seq<nat>, ghost content: seq<byte>, ghost s: T.State)
      returns (reply: T.Reply, ghost inodes': seq<nat>, ghost content': seq<byte>)
      requires Uploading(name, n, before, file, inodes, content) && T.Sends(file, p) && Agrees(s)
      requires fs.PagesLeft() >= 6 && fs.version + 2 <= MAX_VERSION && FreeCount() >= 1
      modifies this`download, this`transfered, this`finished, this`inode
      modifies fs`flash, fs`history, fs`buf1, fs`root, fs`version, fs`lastFree, fs`pos
      ensures Uploading(name, n, before, file, inodes', content') && inode == old(inode)
      ensures reply == T.Step(s, p).1 && Agrees(T.Step(s, p).0)
      ensures fs.PagesLeft() >= old(fs.PagesLeft()) - 6 && fs.version <= old(fs.version) + 2 && FreeCount() >= old(FreeCount()) - 1
      ensures Follows(fs, old(DiskOf(fs)), Touched(inode as nat, inodes), old(fs.history))
      ensures AreOurs(old(DiskOf(fs)), Touched(inode as nat, inodes), inodes')
    {
      hide IsFileOrNew, Receiver.Receiving, Fs.Ready, Follows, FreeInodes, Touched, AreOurs, Ahead, Exhausted, Field, IsTable, IsBound, DiskOf;
      inodes', content' := inodes, content;
      if p.WriteRequest? {
        reply := Repeat(name, n, before, file, inodes, content);
        UploadStands(name, n, before, file, inodes, content);
        return;
      }
      reply, inodes', content' := Next(p, name, n, before, file, inodes, content, s);
    }

    /** Nothing has happened since. */
    lemma UploadStands(name: CString, n: nat, before: seq<byte>, file: seq<byte>, inodes: seq<nat>, content: seq<byte>)
      requires Uploading(name, n, before, file, inodes, content)
      ensures Follows(fs, DiskOf(fs), Touched(inode as nat, inodes), fs.history)
      ensures AreOurs(DiskOf(fs), Touched(inode as nat, inodes), inodes)
    {
      hide IsFileOrNew, Received, Follows, Touched, AreOurs, DiskOf, Fs.Ready, IsTable, IsBound;
      StartsFollowing(fs, Touched(inode as nat, inodes));
      TheirOwnOrNew(DiskOf(fs), inode, inodes, content);
    }

    /** A data packet in an upload. */
    method Next(p: T.Packet, name: CString, ghost n: nat, ghost before: seq<byte>, ghost file: seq<byte>,
                ghost inodes: seq<nat>, ghost content: seq<byte>, ghost s: T.State)
      returns (reply: T.Reply, ghost inodes': seq<nat>, ghost content': seq<byte>)
      requires Uploading(name, n, before, file, inodes, content) && T.Sends(file, p) && p.Data? && Agrees(s)
      requires fs.PagesLeft() >= 6 && fs.version + 2 <= MAX_VERSION && FreeCount() >= 1
      modifies this`transfered, this`finished, fs`flash, fs`history, fs`buf1, fs`root, fs`version, fs`lastFree, fs`pos
      ensures Uploading(name, n, before, file, inodes', content')
      ensures reply == T.Step(s, p).1 && Agrees(T.Step(s, p).0)
      ensures fs.PagesLeft() >= old(fs.PagesLeft()) - 6 && fs.version <= old(fs.version) + 2 && FreeCount() >= old(FreeCount()) - 1
      ensures Follows(fs, old(DiskOf(fs)), Touched(inode as nat, inodes), old(fs.history))
      ensures AreOurs(old(DiskOf(fs)), Touched(inode as nat, inodes), inodes')
    {
      hide IsFileOrNew, Received, Fs.Ready, Follows, FreeInodes, Touched, HasPages, AreOurs, Ahead, Exhausted, Field, IsTable, Entry, Names, IsBound, BlockSplits, T.Step, T.Payload, DiskOf;
      BlockSplitsOnce(p.block, p.payload);
      OneInodeSuffices(fs, inode);
      DirectoryOf(fs);
      ghost var d, base := DiskOf(fs), fs.history;
      reply, inodes', content' := Data(p.block, p.payload, before, file, inodes, content);
      NamesStay(fs, d, Touched(inode as nat, inodes), base, n, Field(name), inode);
      StepOfData(s, p);
    }

    /** The first packet of an upload. */
    method Begin(name: CString, ghost n: nat, ghost before: seq<byte>, ghost file: seq<byte>, ghost inodes: seq<nat>)
      returns (reply: T.Reply, ghost n': nat)
      requires fs.Ready() && IsDirectory(fs.flash[fs.root], n) && |file| <= T.FLASH_SIZE
      requires Names(fs.flash[fs.root], n, Field(name)) || (n + 1 < FS_NODES_IN_ROOT && inodes == [] && before == [])
      requires forall i: nat :: IsBound(fs.flash[fs.root], n, Field(name), i) ==> IsFileOrNew(DiskOf(fs), i, inodes, before)
      requires fs.PagesLeft() >= 1 && fs.version < MAX_VERSION && FreeCount() >= 1
      modifies this`download, this`transfered, this`finished, this`inode
      modifies fs`flash, fs`history, fs`buf1, fs`root, fs`version, fs`lastFree, fs`pos
      ensures Uploading(name, n', before, file, inodes, before)
      ensures n' == if old(Names(fs.flash[fs.root], n, Field(name))) then n else n + 1
      ensures reply == T.SendAck(0) && transfered == 0 && !finished
      ensures DiskOf(fs).pages == old(DiskOf(fs).pages) && Preserved(fs.used, fs.start, old(fs.pos), old(fs.flash), fs.pos, fs.flash)
      ensures fs.PagesLeft() >= old(fs.PagesLeft()) - 1 && fs.version <= old(fs.version) + 1
      ensures old(fs.history) <= fs.history && |fs.history| <= |old(fs.history)| + 1
    {
      hide IsFileOrNew, Fs.Ready, Field, IsTable, Entry, HasPages, Ahead, Exhausted, IsGiven, Bindings, Names, IsBound, Preserved, InodeMap, MapThrough, FreeInodes;
      ReadyIsMounted(fs);
      ghost var d, there := DiskOf(fs), Names(fs.flash[fs.root], n, Field(name));
      reply, n' := WriteRequest(name, n);
      ReadyIsMounted(fs);
      if there {
        PreservedIsKept(d, DiskOf(fs));
        UnchangedFile(d, DiskOf(fs), inode, inodes, before);
      } else {
        NewFile(fs, inode);
      }
      TheirOwnOrNew(DiskOf(fs), inode, inodes, before);
      NothingReceived(before, file);
    }

    /** A whole upload: the request, and then whatever the network makes of the requests and
        blocks that the client sends. The replies are those of the boot loader's receiver. When
        all blocks are taken the name leads to the file. A power failure on the way leaves
        every other file whole. */
    method Upload(name: CString, packets: seq<T.Packet>, ghost n: nat, ghost before: seq<byte>, ghost file: seq<byte>,
                  ghost inodes: seq<nat>, ghost s: T.State)
      returns (replies: seq<T.Reply>, ghost n': nat, ghost inodes': seq<nat>, ghost content: seq<byte>, ghost d: Disk, ghost base: seq<Flash>)
      requires fs.Ready() && IsDirectory(fs.flash[fs.root], n) && |file| <= T.FLASH_SIZE
      requires Names(fs.flash[fs.root], n, Field(name)) || (n + 1 < FS_NODES_IN_ROOT && inodes == [] && before == [])
      requires forall i: nat :: IsBound(fs.flash[fs.root], n, Field(name), i) ==> IsFileOrNew(DiskOf(fs), i, inodes, before)
      requires packets != [] && packets[0] == T.WriteRequest && T.AllSent(file, packets)
      requires fs.PagesLeft() >= 6 * |packets| && fs.version + 2 * |packets| <= MAX_VERSION && FreeCount() >= |packets|
      modifies this`download, this`transfered, this`finished, this`inode
      modifies fs`flash, fs`history, fs`buf1, fs`root, fs`version, fs`lastFree, fs`pos
      ensures Uploading(name, n', before, file, inodes', content) && Agrees(T.Run(s, packets))
      ensures n' == if old(Names(fs.flash[fs.root], n, Field(name))) then n else n + 1
      ensures |replies| == |packets| && forall i :: 0 <= i < |packets| ==> replies[i] == T.Answer(s, packets[..i + 1]).1
      ensures T.Run(s, packets).transfered == T.Blocks(file) ==> content == file + (if |before| > |file| then before[|file|..] else [])
      ensures fs.PagesLeft() >= old(fs.PagesLeft()) - 6 * |packets| && fs.version <= old(fs.version) + 2 * |packets|
      ensures Follows(fs, d, Touched(inode as nat, inodes), base)
      ensures d.pages == old(DiskOf(fs).pages) && old(fs.history) <= base && |base| <= |old(fs.history)| + 1
      ensures d.used == fs.used && d.start == fs.start && Preserved(fs.used, fs.start, old(fs.pos), old(fs.flash), d.pos, d.flash)
    {
      hide IsFileOrNew, Fs.Ready, Field, IsTable, Entry, HasPages, Ahead, Names, IsBound, Preserved, DiskOf, Follows, Touched, AreOurs, FreeInodes, Received, T.Run, T.Answer, T.Step, T.Sends, Disk.GrowsTo, KeepsOthers, SafePoints;
      var reply;
      reply, n' := Begin(name, n, before, file, inodes);
      replies, inodes', content := [reply], inodes, before;
      d, base := DiskOf(fs), fs.history;
      DiskIs(fs);
      ghost var touched := Touched(inode as nat, inodes);
      UploadStands(name, n', before, file, inodes, before);
      RunOfFirst(s, packets);
      for i := 1 to |packets|
        invariant Uploading(name, n', before, file, inodes', content) && Agrees(T.Run(s, packets[..i]))
        invariant |replies| == i && forall k :: 0 <= k < i ==> replies[k] == T.Answer(s, packets[..k + 1]).1
        invariant fs.PagesLeft() >= old(fs.PagesLeft()) - 6 * i && fs.version <= old(fs.version) + 2 * i && FreeCount() >= old(FreeCount()) - i + 1
        invariant Follows(fs, d, touched, base) && AreOurs(d, touched, inodes') && touched == Touched(inode as nat, inodes)
      {
        ghost var d1, inodes1, touched1, history1 := DiskOf(fs), inodes', Touched(inode as nat, inodes'), fs.history;
        FollowedSoFar(fs, d, touched, base);
        RunOfNext(s, packets, i);
        reply, inodes', content := Handle(packets[i], name, n', before, file, inodes', content, T.Run(s, packets[..i]));
        replies := replies + [reply];
        TouchedAreOurs(d, d1.pages, touched, inode, inodes, inodes1);
        FollowsTransitively(fs, d, touched, base, d1, touched1, history1);
        OursTransitively(d, touched, d1, touched1, inodes');
      }
      assert packets[..|packets|] == packets;
      if T.Run(s, packets).transfered == T.Blocks(file) {
        AllReceived(before, file, content);
      }
    }

    /** The next block of a download. The place in the file is computed in sixteen bits, so
        after 128 blocks the file begins again. */
    method SendBlock(ghost inodes: seq<nat>, ghost content: seq<byte>) returns (reply: T.Reply)
      requires Mounted(fs.flash, fs.root) && inode < FS_INODES
      requires fs.Map()[inode] == NONE ==> content == []
      requires fs.Map()[inode] != NONE ==> IsFile(fs.flash, fs.Map(), inodes, content) && inodes[0] == inode
      modifies this`transfered, this`finished
      ensures reply == if old(finished) then T.Silence else T.SendData((old(transfered) + 1) % 0x1_0000, BlockOf(content, T.BlockAt(old(transfered))))
      ensures transfered == if old(finished) then old(transfered) else (old(transfered) + 1) % 0x1_0000
      ensures finished == (old(finished) || |BlockOf(content, T.BlockAt(old(transfered)))| < T.BLOCK)
    {
      hide IsFile, MapThrough, InodeMap, PageHeader;
      if finished {
        return T.Silence;
      }
      var offset := T.BlockAt(transfered);
      BlockBegins(transfered);
      var buf := new byte[T.BLOCK];
      var read := Read(fs, inode, buf, offset, T.BLOCK, inodes, content);
      if read < 0 {
        return T.SendError;
      }
      if read < T.BLOCK {
        finished := true;
      }
      var next := (transfered + 1) % 0x1_0000;
      reply := T.SendData(next, buf[..read]);
      transfered := next;
    }
  }

  /** After the last block: the size of the file is that of what was sent, and a read from any
      place and of any length counts exactly the bytes of the file that are there. */
  method ReadBack(receiver: Receiver, buf: array<byte>, offset: nat, length: nat, ghost before: seq<byte>, ghost file: seq<byte>,
                  ghost inodes: seq<nat>, ghost content: seq<byte>)
    returns (size: int, read: int)
    requires receiver.Receiving(before, file, inodes, content) && receiver.transfered == T.Blocks(file) && |before| <= |file|
    requires length > 0 && buf.Length >= length + offset % FS_DATASIZE
    modifies buf
    ensures size == |file| && read == Available(|file|, offset, length)
    ensures read > 0 ==> buf[..read] == file[offset..offset + read]
  {
    hide Received, MapThrough, IsFile, Holds;
    AllReceived(before, file, content);
    ReadyIsMounted(receiver.fs);
    size := Size(receiver.fs, receiver.inode, inodes, content);
    read := Read(receiver.fs, receiver.inode, buf, offset, length, inodes, content);
  }

  lemma NothingBound(p: Page, f: Name)
    ensures forall i: nat :: !IsBound(p, 0, f, i)
  {
  }

  /** All together: format, mount, receive a file through any network that lets its blocks get
      through at some time, and read it back under its name. There are pages for 679 packets. */
  method ReceiveAndReadBack(fs: Fs, name: CString, packets: seq<T.Packet>, buf: array<byte>, offset: nat, length: nat,
                            ghost file: seq<byte>, ghost s: T.State, ghost limit: nat)
    returns (inode: u16, size: int, read: int)
    requires 0 < limit && limit + 2 * |packets| <= MAX_VERSION && 6 * |packets| < DF_PAGES - FS_TABLES
    requires forall p: nat :: p < DF_PAGES && ValidRoot(fs.flash[p]) ==> PageVersion(fs.flash[p]) < limit
    requires |file| <= T.FLASH_SIZE && packets != [] && packets[0] == T.WriteRequest && T.AllSent(file, packets)
    requires T.Run(s, packets).transfered == T.Blocks(file)
    requires length > 0 && buf.Length >= length + offset % FS_DATASIZE
    modifies fs, buf
    ensures fs.Ready() && IsDirectory(fs.flash[fs.root], 1) && IsBound(fs.flash[fs.root], 1, Field(name), inode)
    ensures size == |file| && read == Available(|file|, offset, length)
    ensures read > 0 ==> buf[..read] == file[offset..offset + read]
  {
    hide ValidRoot, PageVersion, IsTable, IsSure, IsFileOrNew, DiskOf, Field, Entry, FreeInodes, Fs.Ready, MapThrough, InodeMap, Ahead, Follows, Touched, Received, Preserved, T.Run, T.Answer, T.AllSent;
    var found;
    ghost var buffer, n, inodes, content, d, base;
    found, buffer := FormatAndMount(fs, limit);
    ReadyIsMounted(fs);
    NothingIsNamed(fs.flash[fs.root], Field(name));
    NothingBound(fs.flash[fs.root], Field(name));
    var receiver := new Receiver(fs);
    var replies;
    replies, n, inodes, content, d, base := receiver.Upload(name, packets, 0, [], file, [], s);
    inode := receiver.inode;
    size, read := ReadBack(receiver, buf, offset, length, [], file, inodes, content);
  }

  lemma BlockBegins(t: u16)
    ensures T.BlockAt(t) % FS_DATASIZE == 0
  {
  }

  /** Up to one block of the content. */
  function BlockOf(content: seq<byte>, offset: nat): (b: seq<byte>)
    ensures |b| == Available(|content|, offset, T.BLOCK)
  {
    if offset < |content| then content[offset..offset + Available(|content|, offset, T.BLOCK)] else []
  }
}
