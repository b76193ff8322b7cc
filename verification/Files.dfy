/** Reading and writing files: chains of 512-byte pages, each found through its inode. */
module Files {
  import opened Integers
  import opened FlashLayout
  import opened Filesystem

  // ---------- what a file is ----------

  predicate Distinct(s: seq<nat>) {
    forall i, j :: 0 <= i < j < |s| ==> s[i] != s[j]
  }

  ghost predicate Mapped(m: seq<u16>, inode: nat) {
    |m| == FS_INODES && inode < FS_INODES && m[inode] < DF_PAGES
  }

  function Block(content: seq<byte>, k: nat): (b: seq<byte>)
    requires FS_DATASIZE * k <= |content|
  {
    content[FS_DATASIZE * k..if FS_DATASIZE * (k + 1) <= |content| then FS_DATASIZE * (k + 1) else |content|]
  }

  /** The page holds `data`; unless it is the last of its file it is full and names the
      inode of the next page. */
  ghost predicate Holds(p: Page, data: seq<byte>, last: bool, next: nat) {
    && PageHeader(p).eof == last && PageHeader(p).size == |data| <= FS_DATASIZE
    && PageData(p)[..|data|] == data
    && (!last ==> |data| == FS_DATASIZE && PageHeader(p).nextInode == next)
  }

  function NextOf(inodes: seq<nat>, k: nat): nat {
    if k + 1 < |inodes| then inodes[k + 1] else 0
  }

  /** The pages of a file with `content` are found through `inodes`, in this order and
      without a cycle; all but the last hold 512 bytes. */
  ghost predicate IsFile(flash: Flash, m: seq<u16>, inodes: seq<nat>, content: seq<byte>) {
    && |inodes| > 0 && Distinct(inodes) && Spans(|inodes|, |content|)
    && forall k :: 0 <= k < |inodes| ==>
      && Mapped(m, inodes[k])
      && Holds(flash[m[inodes[k]]], Block(content, k), k == |inodes| - 1, NextOf(inodes, k))
  }

  /** `n` blocks hold `size` bytes with none to spare. */
  predicate Spans(n: nat, size: nat) {
    FS_DATASIZE * (n - 1) <= size <= FS_DATASIZE * n && (n > 1 ==> FS_DATASIZE * (n - 1) < size)
  }

  // ---------- size and reading ----------

  /** `fs_size` */
  method Size(fs: Fs, inode: nat, ghost inodes: seq<nat>, ghost content: seq<byte>) returns (size: int)
    requires Mounted(fs.flash, fs.root) && inode < FS_INODES
    requires fs.Map()[inode] != NONE ==> IsFile(fs.flash, fs.Map(), inodes, content) && inodes[0] == inode
    ensures size == if fs.Map()[inode] == NONE then 0 else |content|
  {
    size := 0;
    var i := inode;
    ghost var k := 0;
    while true
      invariant i < FS_INODES && (fs.Map()[inode] == NONE ==> i == inode)
      invariant fs.Map()[inode] != NONE ==> k < |inodes| && i == inodes[k] && size == FS_DATASIZE * k
      decreases |inodes| - k
    {
      var pagenum := PageThrough(fs.flash, fs.flash[fs.root], i);
      assert pagenum == fs.Map()[i];
      if pagenum == NONE {
        return 0;
      }
      assert Holds(fs.flash[pagenum], Block(content, k), k == |inodes| - 1, NextOf(inodes, k));
      var page := PageHeader(fs.flash[pagenum]);
      size := size + page.size;
      if page.eof {
        return;
      }
      i := page.nextInode;
      k := k + 1;
    }
  }

  /** `df_flash_read`: a page read runs round inside the page. */
  function FlashRead(p: Page, offset: nat, length: nat): (b: seq<byte>)
    ensures |b| == length
    ensures forall i :: 0 <= i < length && offset + i < DF_PAGESIZE ==> b[i] == p[offset + i]
  {
    seq(length, i requires 0 <= i < length => p[(offset + i) % DF_PAGESIZE])
  }

  method Store(buf: array<byte>, at: nat, bytes: seq<byte>)
    requires at + |bytes| <= buf.Length
    modifies buf
    ensures forall i :: 0 <= i < buf.Length ==> buf[i] == if at <= i < at + |bytes| then bytes[i - at] else old(buf[i])
  {
    forall i | 0 <= i < |bytes| {
      buf[at + i] := bytes[i];
    }
  }

  /** How many bytes of a file of `size` bytes a read of `length` from `offset` meets. */
  function Available(size: nat, offset: nat, length: nat): (n: nat)
    ensures offset <= size ==> offset + n <= size
  {
    if offset >= size then 0 else if offset + length <= size then length else size - offset
  }

  /** Read `length` bytes from the data of a page into the buffer; the first `n` of them
      are bytes of the file. */
  method ReadPage(p: Page, buf: array<byte>, at: nat, o: nat, length: nat,
                  ghost n: nat, ghost content: seq<byte>, ghost k: nat, ghost last: bool, ghost next: nat, ghost offset: nat)
    requires FS_DATASIZE * k <= |content| && Holds(p, Block(content, k), last, next)
    requires o + n <= |Block(content, k)| && n <= length && at + length <= buf.Length
    requires FS_DATASIZE * k + o == offset + at
    modifies buf
    ensures forall i :: 0 <= i < at ==> buf[i] == old(buf[i])
    ensures forall i :: at <= i < at + n ==> buf[i] == content[offset + i]
  {
    var bytes := FlashRead(p, FS_DATA_OFFSET + o, length);
    Store(buf, at, bytes);
    forall i | at <= i < at + n
      ensures buf[i] == content[offset + i]
    {
      var j := i - at;
      assert bytes[j] == p[FS_DATA_OFFSET + o + j] == PageData(p)[o + j];
      assert PageData(p)[o + j] == PageData(p)[..|Block(content, k)|][o + j] == Block(content, k)[o + j];
    }
  }

  lemma OffsetInBlock(offset: nat, k: nat, rest: nat)
    requires offset == FS_DATASIZE * k + rest && rest < FS_DATASIZE
    ensures rest == offset % FS_DATASIZE
  {
  }

  /** What `IsFile` says about block `k`. */
  lemma PageOfFile(flash: Flash, m: seq<u16>, inodes: seq<nat>, content: seq<byte>, k: nat)
    requires IsFile(flash, m, inodes, content) && k < |inodes|
    ensures Mapped(m, inodes[k]) && Spans(|inodes|, |content|) && FS_DATASIZE * k <= |content|
    ensures Holds(flash[m[inodes[k]]], Block(content, k), k == |inodes| - 1, NextOf(inodes, k))
    ensures k < |inodes| - 1 ==> PageHeader(flash[m[inodes[k]]]).nextInode == inodes[k + 1] && |Block(content, k)| == FS_DATASIZE
    ensures k == |inodes| - 1 ==> FS_DATASIZE * k + |Block(content, k)| == |content|
  {
  }

  /** The seek of `fs_read`: the page that holds the offset, or NONE past the end. */
  method SeekToRead(fs: Fs, inode: nat, offset: nat, ghost inodes: seq<nat>, ghost content: seq<byte>)
    returns (pagenum: nat, rest: nat, ghost k: nat)
    requires Mounted(fs.flash, fs.root) && inode < FS_INODES
    requires IsFile(fs.flash, fs.Map(), inodes, content) && inodes[0] == inode
    ensures pagenum == NONE ==> offset >= |content|
    ensures pagenum != NONE ==> k < |inodes| && inodes[k] < FS_INODES && pagenum == fs.Map()[inodes[k]]
    ensures pagenum != NONE ==> rest < FS_DATASIZE && offset == FS_DATASIZE * k + rest && rest == offset % FS_DATASIZE
  {
    PageOfFile(fs.flash, fs.Map(), inodes, content, 0);
    hide PageHeader, PageData, TablesInRange, ValidRoot, Block, IsFile;
    pagenum, rest, k := PageThrough(fs.flash, fs.flash[fs.root], inode), offset, 0;
    while rest >= FS_DATASIZE
      invariant k < |inodes| && inodes[k] < FS_INODES && pagenum == fs.Map()[inodes[k]] && offset == FS_DATASIZE * k + rest
    {
      PageOfFile(fs.flash, fs.Map(), inodes, content, k);
      var page := PageHeader(fs.flash[pagenum]);
      if page.eof {
        pagenum := NONE;
        return;
      }
      PageOfFile(fs.flash, fs.Map(), inodes, content, k + 1);
      pagenum := PageThrough(fs.flash, fs.flash[fs.root], page.nextInode);
      k := k + 1;
      rest := rest - FS_DATASIZE;
    }
    OffsetInBlock(offset, k, rest);
  }

  /** `fs_read`: the bytes it counts as read are exactly those of the file. The last page
      read may run past them by the offset into the first page, hence the room asked of
      the buffer. */
  method Read(fs: Fs, inode: nat, buf: array<byte>, offset: nat, length: nat, ghost inodes: seq<nat>, ghost content: seq<byte>)
    returns (read: int)
    requires Mounted(fs.flash, fs.root) && inode < FS_INODES && length > 0
    requires fs.Map()[inode] != NONE ==> IsFile(fs.flash, fs.Map(), inodes, content) && inodes[0] == inode
    requires buf.Length >= length + offset % FS_DATASIZE
    modifies buf
    ensures fs.Map()[inode] == NONE ==> read == 0
    ensures fs.Map()[inode] != NONE ==> read == Available(|content|, offset, length)
    ensures read > 0 ==> buf[..read] == content[offset..offset + read]
  {
    hide PageHeader, PageData, TablesInRange, ValidRoot, Newest, IsFile, Block, PageThrough, MapThrough;
    read := 0;
    var pagenum := PageThrough(fs.flash, fs.flash[fs.root], inode);
    if pagenum == NONE {
      return;
    }
    ghost var k: nat;
    var o: nat;
    pagenum, o, k := SeekToRead(fs, inode, offset, inodes, content);
    if pagenum == NONE {
      return;
    }
    PageOfFile(fs.flash, fs.Map(), inodes, content, k);
    if o >= PageHeader(fs.flash[pagenum]).size {
      return;
    }
    var left := length;
    while true
      invariant k < |inodes| && inodes[k] < FS_INODES && pagenum == fs.Map()[inodes[k]] && 0 <= read && read + left == length && 0 < left
      invariant FS_DATASIZE * k + o == offset + read < |content| && o < |Block(content, k)|
      invariant o == 0 || (read == 0 && o == offset % FS_DATASIZE)
      invariant forall i :: 0 <= i < read ==> buf[i] == content[offset + i]
      decreases |inodes| - k
    {
      PageOfFile(fs.flash, fs.Map(), inodes, content, k);
      var page := PageHeader(fs.flash[pagenum]);
      if left + o <= page.size {
        ReadPage(fs.flash[pagenum], buf, read, o, left + o, left, content, k, k == |inodes| - 1, NextOf(inodes, k), offset);
        read := read + left;
        return;
      } else if page.eof {
        left := page.size - o;
        ReadPage(fs.flash[pagenum], buf, read, o, left, left, content, k, k == |inodes| - 1, NextOf(inodes, k), offset);
        read := read + left;
        return;
      } else {
        ReadPage(fs.flash[pagenum], buf, read, o, FS_DATASIZE - o, FS_DATASIZE - o, content, k, k == |inodes| - 1, NextOf(inodes, k), offset);
      }
      PageOfFile(fs.flash, fs.Map(), inodes, content, k + 1);
      pagenum := PageThrough(fs.flash, fs.flash[fs.root], page.nextInode);
      if pagenum == NONE {
        return -1;
      }
      var readBytes := page.size - o;
      read := read + readBytes;
      left := left - readBytes;
      o := 0;
      k := k + 1;
    }
  }
}
