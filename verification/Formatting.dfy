/** Formatting the dataflash: an empty filesystem, from which every other operation can begin. */
module Formatting {
  import opened Integers
  import opened FlashLayout
  import opened Filesystem
  import opened Files
  import opened FileWriting
  import opened Directory

  /** The part of `fs_root_t` before the names. */
  function RootBytes(h: Header, version: u32, tables: seq<u16>): (b: seq<byte>)
    requires |tables| == FS_TABLES
    ensures |b| == FS_NODE_OFFSET
  {
    HeaderBytes(h) + Bytes32(version) + seq(2 * FS_TABLES, k requires 0 <= k < 2 * FS_TABLES => Bytes16(tables[k / 2])[k % 2])
  }

  lemma RootFields(p: Page, h: Header, version: u32, tables: seq<u16>)
    requires |tables| == FS_TABLES
    ensures var r := Put(p, 0, RootBytes(h, version, tables));
      && PageHeader(r) == h && PageVersion(r) == version
      && forall t: nat :: t < FS_TABLES ==> TablePage(r, t) == tables[t]
  {
    hide HeaderBytes, HeaderOf, Bytes32, Word32, Bytes16, Word16, RootBytes, Put;
    var b := RootBytes(h, version, tables);
    var r := Put(p, 0, b);
    HeaderRoundTrip(h);
    WordsRoundTrip(0, version);
    PutSlice(p, b, 0, 4);
    PutSlice(p, b, 4, 8);
    RootParts(h, version, tables);
    forall t: nat | t < FS_TABLES
      ensures TablePage(r, t) == tables[t]
    {
      WordsRoundTrip(tables[t], 0);
      PutSlice(p, b, FS_TABLE_OFFSET + 2 * t, FS_TABLE_OFFSET + 2 * t + 2);
      TablePart(h, version, tables, t);
    }
  }

  lemma PutSlice(p: Page, b: seq<byte>, from: nat, to: nat)
    requires from <= to <= |b| <= DF_PAGESIZE
    ensures Put(p, 0, b)[from..to] == b[from..to]
  {
  }

  lemma RootParts(h: Header, version: u32, tables: seq<u16>)
    requires |tables| == FS_TABLES
    ensures RootBytes(h, version, tables)[0..4] == HeaderBytes(h) && RootBytes(h, version, tables)[4..8] == Bytes32(version)
  {
    hide HeaderBytes, Bytes32, Bytes16;
  }

  lemma TablePart(h: Header, version: u32, tables: seq<u16>, t: nat)
    requires |tables| == FS_TABLES && t < FS_TABLES
    ensures RootBytes(h, version, tables)[FS_TABLE_OFFSET + 2 * t..FS_TABLE_OFFSET + 2 * t + 2] == Bytes16(tables[t])
  {
    hide HeaderBytes, Bytes32, Bytes16;
  }

  const FILL: nat := DF_PAGESIZE - FS_DATA_OFFSET - 4

  /** An inode table that was filled with 0xff, as far as the filling goes. */
  ghost predicate IsFilled(p: Page, before: Page, n: nat) {
    && n <= FILL
    && (forall i :: FS_DATA_OFFSET <= i < FS_DATA_OFFSET + n ==> p[i] == 0xff)
    && (forall i :: FS_DATA_OFFSET + n <= i < DF_PAGESIZE ==> p[i] == before[i])
  }

  /** The last inode of a table is left to what the buffer held before. */
  lemma FilledTable(p: Page, before: Page, j: nat)
    requires IsFilled(p, before, FILL) && j < FS_INODES_PER_TABLE
    ensures InodeNode(p, j).unused <==> j < FS_INODES_PER_TABLE - 1 || before[525] % 2 == 1
  {
  }

  /** Write the page header of the inode tables into the buffer, and fill it. */
  method FillTable(fs: Fs)
    modifies fs`buf1
    ensures IsFilled(fs.buf1, old(fs.buf1), FILL) && !PageHeader(fs.buf1).root
  {
    hide HeaderBytes, HeaderOf;
    // what the original leaves as it found it in fresh memory
    var reserved: bool, size: u16 := *, *;
    var h := Header(false, false, true, reserved, 0xfff, size);
    HeaderRoundTrip(h);
    fs.buf1 := Put(fs.buf1, 0, HeaderBytes(h));
    for i := 0 to FILL
      invariant IsFilled(fs.buf1, old(fs.buf1), i) && fs.buf1[0..4] == HeaderBytes(h)
    {
      PutElsewhere(fs.buf1, FS_DATA_OFFSET + i, [0xff], 0, 4);
      fs.buf1 := Put(fs.buf1, FS_DATA_OFFSET + i, [0xff]);
    }
  }

  /** Write unused entries over all names of the buffered root page. */
  method ClearNames(fs: Fs)
    modifies fs`buf1
    ensures SameFrame(fs.buf1, old(fs.buf1)) && PageVersion(fs.buf1) == PageVersion(old(fs.buf1))
    ensures IsDirectory(fs.buf1, 0)
  {
    hide NodeBytes, NodeOf, HeaderOf, Entry, TablePage, PageHeader;
    assert [0, 0, 0, 0, 0, 0][0] == 0;
    var name: Name :| name[0] == 0;
    var node := Node(true, false, 0, 0, name);
    for i := 0 to FS_NODES_IN_ROOT
      invariant SameFrame(fs.buf1, old(fs.buf1)) && PageVersion(fs.buf1) == PageVersion(old(fs.buf1))
      invariant forall k: nat :: k < i ==> Entry(fs.buf1, k) == node
    {
      PutEntry(fs.buf1, i, node);
      PutElsewhere(fs.buf1, FS_NODE_OFFSET + 8 * i, NodeBytes(node), 4, 4);
      fs.buf1 := Put(fs.buf1, FS_NODE_OFFSET + 8 * i, NodeBytes(node));
    }
  }

  /** The new root page, with its checksum. */
  lemma SealedRoot(p: Page)
    requires !PageHeader(p).unused && PageHeader(p).root && IsDirectory(p, 0)
    ensures var r := Put(p, FS_CRC_OFFSET, [CrcByteOf(p)]);
      && ValidRoot(r) && SameFrame(r, p) && PageVersion(r) == PageVersion(p) && IsDirectory(r, 0)
  {
    hide HeaderOf, NodeOf, Word16, Word32, CrcRun;
    var crc := [CrcByteOf(p)];
    var r := Put(p, FS_CRC_OFFSET, crc);
    PutElsewhere(p, FS_CRC_OFFSET, crc, 0, 4);
    PutElsewhere(p, FS_CRC_OFFSET, crc, 4, 4);
    forall t: nat | t < FS_TABLES
      ensures TablePage(r, t) == TablePage(p, t)
    {
      PutElsewhere(p, FS_CRC_OFFSET, crc, FS_TABLE_OFFSET + 2 * t, 2);
    }
    forall i: nat | i < FS_NODES_IN_ROOT
      ensures Entry(r, i) == Entry(p, i)
    {
      PutElsewhere(p, FS_CRC_OFFSET, crc, FS_NODE_OFFSET + 8 * i, 8);
    }
    assert r[..FS_CRC_OFFSET] == p[..FS_CRC_OFFSET];
  }

  /** A scan has seen every valid root page of the flash. */
  ghost predicate Scanned(flash: Flash, version: u32) {
    forall p: nat :: p < DF_PAGES && ValidRoot(flash[p]) ==> PageVersion(flash[p]) <= version
  }

  /** An inode of which formatting makes sure. */
  predicate IsSure(inode: nat, buffer: Page) {
    inode % FS_INODES_PER_TABLE != FS_INODES_PER_TABLE - 1 || buffer[525] % 2 == 1
  }

  /** No page of `flash'` is a root page but for those of `flash`. */
  ghost predicate NoNewRoot(flash: Flash, flash': Flash) {
    forall p: nat :: p < DF_PAGES && ValidRoot(flash'[p]) ==> flash'[p] == flash[p]
  }

  lemma TableIsNoNewRoot(flash: Flash, flash': Flash, table: Page)
    requires !PageHeader(table).root
    requires forall p: nat :: p < DF_PAGES ==> flash'[p] == flash[p] || flash'[p] == table
    ensures NoNewRoot(flash, flash')
  {
    TableIsNoRoot(table);
  }

  /** `fs_format`, after a scan: the new root page is the newest, it has no names, and every
      inode points nowhere, but for the last one of each table, which is left to chance.
      Until its last page save there is no new root page. */
  method Format(fs: Fs)
    requires Scanned(fs.flash, fs.version) && fs.version < MAX_VERSION
    modifies fs`flash, fs`history, fs`buf1, fs`root, fs`version
    ensures fs.root == 0 && fs.version == old(fs.version) + 1 && Settled(fs.flash, 0) && PageVersion(fs.flash[0]) == fs.version
    ensures IsDirectory(fs.flash[0], 0)
    ensures forall t: nat :: t < FS_TABLES ==> TablePage(fs.flash[0], t) == t + 1
    ensures forall inode: nat :: inode < FS_INODES ==> (fs.Map()[inode] == NONE <==> IsSure(inode, old(fs.buf1)))
    ensures |fs.history| == |old(fs.history)| + FS_TABLES + 1 && fs.history[|fs.history| - 1] == fs.flash
    ensures forall k :: |old(fs.history)| <= k < |fs.history| - 1 ==> NoNewRoot(old(fs.flash), fs.history[k])
  {
    hide NoNewRoot, HeaderBytes, HeaderOf, PageHeader, NodeOf, IsDirectory, ValidRoot, CrcRun, Word32, Word16, InodeNode, IsFilled;
    fs.version := fs.version + 1;
    // what the original leaves as it found it in fresh memory
    var reserved: bool, next: u12, size: u16 := *, *, *;
    var h := Header(false, true, true, reserved, next, size);
    var tables: seq<u16> := seq(FS_TABLES, _ => 0);
    FillTable(fs);
    ghost var table := fs.buf1;
    for i := 0 to FS_TABLES
      invariant fs.buf1 == table && fs.version == old(fs.version) + 1 && |tables| == FS_TABLES
      invariant forall t: nat :: t < i ==> tables[t] == t + 1
      invariant |fs.history| == |old(fs.history)| + i
      invariant forall k :: |old(fs.history)| <= k < |fs.history| ==> NoNewRoot(old(fs.flash), fs.history[k])
      invariant forall p: nat :: p < DF_PAGES ==> fs.flash[p] == if 1 <= p <= i then table else old(fs.flash[p])
    {
      tables := tables[i := i + 1];
      fs.BufSave(i + 1);
      TableIsNoNewRoot(old(fs.flash), fs.flash, table);
    }
    RootFields(fs.buf1, h, fs.version, tables);
    fs.buf1 := Put(fs.buf1, 0, RootBytes(h, fs.version, tables));
    ClearNames(fs);
    SealedRoot(fs.buf1);
    fs.buf1 := Put(fs.buf1, FS_CRC_OFFSET, [CrcByteOf(fs.buf1)]);
    fs.BufSave(0);
    fs.root := 0;
    EmptyTables(old(fs.flash), old(fs.version), fs.flash, table, old(fs.buf1));
  }

  /** Sixteen filled tables and a root page that names them. */
  lemma EmptyTables(flash: Flash, version: u32, flash': Flash, table: Page, buffer: Page)
    requires Scanned(flash, version) && version < MAX_VERSION
    requires IsFilled(table, buffer, FILL) && !PageHeader(table).root
    requires ValidRoot(flash'[0]) && PageVersion(flash'[0]) == version + 1
    requires forall t: nat :: t < FS_TABLES ==> TablePage(flash'[0], t) == t + 1
    requires forall p: nat :: 1 <= p < DF_PAGES ==> flash'[p] == if p <= FS_TABLES then table else flash[p]
    ensures Settled(flash', 0)
    ensures forall inode: nat :: inode < FS_INODES ==> (InodeMap(flash', 0)[inode] == NONE <==> IsSure(inode, buffer))
  {
    hide PageHeader, CrcRun, CrcByteOf, TablePage, InodeNode, IsFilled, PageVersion;
    TableIsNoRoot(table);
    forall inode: nat | inode < FS_INODES
      ensures InodeMap(flash', 0)[inode] == NONE <==> IsSure(inode, buffer)
    {
      SplitInode(inode, inode);
      FilledTable(table, buffer, inode % FS_INODES_PER_TABLE);
    }
  }

  lemma TableIsNoRoot(p: Page)
    requires !PageHeader(p).root
    ensures !ValidRoot(p)
  {
  }

  // ---------- mounting it ----------

  predicate IsFrom(a: nat, p: nat) {
    a <= p
  }

  lemma {:induction false} CountInterval(a: nat, b: nat)
    requires a <= b
    ensures |set p: nat | p < b && IsFrom(a, p)| == b - a
    decreases b
  {
    if a < b {
      CountInterval(a, b - 1);
      assert (set p: nat | p < b && IsFrom(a, p)) == (set p: nat | p < b - 1 && IsFrom(a, p)) + {b - 1};
    } else {
      assert (set p: nat | p < b && IsFrom(a, p)) == {};
    }
  }

  /** With the first seventeen pages used, all others are ahead. */
  lemma PagesAfterFormat(used: set<nat>)
    requires forall p: nat :: p in used <==> p <= FS_TABLES
    ensures |Ahead(used, 0, 0)| == DF_PAGES - 1 - FS_TABLES
  {
    var first := FS_TABLES + 1;
    CountInterval(first, DF_PAGES);
    assert FreePages(used) == set p: nat | p < DF_PAGES && IsFrom(first, p);
    AllAhead(used);
  }

  predicate IsLastOfTable(inode: nat) {
    inode % FS_INODES_PER_TABLE == FS_INODES_PER_TABLE - 1
  }

  lemma {:induction false} CountLast(n: nat)
    ensures |set i: nat | i < FS_INODES_PER_TABLE * n && IsLastOfTable(i)| == n
  {
    if n > 0 {
      CountLast(n - 1);
      assert (set i: nat | i < FS_INODES_PER_TABLE * n && IsLastOfTable(i))
        == (set i: nat | i < FS_INODES_PER_TABLE * (n - 1) && IsLastOfTable(i)) + {FS_INODES_PER_TABLE * n - 1};
    }
  }

  /** Formatting makes sure of all inodes but one in each table. */
  lemma InodesAfterFormat(m: seq<u16>, buffer: Page)
    requires |m| == FS_INODES && forall inode: nat :: inode < FS_INODES ==> (m[inode] == NONE <==> IsSure(inode, buffer))
    ensures |FreeInodes(m)| >= FS_INODES - FS_TABLES
  {
    var all := set p: nat | p < FS_INODES && IsFrom(0, p);
    var last := set i: nat | i < FS_INODES_PER_TABLE * FS_TABLES && IsLastOfTable(i);
    CountInterval(0, FS_INODES);
    CountLast(FS_TABLES);
    SubsetSize(all - last, FreeInodes(m));
    assert last <= all;
    assert all == (all - last) + last;
  }

  lemma {:induction false} NothingNamed(flash: Flash, root: nat, n: nat, page: nat)
    requires Mounted(flash, root) && IsDirectory(flash[root], 0) && n <= FS_NODES_IN_ROOT
    ensures !NamedBelow(flash, root, n, page)
    decreases n
  {
    hide NodeOf, PageThrough, Mounted;
    if n > 0 {
      NothingNamed(flash, root, n - 1, page);
    }
  }

  /** `fs_init`: scan for the root page, create one if there is none, and mark what must not
      be overwritten: the live metadata, and the first page of every file. `buffer` is what
      buffer 1 holds after the scan. */
  method Init(fs: Fs) returns (found: bool, ghost buffer: Page)
    requires forall r :: Newest(fs.flash, r) ==> Mounted(fs.flash, r)
    modifies fs
    ensures fs.Ready() && fs.start == 0 && fs.pos == 0 && fs.version == PageVersion(fs.flash[fs.root])
    ensures found <==> old(exists r :: Newest(fs.flash, r))
    ensures found ==> fs.flash == old(fs.flash) && fs.history == old(fs.history)
    ensures found ==> forall m, names :: old(Recovers(fs.flash, m, names)) ==> fs.Map() == m && SameEntries(fs.flash[fs.root], names)
    ensures !found ==> fs.root == 0 && fs.version == 1 && IsDirectory(fs.flash[0], 0)
    ensures !found ==> forall inode: nat :: inode < FS_INODES ==> (fs.Map()[inode] == NONE <==> IsSure(inode, buffer))
    ensures !found ==> |fs.history| > |old(fs.history)| && fs.history[|fs.history| - 1] == fs.flash
    ensures !found ==> forall k :: |old(fs.history)| <= k < |fs.history| - 1 ==> forall r :: !Newest(fs.history[k], r)
    ensures forall page :: page in fs.used <==> Meta(fs.flash, fs.root, page) || fs.FirstPage(page)
    ensures fs.PagesLeft() == |if |FreePages(fs.used)| >= 2 then FreePages(fs.used) else FreePages(fs.used) - {0}|
  {
    hide ValidRoot, PageVersion, PageHeader, TablePage, IsDirectory, IsSure, MapThrough, PageThrough, NodeOf, NoNewRoot, Ahead, FreePages, SameEntries;
    fs.ClearBitmap();
    found := fs.Scan();
    buffer := fs.buf1;
    if !found {
      Format(fs);
      forall k | |old(fs.history)| <= k < |fs.history| - 1
        ensures forall r :: !Newest(fs.history[k], r)
      {
        NoneIsNewest(old(fs.flash), fs.history[k]);
      }
    } else {
      RecoversNewest(fs.flash, fs.root);
    }
    fs.MarkLive();
    AllAhead(fs.used);
    assert forall page: nat :: Meta(fs.flash, fs.root, page) ==> page in fs.used && page < DF_PAGES;
  }

  lemma RecoversNewest(flash: Flash, root: nat)
    requires Settled(flash, root)
    ensures forall m, names :: Recovers(flash, m, names) ==> InodeMap(flash, root) == m && SameEntries(flash[root], names)
  {
    hide ValidRoot, PageVersion, SameEntries;
    forall m, names | Recovers(flash, m, names)
      ensures InodeMap(flash, root) == m && SameEntries(flash[root], names)
    {
      var r: nat :| Settled(flash, r) && InodeMap(flash, r) == m && SameEntries(flash[r], names);
      NewestIsUnique(flash, r, root);
    }
  }

  /** While a flash without a root page is formatted, a scan finds none. */
  lemma NoneIsNewest(flash: Flash, flash': Flash)
    requires forall p: nat :: p < DF_PAGES && ValidRoot(flash[p]) ==> PageVersion(flash[p]) == 0
    requires NoNewRoot(flash, flash')
    ensures forall r :: !Newest(flash', r)
  {
    hide ValidRoot, PageVersion;
  }

  /** Format by command and mount again, after the scan at power-up: an empty directory, free
      inodes, and all other pages ahead of the allocator. `buffer` is what buffer 1 held
      before. */
  method FormatAndMount(fs: Fs, ghost limit: nat) returns (found: bool, ghost buffer: Page)
    requires 0 < limit <= MAX_VERSION
    requires forall p: nat :: p < DF_PAGES && ValidRoot(fs.flash[p]) ==> PageVersion(fs.flash[p]) < limit
    modifies fs
    ensures found && fs.Ready() && fs.root == 0 && fs.version <= limit && IsDirectory(fs.flash[0], 0)
    ensures forall inode: nat :: inode < FS_INODES ==> (fs.Map()[inode] == NONE <==> IsSure(inode, buffer))
    ensures forall page: nat :: page in fs.used <==> page <= FS_TABLES
    ensures fs.PagesLeft() == DF_PAGES - 1 - FS_TABLES && |FreeInodes(fs.Map())| >= FS_INODES - FS_TABLES
    ensures forall inode: nat :: inode < FS_INODES && IsSure(inode, buffer) ==> IsFileOrNew(DiskOf(fs), inode, [], [])
  {
    hide ValidRoot, PageVersion, PageHeader, TablePage, IsDirectory, IsSure, MapThrough, PageThrough, NodeOf, NoNewRoot, Ahead, FreePages, SameEntries, FreeInodes;
    var scanned := fs.Scan();
    buffer := fs.buf1;
    Format(fs);
    forall r | Newest(fs.flash, r)
      ensures Mounted(fs.flash, r)
    {
      NewestIsUnique(fs.flash, r, 0);
    }
    ghost var unused;
    found, unused := Init(fs);
    NewestIsUnique(fs.flash, fs.root, 0);
    forall page: nat
      ensures page in fs.used <==> page <= FS_TABLES
    {
      NothingNamed(fs.flash, 0, FS_NODES_IN_ROOT, page);
      MetaIs(fs.flash, page);
    }
    PagesAfterFormat(fs.used);
    InodesAfterFormat(fs.Map(), buffer);
  }

  lemma MetaIs(flash: Flash, page: nat)
    requires forall t: nat :: t < FS_TABLES ==> TablePage(flash[0], t) == t + 1
    ensures Meta(flash, 0, page) <==> page <= FS_TABLES
  {
    if 1 <= page <= FS_TABLES {
      assert TablePage(flash[0], page - 1) == page;
    }
  }

  /** Format, mount, and create a file: its name is the only one, and its inode is free. */
  method FirstName(fs: Fs, name: CString, ghost limit: nat) returns (inode: u16)
    requires 0 < limit < MAX_VERSION
    requires forall p: nat :: p < DF_PAGES && ValidRoot(fs.flash[p]) ==> PageVersion(fs.flash[p]) < limit
    modifies fs
    ensures fs.Ready() && fs.version <= limit + 1 && fs.PagesLeft() == DF_PAGES - 2 - FS_TABLES
    ensures IsDirectory(fs.flash[fs.root], 1) && Bindings(fs.flash[fs.root], 1) == [(Field(name), inode as int)]
    ensures inode < FS_INODES && IsFileOrNew(DiskOf(fs), inode, [], [])
  {
    hide ValidRoot, PageVersion, IsTable, IsSure, IsFile, IsFileOrNew, DiskOf, Names, Field, Entry, FreeInodes, Fs.Ready, Less, MapThrough, InodeMap, Preserved, MetaReused, IsGiven, Ahead;
    var found;
    ghost var buffer, at, given;
    found, buffer := FormatAndMount(fs, limit);
    FirstIsSure(buffer);
    ghost var none := Bindings(fs.flash[fs.root], 0);
    NothingIsNamed(fs.flash[fs.root], Field(name));
    var status;
    status, at, given := Create(fs, name, 0);
    ReadyIsMounted(fs);
    InsertedIsBound(fs.flash[fs.root], 0, none, at, Field(name), given);
    inode := GetInode(fs, name, 1);
    NewFile(fs, inode);
  }

  /** The operations fit together: format, mount, create a file, write up to a block, and
      find it under its name with its content and size. */
  method FirstFile(fs: Fs, name: CString, data: seq<byte>, ghost limit: nat) returns (status: Status, inode: u16, size: int, ghost inodes: seq<nat>)
    requires |data| <= FS_DATASIZE && 0 < limit < MAX_VERSION - 2
    requires forall p: nat :: p < DF_PAGES && ValidRoot(fs.flash[p]) ==> PageVersion(fs.flash[p]) < limit
    modifies fs
    ensures status == FS_OK && size == |data| && fs.Ready()
    ensures IsDirectory(fs.flash[fs.root], 1) && Bindings(fs.flash[fs.root], 1) == [(Field(name), inode as int)]
    ensures IsFile(fs.flash, fs.Map(), inodes, data) && inodes[0] == inode as nat
  {
    hide ValidRoot, PageVersion, IsTable, IsFile, IsFileOrNew, DiskOf, Field, Bindings, Stored, Overwrite, FreeInodes, Written, Follows, Fs.Ready, StartInPage, MapThrough, InodeMap, Splits, HasPages, Ahead, AreOurs;
    inode := FirstName(fs, name, limit);
    ReadyIsMounted(fs);
    OneBlockNeverSplits(|data|);
    ghost var d, base, names := DiskOf(fs), fs.history, fs.flash[fs.root];
    DirectoryOf(fs);
    status, inodes := Write(fs, inode, data, 0, |data|, [], []);
    AppendedBlock([], data);
    assert [] + data == data;
    WrittenIsFile(fs, d, Touched(inode as nat, []), base, inode, inodes, data);
    FileOf(fs, inode, inodes, data);
    ReadyIsMounted(fs);
    FollowsSameNames(fs, d, Touched(inode as nat, []), base);
    SameEntriesSameDirectory(fs.flash[fs.root], names, 1);
    size := Size(fs, inode, inodes, data);
  }

  lemma NothingIsNamed(p: Page, f: Name)
    ensures !Names(p, 0, f)
  {
  }

  lemma FirstIsSure(buffer: Page)
    ensures IsSure(0, buffer)
  {
  }

  lemma OneBlockNeverSplits(length: nat)
    requires length <= FS_DATASIZE
    ensures Splits(StartInPage(0), length) == 0
  {
  }

  /** An inode that was given to a name when some inode was free has no content yet. */
  lemma NewFile(fs: Fs, inode: nat)
    requires Mounted(fs.flash, fs.root) && inode < FS_INODES && FreeInodes(fs.Map()) != {} && IsGiven(fs.Map(), inode)
    ensures IsFileOrNew(DiskOf(fs), inode, [], [])
  {
    hide MapThrough, InodeMap;
    var free :| free in FreeInodes(fs.Map());
    assert fs.Map()[free] == NONE;
  }
}
