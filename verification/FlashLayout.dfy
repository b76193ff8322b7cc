/** The byte layout of the dataflash pages: page header, root page, inode table page
    and directory entries, all little endian with the bit fields packed from bit 0. */
module FlashLayout {
  import opened Integers

  const DF_PAGES: nat := 4096
  const DF_PAGESIZE: nat := 528
  const FS_DATA_OFFSET: nat := 15
  const FS_DATASIZE: nat := 512
  const FS_CRC_OFFSET: nat := 527
  const FS_TABLES: nat := 16
  const FS_TABLE_OFFSET: nat := 8
  const FS_INODES_PER_TABLE: nat := 256
  const FS_INODES: nat := 4096
  const FS_NODE_OFFSET: nat := 40
  const FS_NODES_IN_ROOT: nat := 60
  const FS_FILENAME: nat := 6
  /** `0xffff`: no page, or no inode. */
  const NONE: nat := 0xffff
  const MAX_VERSION: nat := 0xffff_ffff

  type u2 = n: int | 0 <= n < 4
  type u3 = n: int | 0 <= n < 8
  type u12 = n: int | 0 <= n < 0x1000
  type Page = p: seq<byte> | |p| == DF_PAGESIZE witness seq(DF_PAGESIZE, _ => 0)

  // ---------- reading and writing stretches of a page ----------

  /** `s` with `bytes` written over it at `offset`. */
  function Splice(s: seq<byte>, offset: nat, bytes: seq<byte>): (r: seq<byte>)
    requires offset + |bytes| <= |s|
    ensures |r| == |s|
    ensures forall i :: 0 <= i < |s| ==> r[i] == if offset <= i < offset + |bytes| then bytes[i - offset] else s[i]
  {
    s[..offset] + bytes + s[offset + |bytes|..]
  }

  /** `df_buf_write`: put `bytes` at `offset`. */
  function Put(p: Page, offset: nat, bytes: seq<byte>): (r: Page)
    requires offset + |bytes| <= DF_PAGESIZE
    ensures r[offset..offset + |bytes|] == bytes
    ensures forall i :: 0 <= i < DF_PAGESIZE && !(offset <= i < offset + |bytes|) ==> r[i] == p[i]
  {
    Splice(p, offset, bytes)
  }

  /** A stretch that does not meet the written one reads as before. */
  lemma PutElsewhere(p: Page, offset: nat, bytes: seq<byte>, at: nat, len: nat)
    requires offset + |bytes| <= DF_PAGESIZE && at + len <= DF_PAGESIZE
    requires at + len <= offset || offset + |bytes| <= at
    ensures Put(p, offset, bytes)[at..at + len] == p[at..at + len]
  {
  }

  // ---------- integers ----------

  function Bytes16(n: u16): (b: seq<byte>)
    ensures |b| == 2
  {
    [n % 0x100, n / 0x100]
  }

  function Word16(b: seq<byte>): u16
    requires |b| == 2
  {
    b[0] as int + 0x100 * (b[1] as int)
  }

  function Bytes32(n: u32): (b: seq<byte>)
    ensures |b| == 4
  {
    Bytes16(n % 0x1_0000) + Bytes16(n / 0x1_0000)
  }

  function Word32(b: seq<byte>): u32
    requires |b| == 4
  {
    Word16(b[..2]) + 0x1_0000 * Word16(b[2..])
  }

  lemma WordsRoundTrip(n: u16, m: u32)
    ensures Word16(Bytes16(n)) == n
    ensures Word32(Bytes32(m)) == m
  {
  }

  function Flag(b: bool): (n: int)
    ensures n == 0 || n == 1
  {
    if b then 1 else 0
  }

  // ---------- the structures ----------

  /** `fs_page_t`, at the beginning of every page. */
  datatype Header = Header(unused: bool, root: bool, eof: bool, reserved: bool, nextInode: u12, size: u16)

  function HeaderBytes(h: Header): (b: seq<byte>)
    ensures |b| == 4
  {
    [Flag(h.unused) + 2 * Flag(h.root) + 4 * Flag(h.eof) + 8 * Flag(h.reserved) + 16 * (h.nextInode % 16), h.nextInode / 16]
    + Bytes16(h.size)
  }

  function HeaderOf(b: seq<byte>): Header
    requires |b| == 4
  {
    Header(b[0] % 2 == 1, b[0] / 2 % 2 == 1, b[0] / 4 % 2 == 1, b[0] / 8 % 2 == 1, b[0] as int / 16 + 16 * (b[1] as int), Word16(b[2..4]))
  }

  /** Four flags and the low four bits of a 12-bit number share a byte. */
  lemma PackedBits(a: bool, b: bool, c: bool, d: bool, n: u12)
    ensures var x := Flag(a) + 2 * Flag(b) + 4 * Flag(c) + 8 * Flag(d) + 16 * (n % 16);
      && (x % 2 == 1) == a && (x / 2 % 2 == 1) == b && (x / 4 % 2 == 1) == c && (x / 8 % 2 == 1) == d
      && x / 16 + 16 * (n / 16) == n
  {
    var x := Flag(a) + 2 * Flag(b) + 4 * Flag(c) + 8 * Flag(d) + 16 * (n % 16);
    assert x / 2 == Flag(b) + 2 * Flag(c) + 4 * Flag(d) + 8 * (n % 16);
    assert x / 4 == Flag(c) + 2 * Flag(d) + 4 * (n % 16);
    assert x / 8 == Flag(d) + 2 * (n % 16);
    assert x / 16 == n % 16;
  }

  lemma HeaderRoundTrip(h: Header)
    ensures HeaderOf(HeaderBytes(h)) == h
  {
    assert HeaderBytes(h)[2..4] == Bytes16(h.size);
    WordsRoundTrip(h.size, 0);
    PackedBits(h.unused, h.root, h.eof, h.reserved, h.nextInode);
  }

  /** On the flash the header is a little endian number: the flags are its lowest four bits, the
      inode its next twelve, and the size its upper half. */
  lemma HeaderLayout(h: Header)
    ensures Word32(HeaderBytes(h)) ==
      Flag(h.unused) + 2 * Flag(h.root) + 4 * Flag(h.eof) + 8 * Flag(h.reserved) + 0x10 * h.nextInode + 0x1_0000 * h.size
  {
    assert HeaderBytes(h)[2..] == Bytes16(h.size);
  }

  /** `fs_inodetable_node_t`, an entry of an inode table page. */
  datatype TableNode = TableNode(unused: bool, reserved: u3, page: u12)

  function TableNodeBytes(n: TableNode): (b: seq<byte>)
    ensures |b| == 2
  {
    [Flag(n.unused) + 2 * n.reserved + 16 * (n.page % 16), n.page / 16]
  }

  function TableNodeOf(b: seq<byte>): TableNode
    requires |b| == 2
  {
    TableNode(b[0] % 2 == 1, b[0] / 2 % 8, b[0] as int / 16 + 16 * (b[1] as int))
  }

  lemma TableNodeRoundTrip(n: TableNode)
    ensures TableNodeOf(TableNodeBytes(n)) == n
  {
    var x := Flag(n.unused) + 2 * n.reserved as int + 16 * (n.page % 16);
    assert x / 2 == n.reserved as int + 8 * (n.page % 16) && x / 16 == n.page % 16;
  }

  /** Its flag is the lowest bit, and its page the upper twelve. */
  lemma TableNodeLayout(n: TableNode)
    ensures Word16(TableNodeBytes(n)) == Flag(n.unused) + 2 * n.reserved + 0x10 * n.page
  {
  }

  type Name = n: seq<byte> | |n| == FS_FILENAME witness [0, 0, 0, 0, 0, 0]

  /** `fs_node_t`, a directory entry of the root page. */
  datatype Node = Node(unused: bool, file: bool, reserved: u2, inode: u12, name: Name)

  function NodeBytes(n: Node): (b: seq<byte>)
    ensures |b| == 8
  {
    [Flag(n.unused) + 2 * Flag(n.file) + 4 * n.reserved + 16 * (n.inode % 16), n.inode / 16] + n.name
  }

  function NodeOf(b: seq<byte>): (n: Node)
    requires |b| == 8
  {
    Node(b[0] % 2 == 1, b[0] / 2 % 2 == 1, b[0] / 4 % 4, b[0] as int / 16 + 16 * (b[1] as int), b[2..])
  }

  lemma NodeRoundTrip(n: Node)
    ensures NodeOf(NodeBytes(n)) == n
  {
    var x := Flag(n.unused) + 2 * Flag(n.file) + 4 * n.reserved as int + 16 * (n.inode % 16);
    assert x / 2 == Flag(n.file) + 2 * n.reserved as int + 8 * (n.inode % 16);
    assert x / 4 == n.reserved as int + 4 * (n.inode % 16) && x / 16 == n.inode % 16;
    assert NodeBytes(n)[2..] == n.name;
  }

  /** Two flags in the lowest bits, the inode in the upper twelve, and the name behind them. */
  lemma NodeLayout(n: Node)
    ensures Word16(NodeBytes(n)[..2]) == Flag(n.unused) + 2 * Flag(n.file) + 4 * n.reserved + 0x10 * n.inode
    ensures NodeBytes(n)[2..] == n.name
  {
  }

  // ---------- views of a page ----------

  function PageHeader(p: Page): Header {
    HeaderOf(p[0..4])
  }

  function PageVersion(p: Page): u32 {
    Word32(p[4..8])
  }

  function TablePage(p: Page, table: nat): u16
    requires table < FS_TABLES
  {
    Word16(p[FS_TABLE_OFFSET + 2 * table..FS_TABLE_OFFSET + 2 * table + 2])
  }

  function InodeNode(p: Page, j: nat): TableNode
    requires j < FS_INODES_PER_TABLE
  {
    TableNodeOf(p[FS_DATA_OFFSET + 2 * j..FS_DATA_OFFSET + 2 * j + 2])
  }

  function Entry(p: Page, i: nat): (n: Node)
    requires i < FS_NODES_IN_ROOT
  {
    NodeOf(p[FS_NODE_OFFSET + 8 * i..FS_NODE_OFFSET + 8 * i + 8])
  }

  function PageData(p: Page): (d: seq<byte>)
    ensures |d| == FS_DATASIZE
  {
    p[FS_DATA_OFFSET..FS_DATA_OFFSET + FS_DATASIZE]
  }

  // ---------- checksum ----------

  const BYTE_BITS: seq<nat> := [0, 1, 2, 3, 4, 5, 6, 7]

  /** The loops of `fs_crc` and `_crc_ibutton_update` in one: for every byte fold it in,
      then for every bit shift right, and fold in 0x8C when a one falls out. */
  function CrcRun(crc: bv8, bits: seq<nat>, bytes: seq<byte>): bv8
    decreases |bytes|, |bits|
  {
    if bits != [] then CrcRun(if crc & 1 != 0 then (crc >> 1) ^ 0x8C else crc >> 1, bits[1..], bytes)
    else if bytes == [] then crc
    else CrcRun(crc ^ (bytes[0] as bv8), BYTE_BITS, bytes[1..])
  }

  function CrcByteOf(p: Page): byte {
    CrcRun(0, [], p[..FS_CRC_OFFSET]) as int
  }

  /** What `fs_scan` takes for a root page. */
  predicate ValidRoot(p: Page) {
    !PageHeader(p).unused && PageHeader(p).root && p[FS_CRC_OFFSET] == CrcByteOf(p)
  }

  ghost predicate SameEntries(p: Page, q: Page) {
    forall i: nat :: i < FS_NODES_IN_ROOT ==> Entry(p, i) == Entry(q, i)
  }

  ghost predicate SameTables(p: Page, q: Page) {
    forall t: nat :: t < FS_TABLES ==> TablePage(p, t) == TablePage(q, t)
  }

  /** The page that `fs_increment` programs: the buffered root page under a new version,
      with its checksum. */
  function Sealed(p: Page, version: u32): Page {
    var q := Put(p, 4, Bytes32(version));
    Put(q, FS_CRC_OFFSET, [CrcByteOf(q)])
  }

  /** What sealing does and does not change. */
  ghost predicate IsSealed(sealed: Page, p: Page, version: u32) {
    && PageHeader(sealed) == PageHeader(p) && PageVersion(sealed) == version
    && SameTables(sealed, p) && SameEntries(sealed, p)
    && (ValidRoot(sealed) <==> !PageHeader(p).unused && PageHeader(p).root)
  }

  lemma SealedPage(p: Page, version: u32)
    ensures IsSealed(Sealed(p, version), p, version)
  {
    var q := Put(p, 4, Bytes32(version));
    var crc := [CrcByteOf(q)];
    var r := Sealed(p, version);
    WordsRoundTrip(0, version);
    PutElsewhere(p, 4, Bytes32(version), 0, 4);
    PutElsewhere(q, FS_CRC_OFFSET, crc, 0, 4);
    PutElsewhere(q, FS_CRC_OFFSET, crc, 4, 4);
    forall t: nat | t < FS_TABLES
      ensures TablePage(r, t) == TablePage(p, t)
    {
      PutElsewhere(p, 4, Bytes32(version), FS_TABLE_OFFSET + 2 * t, 2);
      PutElsewhere(q, FS_CRC_OFFSET, crc, FS_TABLE_OFFSET + 2 * t, 2);
    }
    forall i: nat | i < FS_NODES_IN_ROOT
      ensures Entry(r, i) == Entry(p, i)
    {
      PutElsewhere(p, 4, Bytes32(version), FS_NODE_OFFSET + 8 * i, 8);
      PutElsewhere(q, FS_CRC_OFFSET, crc, FS_NODE_OFFSET + 8 * i, 8);
    }
    assert r[..FS_CRC_OFFSET] == q[..FS_CRC_OFFSET];
  }

  /** `r` is the inode table page `p` with the entry at `j` replaced. */
  ghost predicate TableNodeReplaced(r: Page, p: Page, j: nat, n: TableNode) {
    && PageHeader(r) == PageHeader(p)
    && forall k: nat :: k < FS_INODES_PER_TABLE ==> InodeNode(r, k) == if k == j then n else InodeNode(p, k)
  }

  lemma PutTableNode(p: Page, j: nat, n: TableNode)
    requires j < FS_INODES_PER_TABLE
    ensures TableNodeReplaced(Put(p, FS_DATA_OFFSET + 2 * j, TableNodeBytes(n)), p, j, n)
  {
    var r := Put(p, FS_DATA_OFFSET + 2 * j, TableNodeBytes(n));
    PutElsewhere(p, FS_DATA_OFFSET + 2 * j, TableNodeBytes(n), 0, 4);
    TableNodeRoundTrip(n);
    forall k: nat | k < FS_INODES_PER_TABLE
      ensures InodeNode(r, k) == if k == j then n else InodeNode(p, k)
    {
      if k != j {
        PutElsewhere(p, FS_DATA_OFFSET + 2 * j, TableNodeBytes(n), FS_DATA_OFFSET + 2 * k, 2);
      }
    }
  }

  /** `r` is the root page `p` with the address of one inode table replaced. */
  ghost predicate TablePageReplaced(r: Page, p: Page, table: nat, page: u16) {
    && PageHeader(r) == PageHeader(p) && SameEntries(r, p)
    && forall t: nat :: t < FS_TABLES ==> TablePage(r, t) == if t == table then page else TablePage(p, t)
  }

  lemma PutTablePage(p: Page, table: nat, page: u16)
    requires table < FS_TABLES
    ensures TablePageReplaced(Put(p, FS_TABLE_OFFSET + 2 * table, Bytes16(page)), p, table, page)
  {
    var r := Put(p, FS_TABLE_OFFSET + 2 * table, Bytes16(page));
    PutElsewhere(p, FS_TABLE_OFFSET + 2 * table, Bytes16(page), 0, 4);
    WordsRoundTrip(page, 0);
    forall t: nat | t < FS_TABLES
      ensures TablePage(r, t) == if t == table then page else TablePage(p, t)
    {
      if t != table {
        PutElsewhere(p, FS_TABLE_OFFSET + 2 * table, Bytes16(page), FS_TABLE_OFFSET + 2 * t, 2);
      }
    }
    forall i: nat | i < FS_NODES_IN_ROOT
      ensures Entry(r, i) == Entry(p, i)
    {
      PutElsewhere(p, FS_TABLE_OFFSET + 2 * table, Bytes16(page), FS_NODE_OFFSET + 8 * i, 8);
    }
  }

  /** Changing one directory entry of a root page. */
  lemma PutEntry(p: Page, i: nat, n: Node)
    requires i < FS_NODES_IN_ROOT
    ensures var r := Put(p, FS_NODE_OFFSET + 8 * i, NodeBytes(n));
      && PageHeader(r) == PageHeader(p)
      && SameTables(r, p)
      && (forall k: nat :: k < FS_NODES_IN_ROOT ==> Entry(r, k) == if k == i then n else Entry(p, k))
  {
    var r := Put(p, FS_NODE_OFFSET + 8 * i, NodeBytes(n));
    PutElsewhere(p, FS_NODE_OFFSET + 8 * i, NodeBytes(n), 0, 4);
    NodeRoundTrip(n);
    forall t: nat | t < FS_TABLES
      ensures TablePage(r, t) == TablePage(p, t)
    {
      PutElsewhere(p, FS_NODE_OFFSET + 8 * i, NodeBytes(n), FS_TABLE_OFFSET + 2 * t, 2);
    }
    forall k: nat | k < FS_NODES_IN_ROOT
      ensures Entry(r, k) == if k == i then n else Entry(p, k)
    {
      if k != i {
        PutElsewhere(p, FS_NODE_OFFSET + 8 * i, NodeBytes(n), FS_NODE_OFFSET + 8 * k, 8);
      }
    }
  }

  /** Changing the header and a stretch of the data of a page. */
  lemma PutData(p: Page, h: Header, offset: nat, data: seq<byte>)
    requires offset + |data| <= FS_DATASIZE
    ensures var r := Put(Put(p, 0, HeaderBytes(h)), FS_DATA_OFFSET + offset, data);
      && PageHeader(r) == h
      && PageData(r) == Splice(PageData(p), offset, data)
  {
    var q := Put(p, 0, HeaderBytes(h));
    HeaderRoundTrip(h);
    PutElsewhere(q, FS_DATA_OFFSET + offset, data, 0, 4);
    PutElsewhere(p, 0, HeaderBytes(h), FS_DATA_OFFSET, FS_DATASIZE);
  }
}
