/** The file names in the root page: a strictly sorted table, ended by unused entries. */
module Directory {
  import opened Integers
  import opened FlashLayout
  import opened Filesystem

  // ---------- names ----------

  type CString = s: seq<byte> | 0 !in s witness []

  function CharAt(s: seq<byte>, i: nat): byte {
    if i < |s| then s[i] else 0
  }

  /** `strncmp` over the name field, from position `i` on. */
  function StrNCmp(a: seq<byte>, b: seq<byte>, i: nat): int
    decreases FS_FILENAME - i
  {
    if i >= FS_FILENAME then 0
    else if CharAt(a, i) != CharAt(b, i) then CharAt(a, i) as int - CharAt(b, i) as int
    else if CharAt(a, i) == 0 then 0
    else StrNCmp(a, b, i + 1)
  }

  /** `strncpy` into the name field: cut off, or padded with zeros. */
  function Field(name: CString): (f: Name) {
    seq(FS_FILENAME, i requires 0 <= i => CharAt(name, i))
  }

  /** Nothing but zeros follows a zero. */
  predicate Padded(f: Name) {
    forall i, j :: 0 <= i < j < FS_FILENAME && f[i] == 0 ==> f[j] == 0
  }

  predicate Less(a: Name, b: Name) {
    StrNCmp(a, b, 0) < 0
  }

  lemma {:induction false} StrNCmpField(f: seq<byte>, name: CString, i: nat)
    ensures StrNCmp(f, name, i) == StrNCmp(f, Field(name), i)
    decreases FS_FILENAME - i
  {
    if i < FS_FILENAME {
      StrNCmpField(f, name, i + 1);
    }
  }

  lemma FieldIsPadded(name: CString)
    ensures Padded(Field(name))
  {
  }

  lemma {:induction false} StrNCmpEqual(a: Name, b: Name, i: nat)
    requires Padded(a) && Padded(b) && i <= FS_FILENAME
    ensures StrNCmp(a, b, i) == 0 <==> a[i..] == b[i..]
    ensures StrNCmp(a, b, i) == -StrNCmp(b, a, i)
    decreases FS_FILENAME - i
  {
    if i < FS_FILENAME {
      StrNCmpEqual(a, b, i + 1);
      assert a[i..] == [a[i]] + a[i + 1..] && b[i..] == [b[i]] + b[i + 1..];
      if a[i] == b[i] == 0 {
        assert a[i..] == b[i..];
      }
    }
  }

  lemma {:induction false} StrNCmpTransitive(a: Name, b: Name, c: Name, i: nat)
    requires StrNCmp(a, b, i) < 0 && StrNCmp(b, c, i) < 0
    ensures StrNCmp(a, c, i) < 0
    decreases FS_FILENAME - i
  {
    if a[i] == b[i] == c[i] {
      StrNCmpTransitive(a, b, c, i + 1);
    }
  }

  /** The order of names is a strict total order. */
  lemma LessIsTotal(a: Name, b: Name)
    requires Padded(a) && Padded(b)
    ensures Less(a, b) || Less(b, a) || a == b
    ensures !(Less(a, b) && Less(b, a)) && (a == b ==> !Less(a, b))
  {
    StrNCmpEqual(a, b, 0);
    assert a == a[0..] && b == b[0..];
  }

  /** `a` has the smaller byte where the two first differ. */
  ghost predicate FirstDifference(a: Name, b: Name, i: nat) {
    i < FS_FILENAME && a[..i] == b[..i] && a[i] < b[i]
  }

  lemma {:induction false} StrNCmpMeans(a: Name, b: Name, i: nat)
    requires Padded(a) && Padded(b) && i <= FS_FILENAME && a[..i] == b[..i]
    ensures StrNCmp(a, b, i) < 0 <==> exists j :: i <= j && FirstDifference(a, b, j)
    decreases FS_FILENAME - i
  {
    if i < FS_FILENAME {
      if a[i] == b[i] {
        assert a[..i + 1] == a[..i] + [a[i]] && b[..i + 1] == b[..i] + [b[i]];
        StrNCmpMeans(a, b, i + 1);
        if a[i] == 0 {
          assert a[i..] == b[i..] by {
            StrNCmpEqual(a, b, i);
          }
          forall j: nat | i <= j < FS_FILENAME
            ensures !FirstDifference(a, b, j)
          {
            assert a[j] == a[i..][j - i] == b[i..][j - i] == b[j];
          }
        }
        assert !FirstDifference(a, b, i);
      } else {
        forall j: nat | i < j < FS_FILENAME
          ensures !FirstDifference(a, b, j)
        {
          assert a[..j][i] == a[i] && b[..j][i] == b[i];
        }
        if a[i] < b[i] {
          assert FirstDifference(a, b, i);
        }
      }
    }
  }

  /** A name comes before another if and only if it has the smaller byte at their first
      difference. */
  lemma LessMeans(a: Name, b: Name)
    requires Padded(a) && Padded(b)
    ensures Less(a, b) <==> exists i :: FirstDifference(a, b, i)
  {
    hide StrNCmp;
    StrNCmpMeans(a, b, 0);
  }

  // ---------- the table ----------

  /** The first `n` entries are live, in strictly rising order; all others are unused. */
  ghost predicate IsTable(p: Page, n: nat) {
    && n <= FS_NODES_IN_ROOT
    && (forall i: nat :: i < FS_NODES_IN_ROOT ==> (Entry(p, i).unused <==> n <= i))
    && (forall i: nat :: i < n ==> Padded(Entry(p, i).name))
    && (forall i: nat, j: nat :: i < j < n ==> Less(Entry(p, i).name, Entry(p, j).name))
  }

  /** A table that has an unused entry to end it. */
  ghost predicate IsDirectory(p: Page, n: nat) {
    n < FS_NODES_IN_ROOT && IsTable(p, n)
  }

  /** The names with their inodes, in table order. */
  function Bindings(p: Page, n: nat): (b: seq<(Name, u12)>)
    requires n <= FS_NODES_IN_ROOT
    ensures |b| == n && forall i: nat :: i < n ==> b[i] == (Entry(p, i).name, Entry(p, i).inode)
  {
    seq(n, i requires 0 <= i < n => (Entry(p, i).name, Entry(p, i).inode))
  }

  ghost predicate Names(p: Page, n: nat, f: Name)
    requires n <= FS_NODES_IN_ROOT
  {
    exists i: nat :: i < n && Entry(p, i).name == f
  }

  ghost predicate IsBound(p: Page, n: nat, f: Name, inode: nat)
    requires n <= FS_NODES_IN_ROOT
  {
    exists i: nat :: i < n && Entry(p, i).name == f && Entry(p, i).inode == inode
  }

  /** The binding that an insertion made is there. */
  lemma InsertedIsBound(p: Page, n: nat, before: seq<(Name, u12)>, at: nat, f: Name, inode: u12)
    requires n < FS_NODES_IN_ROOT && at <= n == |before|
    requires Bindings(p, n + 1) == before[..at] + [(f, inode)] + before[at..]
    ensures Names(p, n + 1, f) && Entry(p, at).name == f && Entry(p, at).inode == inode
  {
  }

  /** `strncmp` against a stored name tells the order of the fields. */
  lemma CompareStored(f: Name, name: CString)
    requires Padded(f)
    ensures StrNCmp(f, name, 0) == 0 <==> f == Field(name)
    ensures StrNCmp(f, name, 0) < 0 <==> Less(f, Field(name))
  {
  }

  /** `fs_get_inode`: every live name is found. A name that is not live gives NONE exactly
      when the entry behind the last live one does not still carry it. */
  method GetInode(fs: Fs, file: CString, ghost n: nat) returns (inode: u16)
    requires fs.root < DF_PAGES && IsDirectory(fs.flash[fs.root], n)
    ensures forall i: nat :: i < n && Entry(fs.flash[fs.root], i).name == Field(file) ==> inode == Entry(fs.flash[fs.root], i).inode
    ensures Names(fs.flash[fs.root], n, Field(file)) ==> IsBound(fs.flash[fs.root], n, Field(file), inode)
    ensures !Names(fs.flash[fs.root], n, Field(file)) ==>
      (inode == NONE <==> StrNCmp(Entry(fs.flash[fs.root], n).name, file, 0) != 0)
  {
    hide Less, StrNCmp, Field, NodeOf;
    var p := fs.flash[fs.root];
    var index := 0;
    while true
      invariant index <= n
      invariant forall i: nat :: i < index ==> Entry(p, i).name != Field(file)
      decreases n - index
    {
      var node := Entry(p, index);
      if index < n {
        CompareStored(node.name, file);
      }
      if StrNCmp(node.name, file, 0) == 0 {
        assert forall i: nat :: index < i < n ==> Less(node.name, Entry(p, i).name);
        forall i: nat | index < i < n
          ensures Entry(p, i).name != Field(file)
        {
          LessIsTotal(node.name, Entry(p, i).name);
        }
        return node.inode;
      }
      if node.unused {
        return NONE;
      }
      index := index + 1;
    }
  }

  // ---------- adding and removing a name ----------

  /** The first `at` of `i` entries come before `f`, the others after it. */
  ghost predicate Parted(p: Page, i: nat, at: nat, f: Name) {
    && at <= i <= FS_NODES_IN_ROOT
    && (forall k: nat :: k < at ==> Less(Entry(p, k).name, f))
    && (forall k: nat :: at <= k < i ==> Less(f, Entry(p, k).name))
  }

  /** In a sorted table a smaller name follows only smaller ones. */
  lemma PartedStep(p: Page, n: nat, i: nat, at: nat, name: CString)
    requires IsDirectory(p, n) && Parted(p, i, at, Field(name)) && i < n
    requires Entry(p, i).name != Field(name)
    ensures Parted(p, i + 1, if Less(Entry(p, i).name, Field(name)) then at + 1 else at, Field(name))
  {
    hide Less, StrNCmp, Field, NodeOf;
    var f := Field(name);
    FieldIsPadded(name);
    LessIsTotal(Entry(p, i).name, f);
    if Less(Entry(p, i).name, f) && at < i {
      LessIsTotal(Entry(p, at).name, f);
      LessIsTransitive(Entry(p, at).name, Entry(p, i).name, f);
    }
  }

  lemma LessIsTransitive(a: Name, b: Name, c: Name)
    requires Less(a, b) && Less(b, c)
    ensures Less(a, c)
  {
    StrNCmpTransitive(a, b, c, 0);
  }

  /** The header and the inode tables of a root page are those of another. */
  ghost predicate SameFrame(r: Page, p: Page) {
    PageHeader(r) == PageHeader(p) && SameTables(r, p)
  }

  /** `node` is put in at `at`, and the entries up to `m` that were there move up. */
  ghost predicate Inserted(r: Page, p: Page, at: nat, m: nat, node: Node) {
    && SameFrame(r, p) && at <= m < FS_NODES_IN_ROOT
    && (forall k: nat :: k < at || m < k < FS_NODES_IN_ROOT ==> Entry(r, k) == Entry(p, k))
    && Entry(r, at) == node
    && (forall k: nat :: at < k <= m ==> Entry(r, k) == Entry(p, k - 1))
  }

  /** The entries from `at` up to `m` are overwritten by those that follow them. */
  ghost predicate Closed(r: Page, p: Page, at: nat, m: nat) {
    && SameFrame(r, p) && at <= m < FS_NODES_IN_ROOT
    && (forall k: nat :: k < at || m <= k < FS_NODES_IN_ROOT ==> Entry(r, k) == Entry(p, k))
    && (forall k: nat :: at <= k < m ==> Entry(r, k) == Entry(p, k + 1))
  }

  lemma SameEntriesSameDirectory(r: Page, p: Page, n: nat)
    requires SameEntries(r, p) && IsTable(p, n)
    ensures IsTable(r, n) && Bindings(r, n) == Bindings(p, n)
  {
  }

  lemma SameEntriesSameBinding(r: Page, p: Page, n: nat, f: Name, inode: nat)
    requires SameEntries(r, p) && n <= FS_NODES_IN_ROOT
    ensures IsBound(r, n, f, inode) <==> IsBound(p, n, f, inode)
    ensures Names(r, n, f) <==> Names(p, n, f)
  {
  }

  lemma InsertedAtFirst(p: Page, at: nat, node: Node)
    requires at < FS_NODES_IN_ROOT
    ensures Inserted(Put(p, FS_NODE_OFFSET + 8 * at, NodeBytes(node)), p, at, at, node)
    ensures SameFrame(Put(p, FS_NODE_OFFSET + 8 * at, NodeBytes(node)), p)
  {
    hide Entry, TablePage, PageHeader, NodeBytes, Put;
    PutEntry(p, at, node);
  }

  lemma InsertedStep(r: Page, p: Page, at: nat, m: nat, node: Node)
    requires Inserted(r, p, at, m, node) && m + 1 < FS_NODES_IN_ROOT
    ensures Inserted(Put(r, FS_NODE_OFFSET + 8 * (m + 1), NodeBytes(Entry(p, m))), p, at, m + 1, node)
    ensures SameFrame(Put(r, FS_NODE_OFFSET + 8 * (m + 1), NodeBytes(Entry(p, m))), p)
  {
    hide Entry, TablePage, PageHeader, NodeBytes, Put;
    PutEntry(r, m + 1, Entry(p, m));
  }

  /** What a root page says with an entry inserted in its place. */
  lemma InsertedIsDirectory(r: Page, p: Page, at: nat, n: nat, node: Node, name: CString)
    requires IsDirectory(p, n) && Inserted(r, p, at, n, node)
    requires Parted(p, n, at, Field(name)) && node.name == Field(name) && !node.unused
    ensures IsTable(r, n + 1)
    ensures Bindings(r, n + 1) == Bindings(p, n)[..at] + [(Field(name), node.inode)] + Bindings(p, n)[at..]
  {
    hide Less, NodeOf, StrNCmp, PageHeader, TablePage, Field;
    FieldIsPadded(name);
    forall i: nat, j: nat | i < j < n + 1
      ensures Less(Entry(r, i).name, Entry(r, j).name)
    {
      assert i < at ==> Entry(r, i) == Entry(p, i);
      assert i > at ==> Entry(r, i) == Entry(p, i - 1);
      assert j < at ==> Entry(r, j) == Entry(p, j);
      assert j > at ==> Entry(r, j) == Entry(p, j - 1);
    }
  }

  /** What a root page says with the entry at `at` taken out. */
  lemma RemovedIsDirectory(r: Page, q: Page, p: Page, at: nat, n: nat, node: Node)
    requires IsDirectory(p, n) && at < n && Closed(q, p, at, n - 1) && Inserted(r, q, n - 1, n - 1, node) && node.unused
    ensures SameFrame(r, p) && IsDirectory(r, n - 1)
    ensures Bindings(r, n - 1) == Bindings(p, n)[..at] + Bindings(p, n)[at + 1..]
  {
    hide Less, NodeOf, StrNCmp, PageHeader, TablePage;
    forall i: nat, j: nat | i < j < n - 1
      ensures Less(Entry(r, i).name, Entry(r, j).name)
    {
      assert Entry(r, i) == Entry(q, i) && Entry(r, j) == Entry(q, j);
    }
  }

  /** `fs_increment` may seal a root page with other entries. */
  lemma SameFrameIsSealable(flash: Flash, root: nat, version: u32, used: set<nat>, start: nat, pos: nat, content: Page)
    requires Live(flash, root, version, used, start, pos) && SameFrame(content, flash[root])
    ensures Sealable(flash, used, start, pos, content)
    ensures MapThrough(flash, content) == InodeMap(flash, root)
    ensures forall l: nat :: TableOf(content, l) ==> Meta(flash, root, l)
  {
  }

  /** Look through the table: the place of a new name in the order. */
  method FindPlace(fs: Fs, name: CString, ghost n: nat) returns (duplicate: bool, index: nat, max: nat)
    requires fs.root < DF_PAGES && IsDirectory(fs.flash[fs.root], n)
    ensures duplicate <==> Names(fs.flash[fs.root], n, Field(name))
    ensures !duplicate ==> index <= max == n && Parted(fs.flash[fs.root], n, index, Field(name))
  {
    hide Less, StrNCmp, Field, NodeOf;
    var p := fs.flash[fs.root];
    index := 0;
    max := 0;
    while true
      invariant max <= n && Parted(p, max, index, Field(name))
      invariant forall k: nat :: k < max ==> Entry(p, k).name != Field(name)
      decreases n - max
    {
      var node := Entry(p, max);
      if node.unused {
        return false, index, max;
      }
      CompareStored(node.name, name);
      if StrNCmp(node.name, name, 0) == 0 {
        return true, index, max;
      }
      PartedStep(p, n, max, index, name);
      if StrNCmp(node.name, name, 0) < 0 {
        index := index + 1;
      }
      max := max + 1;
    }
  }

  /** Put an entry into the copy of the root page in buffer 1, and move up those after it. */
  method InsertEntry(fs: Fs, at: nat, max: nat, entry: Node)
    requires fs.root < DF_PAGES && at <= max < FS_NODES_IN_ROOT
    modifies fs`buf1
    ensures Inserted(fs.buf1, fs.flash[fs.root], at, max, entry) && SameFrame(fs.buf1, fs.flash[fs.root])
  {
    hide Inserted, Entry, SameFrame, NodeBytes, Put;
    var p := fs.flash[fs.root];
    fs.buf1 := p;
    InsertedAtFirst(p, at, entry);
    fs.buf1 := Put(fs.buf1, FS_NODE_OFFSET + 8 * at, NodeBytes(entry));
    var index := at;
    while index < max
      invariant at <= index <= max && Inserted(fs.buf1, p, at, index, entry) && SameFrame(fs.buf1, p)
    {
      var node := Entry(p, index);
      InsertedStep(fs.buf1, p, at, index, entry);
      fs.buf1 := Put(fs.buf1, FS_NODE_OFFSET + 8 * (index + 1), NodeBytes(node));
      index := index + 1;
    }
  }

  /** The inode a new entry gets: the first that points nowhere, or the last of all when
      every inode is taken. */
  ghost predicate IsGiven(m: seq<u16>, inode: u12)
    requires |m| == FS_INODES
  {
    if exists k: nat :: k < FS_INODES && m[k] == NONE then m[inode] == NONE && forall k: nat :: k < inode ==> m[k] != NONE
    else inode == FS_INODES - 1
  }

  /** The inode field is twelve bits wide, so the test for 0xffff after storing it there
      never finds that there is no free inode. */
  method GiveInode(fs: Fs) returns (inode: u12)
    requires Mounted(fs.flash, fs.root)
    ensures IsGiven(fs.Map(), inode)
  {
    hide PageHeader, InodeNode, InodeMap, MapThrough;
    var found := fs.NewInode();
    inode := found % 0x1000;
  }

  /** `fs_create`: a new name goes to its place in the order, bound to the first inode that
      points nowhere; the other bindings and the inode map stay. It takes one page and one
      version, and one page save commits it. */
  method Create(fs: Fs, name: CString, ghost n: nat) returns (status: Status, ghost at: nat, ghost inode: u12)
    requires fs.Ready() && IsDirectory(fs.flash[fs.root], n)
    requires fs.HasRoom(1) && fs.version < MAX_VERSION
    modifies fs`flash, fs`history, fs`buf1, fs`root, fs`version, fs`lastFree, fs`pos
    ensures fs.Ready() && fs.Map() == old(fs.Map())
    ensures status == if old(Names(fs.flash[fs.root], n, Field(name))) then FS_DUPLICATE
                      else if old(fs.PagesLeft()) >= 1 then FS_OK else FS_BADPAGE
    ensures status == FS_DUPLICATE ==> fs.pos == old(fs.pos) && fs.version == old(fs.version)
    ensures status != FS_DUPLICATE ==> Takes(fs.used, fs.start, old(fs.pos), fs.pos, 1, status == FS_OK) && fs.version == old(fs.version) + 1
    ensures status != FS_OK ==> fs.flash == old(fs.flash) && fs.root == old(fs.root) && fs.history == old(fs.history)
    ensures status == FS_OK ==>
      && fs.history == old(fs.history) + [fs.flash]
      && IsTable(fs.flash[fs.root], n + 1) && at <= n
      && Bindings(fs.flash[fs.root], n + 1) ==
         old(Bindings(fs.flash[fs.root], n))[..at] + [(Field(name), inode)] + old(Bindings(fs.flash[fs.root], n))[at..]
    ensures status == FS_OK ==> IsGiven(fs.Map(), inode)
    ensures Preserved(fs.used, fs.start, old(fs.pos), old(fs.flash), fs.pos, fs.flash)
    ensures MetaReused(fs.used, fs.start, old(fs.pos), old(fs.flash), old(fs.root), fs.flash, fs.root)
  {
    hide Newest, Meta, TableOf, Protected, MapThrough, InodeMap, Sealable, SameTables, ValidRoot, PageHeader, NextFree, Allocated, Less, Field, Entry, NodeOf, Inserted, Parted, StrNCmp, IsTable, Bindings, SameEntries, Names, FreePositions, IsGiven, Ahead, Exhausted, Recovers, SameProtected;
    ghost var p := fs.flash[fs.root];
    PreservesItself(fs.used, fs.start, fs.pos, fs.flash);
    var duplicate, index, max := FindPlace(fs, name, n);
    at := index;
    inode := 0;
    if duplicate {
      return FS_DUPLICATE, at, inode;
    }
    var node := Entry(fs.flash[fs.root], max);
    var given := GiveInode(fs);
    node := node.(name := Field(name), unused := false, file := true, inode := given);
    inode := given;
    InsertEntry(fs, index, max, node);
    InsertedIsDirectory(fs.buf1, p, at, n, node, name);
    SameFrameIsSealable(fs.flash, fs.root, fs.version, fs.used, fs.start, fs.pos, fs.buf1);
    ghost var content := fs.buf1;
    status := fs.Increment();
    if status == FS_OK {
      SameEntriesSameDirectory(fs.flash[fs.root], content, n + 1);
    }
  }

  /** Look through the table for the entry of a name. */
  method FindEntry(fs: Fs, name: CString, ghost n: nat) returns (index: nat, inode: nat, max: nat)
    requires fs.root < DF_PAGES && IsDirectory(fs.flash[fs.root], n)
    ensures max == n < FS_NODES_IN_ROOT
    ensures index < n ==> Names(fs.flash[fs.root], n, Field(name)) && Entry(fs.flash[fs.root], index).name == Field(name) && inode == Entry(fs.flash[fs.root], index).inode
    ensures index >= n ==> index == NONE && !Names(fs.flash[fs.root], n, Field(name))
  {
    hide Less, StrNCmp, Field, NodeOf;
    var p := fs.flash[fs.root];
    index, inode, max := NONE, NONE, 0;
    while true
      invariant max <= n
      invariant index == NONE ==> forall k: nat :: k < max ==> Entry(p, k).name != Field(name)
      invariant index != NONE ==> index < max && Entry(p, index).name == Field(name) && inode == Entry(p, index).inode
      decreases n - max
    {
      var node := Entry(p, max);
      if node.unused {
        return;
      }
      CompareStored(node.name, name);
      if StrNCmp(node.name, name, 0) == 0 {
        index := max;
        inode := node.inode;
      }
      max := max + 1;
    }
  }

  lemma ClosedStep(q: Page, p: Page, at: nat, m: nat)
    requires Closed(q, p, at, m) && m + 1 < FS_NODES_IN_ROOT
    ensures Closed(Put(q, FS_NODE_OFFSET + 8 * m, NodeBytes(Entry(p, m + 1))), p, at, m + 1)
    ensures SameFrame(Put(q, FS_NODE_OFFSET + 8 * m, NodeBytes(Entry(p, m + 1))), p)
  {
    hide Entry, TablePage, PageHeader, NodeBytes, Put;
    PutEntry(q, m, Entry(p, m + 1));
  }

  /** Take an entry out of the copy of the root page in buffer 1: those after it move down,
      and the last place is marked unused. */
  method RemoveEntry(fs: Fs, at: nat, max: nat, ghost n: nat)
    requires fs.root < DF_PAGES && IsDirectory(fs.flash[fs.root], n) && at < n && max == n
    modifies fs`buf1
    ensures SameFrame(fs.buf1, fs.flash[fs.root]) && IsDirectory(fs.buf1, n - 1)
    ensures Bindings(fs.buf1, n - 1) == Bindings(fs.flash[fs.root], n)[..at] + Bindings(fs.flash[fs.root], n)[at + 1..]
  {
    hide Closed, Inserted, Entry, SameFrame, NodeBytes, Put, Bindings;
    var p := fs.flash[fs.root];
    fs.buf1 := p;
    ClosedAtFirst(p, at);
    var node := Entry(p, max);
    var index := at;
    while index < max - 1
      invariant at <= index < max && Closed(fs.buf1, p, at, index) && SameFrame(fs.buf1, p)
    {
      node := Entry(p, index + 1);
      ClosedStep(fs.buf1, p, at, index);
      fs.buf1 := Put(fs.buf1, FS_NODE_OFFSET + 8 * index, NodeBytes(node));
      index := index + 1;
    }
    node := node.(unused := true);
    ghost var closed := fs.buf1;
    InsertedAtFirst(closed, max - 1, node);
    fs.buf1 := Put(fs.buf1, FS_NODE_OFFSET + 8 * (max - 1), NodeBytes(node));
    RemovedIsDirectory(fs.buf1, closed, p, at, n, node);
  }

  lemma ClosedAtFirst(p: Page, at: nat)
    requires at < FS_NODES_IN_ROOT
    ensures Closed(p, p, at, at) && SameFrame(p, p)
  {
  }

  /** Every point of a history from `from` on would recover one of the two maps under these
      names. */
  ghost predicate RecoversEither(history: seq<Flash>, from: nat, before: seq<u16>, after: seq<u16>, names: Page) {
    forall k :: from <= k < |history| ==> Recovers(history[k], before, names) || Recovers(history[k], after, names)
  }

  /** `fs_remove`: the entry of the name goes, its inode then points nowhere, and the other
      bindings and inodes stay. It takes three pages and two versions. From the first page
      save on the name is gone, also after a power failure, while its inode may still point
      to its page. */
  method Remove(fs: Fs, name: CString, ghost n: nat) returns (status: Status, ghost at: nat)
    requires fs.Ready() && IsDirectory(fs.flash[fs.root], n)
    requires fs.HasRoom(3) && fs.version < MAX_VERSION - 1
    modifies fs`flash, fs`history, fs`buf1, fs`root, fs`version, fs`lastFree, fs`pos
    ensures fs.Ready()
    ensures status == if !old(Names(fs.flash[fs.root], n, Field(name))) then FS_NOSUCHFILE
                      else if old(fs.PagesLeft()) >= 3 then FS_OK else FS_BADPAGE
    ensures status == FS_NOSUCHFILE ==> fs.pos == old(fs.pos) && fs.version == old(fs.version)
    ensures status != FS_NOSUCHFILE ==> Takes(fs.used, fs.start, old(fs.pos), fs.pos, 3, status == FS_OK)
    ensures status == FS_OK ==> fs.version == old(fs.version) + 2
    ensures status == FS_NOSUCHFILE || old(fs.PagesLeft()) == 0 ==>
      fs.flash == old(fs.flash) && fs.root == old(fs.root) && fs.history == old(fs.history)
    ensures status != FS_NOSUCHFILE ==> at < n && old(Entry(fs.flash[fs.root], at).name) == Field(name)
    ensures status != FS_NOSUCHFILE && old(fs.PagesLeft()) > 0 ==>
      && IsDirectory(fs.flash[fs.root], n - 1)
      && Bindings(fs.flash[fs.root], n - 1) == old(Bindings(fs.flash[fs.root], n))[..at] + old(Bindings(fs.flash[fs.root], n))[at + 1..]
      && RecoversEither(fs.history, |old(fs.history)|, old(fs.Map()), old(fs.Map())[old(Entry(fs.flash[fs.root], at).inode) := NONE], fs.flash[fs.root])
    ensures fs.Map() == if status == FS_OK then old(fs.Map())[old(Entry(fs.flash[fs.root], at).inode) := NONE] else old(fs.Map())
    ensures old(fs.history) <= fs.history
    ensures Preserved(fs.used, fs.start, old(fs.pos), old(fs.flash), fs.pos, fs.flash)
  {
    hide Newest, Meta, TableOf, Protected, MapThrough, InodeMap, Sealable, SameTables, ValidRoot, PageHeader, NextFree, Allocated, Less, Field, Entry, NodeOf, Inserted, StrNCmp, IsTable, Bindings, SameEntries, Names, SameFrame, FreePositions, PageThrough, CrashSafe, MetaReused, Ahead, Exhausted, Recovers, SameProtected, RecoversEither, TablePage, PageVersion, Tracks;
    var index, inode, max := FindEntry(fs, name, n);
    at := index;
    if max == 0 || index > max {
      PreservesItself(fs.used, fs.start, fs.pos, fs.flash);
      return FS_NOSUCHFILE, at;
    }
    ghost var before := fs.Map();
    RemoveEntry(fs, index, max, n);
    SameFrameIsSealable(fs.flash, fs.root, fs.version, fs.used, fs.start, fs.pos, fs.buf1);
    ghost var content := fs.buf1;
    status := fs.Increment();
    if status != FS_OK {
      TakesNoMore(fs.used, fs.start, old(fs.pos), fs.pos, 1, 3);
      return status, at;
    }
    ghost var there, between, shorter := fs.pos, fs.flash, fs.flash[fs.root];
    SameEntriesSameDirectory(shorter, content, n - 1);
    LiveRecoversItself(fs.flash, fs.root, fs.version, fs.used, fs.start, fs.pos);
    status := fs.UpdateInodeTable(inode, NONE);
    SameEntriesSameDirectory(fs.flash[fs.root], shorter, n - 1);
    PreservedTransitive(fs.used, fs.start, old(fs.pos), old(fs.flash), there, between, fs.pos, fs.flash);
    TakesMore(fs.used, fs.start, old(fs.pos), there, fs.pos, 1, 2, status == FS_OK);
    EitherAfterFirst(fs.history, |old(fs.history)|, before, before[inode := NONE], shorter, fs.flash[fs.root], fs.used, fs.start, there, between);
  }

  /** The first save left the old map, and those after it one of the two. */
  lemma EitherAfterFirst(history: seq<Flash>, from: nat, before: seq<u16>, after: seq<u16>, names: Page, names': Page,
                         used: set<nat>, start: nat, pos: nat, flash: Flash)
    requires from < |history| && Recovers(history[from], before, names) && SameEntries(names', names)
    requires CrashSafe(history, from + 1, before, after, names, used, start, pos, flash)
    ensures RecoversEither(history, from, before, after, names')
  {
    hide Recovers, SameProtected;
    forall k | from <= k < |history|
      ensures Recovers(history[k], before, names') || Recovers(history[k], after, names')
    {
      if Recovers(history[k], before, names) {
        RecoversSameNames(history[k], before, names, names');
      } else {
        RecoversSameNames(history[k], after, names, names');
      }
    }
  }
}
