/** The copy-on-write filesystem on the dataflash: page allocation, the two-page commit of
    an inode table change, and recovery by scanning for the newest root page. */
module Filesystem {
  import opened Bits
  import opened Integers
  import opened FlashLayout

  function BlankPage(): Page {
    seq(DF_PAGESIZE, _ => 0)
  }

  type Flash = f: seq<Page> | |f| == DF_PAGES witness seq<Page>(DF_PAGES, _ => BlankPage())

  datatype Status = FS_OK | FS_NOSUCHFILE | FS_BADPAGE | FS_BADINODE | FS_DUPLICATE | FS_BADSEEK
  datatype Option<T> = None | Some(value: T)

  // ---------- the bitmap of known-used pages ----------

  /** Buffer 2: one bit for every page. */
  type Bitmap = b: seq<bv8> | |b| == DF_PAGESIZE witness seq(DF_PAGESIZE, _ => 0)

  /** `fs_used`: a clear bit in buffer 2 marks the page as used. */
  predicate Used(bitmap: Bitmap, page: nat)
    requires page < DF_PAGES
  {
    !IsSet(bitmap[page / 8], page % 8)
  }

  // ---------- the allocator ----------

  /** Which positions of the ring are free when the pages `used` are not. Positions count pages without wrapping:
      position `q` is page `q % DF_PAGES`. */
  function FreePositions(used: set<nat>): nat -> bool {
    (q: nat) => q % DF_PAGES !in used
  }

  /** The first free position from `q` on, before the ring comes round to `pos` again. */
  function FreeFrom(free: nat -> bool, pos: nat, q: nat): Option<nat>
    requires pos < q <= pos + DF_PAGES
    decreases pos + DF_PAGES - q
  {
    if q == pos + DF_PAGES then None
    else if free(q) then Some(q)
    else FreeFrom(free, pos, q + 1)
  }

  /** What `fs_new_page` looks for: the first free page after the one
      at `pos`. */
  function NextFree(free: nat -> bool, pos: nat): Option<nat> {
    FreeFrom(free, pos, pos + 1)
  }

  lemma {:induction false} FreeFromIsFirst(free: nat -> bool, pos: nat, q: nat)
    requires pos < q <= pos + DF_PAGES
    ensures var next := FreeFrom(free, pos, q);
      var end := if next.None? then pos + DF_PAGES else next.value;
      && (next.Some? ==> q <= end < pos + DF_PAGES && free(end))
      && (forall e :: q <= e < end ==> !free(e))
    decreases pos + DF_PAGES - q
  {
    if q < pos + DF_PAGES && !free(q) {
      FreeFromIsFirst(free, pos, q + 1);
    }
  }

  /** A run of `n` allocations from `pos`, as positions. */
  function Run(free: nat -> bool, pos: nat, n: nat): (run: seq<nat>)
    ensures |run| <= n
    decreases n
  {
    if n == 0 then []
    else match NextFree(free, pos)
      case None => []
      case Some(q) => [q] + Run(free, q, n - 1)
  }

  lemma {:induction false} RunIsIncreasing(free: nat -> bool, pos: nat, n: nat, i: nat)
    requires i < |Run(free, pos, n)|
    ensures var run := Run(free, pos, n);
      pos < run[i] && free(run[i]) && (i > 0 ==> run[i - 1] < run[i])
    decreases n
  {
    FreeFromIsFirst(free, pos, pos + 1);
    var q := NextFree(free, pos).value;
    if i > 0 {
      var run := Run(free, pos, n);
      assert run == [q] + Run(free, q, n - 1);
      RunIsIncreasing(free, q, n - 1, i - 1);
    }
  }

  lemma {:induction false} RunIsAscending(free: nat -> bool, pos: nat, n: nat, i: nat, j: nat)
    requires i < j < |Run(free, pos, n)|
    ensures Run(free, pos, n)[i] < Run(free, pos, n)[j]
  {
    RunIsIncreasing(free, pos, n, j);
    if i < j - 1 {
      RunIsAscending(free, pos, n, i, j - 1);
    }
  }

  /** A run passes over no free page. */
  lemma {:induction false} RunVisits(free: nat -> bool, pos: nat, n: nat, e: nat)
    requires var run := Run(free, pos, n); |run| > 0 && run[0] <= e <= run[|run| - 1]
    requires free(e)
    ensures e in Run(free, pos, n)
    decreases n
  {
    var q := NextFree(free, pos).value;
    if e != q {
      var rest := Run(free, q, n - 1);
      assert Run(free, pos, n) == [q] + rest;
      FreeFromIsFirst(free, q, q + 1);
      RunVisits(free, q, n - 1, e);
    }
  }

  lemma DifferentPages(p: nat, q: nat)
    requires p < q < p + DF_PAGES
    ensures p % DF_PAGES != q % DF_PAGES
  {
  }

  lemma NextOnRing(q: nat)
    ensures (q % DF_PAGES + 1) % DF_PAGES == (q + 1) % DF_PAGES
  {
  }

  lemma SamePage(used: set<nat>, q: nat)
    ensures q % DF_PAGES == (q + DF_PAGES) % DF_PAGES
    ensures FreePositions(used)(q) == FreePositions(used)(q + DF_PAGES)
  {
  }

  /** A run that has not come round to its first page again hands out no page twice, and
      only such a run. */
  lemma DistinctUntilRound(used: set<nat>, pos: nat, n: nat)
    requires |Run(FreePositions(used), pos, n)| > 0
    ensures var run := Run(FreePositions(used), pos, n);
      (forall i, j :: 0 <= i < j < |run| ==> run[i] % DF_PAGES != run[j] % DF_PAGES)
      <==> run[|run| - 1] < run[0] + DF_PAGES
  {
    var free := FreePositions(used);
    var run := Run(free, pos, n);
    forall i, j | 0 <= i < j < |run|
      ensures run[i] < run[j]
    {
      RunIsAscending(free, pos, n, i, j);
    }
    if run[0] + DF_PAGES <= run[|run| - 1] {
      SamePage(used, run[0]);
      RunIsIncreasing(free, pos, n, 0);
      RunVisits(free, pos, n, run[0] + DF_PAGES);
      var j :| 0 <= j < |run| && run[j] == run[0] + DF_PAGES;
      assert 0 < j && run[0] % DF_PAGES == run[j] % DF_PAGES;
    } else {
      forall i, j | 0 <= i < j < |run|
        ensures run[i] % DF_PAGES != run[j] % DF_PAGES
      {
        DifferentPages(run[i], run[j]);
      }
    }
  }

  /** The pages that are not known to be used. */
  ghost function FreePages(used: set<nat>): set<nat> {
    set p: nat | p < DF_PAGES && p !in used
  }

  /** The pages of a series of positions. */
  ghost function PagesOf(run: seq<nat>): (pages: set<nat>)
    ensures forall p :: p in pages <==> exists i :: 0 <= i < |run| && run[i] % DF_PAGES == p
  {
    set i | 0 <= i < |run| :: run[i] % DF_PAGES
  }

  lemma {:induction false} CountPages(run: seq<nat>)
    ensures |PagesOf(run)| <= |run|
    ensures (forall i, j :: 0 <= i < j < |run| ==> run[i] % DF_PAGES != run[j] % DF_PAGES) ==> |PagesOf(run)| == |run|
  {
    if run != [] {
      var rest, last := run[..|run| - 1], run[|run| - 1] % DF_PAGES;
      CountPages(rest);
      assert forall i :: 0 <= i < |rest| ==> rest[i] == run[i];
      assert PagesOf(run) == PagesOf(rest) + {last};
    }
  }

  lemma SubsetSize<T>(a: set<T>, b: set<T>)
    requires a <= b
    ensures |a| <= |b|
  {
    assert b == a + (b - a);
  }

  lemma TwoElements<T>(s: set<T>, a: T, b: T)
    requires a in s && b in s && a != b
    ensures |s| >= 2
  {
    SubsetSize({a, b}, s);
  }

  /** The position at which the ring comes to a page next. */
  function NextVisit(pos: nat, page: nat): (q: nat)
    requires page < DF_PAGES
    ensures pos < q <= pos + DF_PAGES && q % DF_PAGES == page
  {
    pos + 1 + (page + DF_PAGES - (pos + 1) % DF_PAGES) % DF_PAGES
  }

  /** As long as two pages are free, there is always a next one; if only one is, it is
      handed out only once. */
  lemma NextExists(used: set<nat>, pos: nat)
    ensures |FreePages(used)| >= 2 ==> NextFree(FreePositions(used), pos).Some?
    ensures |FreePages(used)| <= 1 && pos % DF_PAGES in FreePages(used) ==> NextFree(FreePositions(used), pos).None?
  {
    var free, pages := FreePositions(used), FreePages(used);
    FreeFromIsFirst(free, pos, pos + 1);
    match NextFree(free, pos) {
      case None =>
        if |pages| >= 2 {
          if pages <= {pos % DF_PAGES} {
            SubsetSize(pages, {pos % DF_PAGES});
          }
          var p :| p in pages && p != pos % DF_PAGES;
          assert free(NextVisit(pos, p));
          SamePage(used, pos);
        }
      case Some(q) =>
        if pos % DF_PAGES in pages {
          DifferentPages(pos, q);
          TwoElements(pages, pos % DF_PAGES, q % DF_PAGES);
        }
    }
  }

  lemma {:induction false} RunLength(used: set<nat>, pos: nat, n: nat)
    ensures |FreePages(used)| >= 2 ==> |Run(FreePositions(used), pos, n)| == n
    ensures |FreePages(used)| <= 1 ==> |Run(FreePositions(used), pos, n)| <= 1
    decreases n
  {
    if n > 0 {
      NextExists(used, pos);
      FreeFromIsFirst(FreePositions(used), pos, pos + 1);
      match NextFree(FreePositions(used), pos) {
        case None =>
        case Some(q) =>
          NextExists(used, q);
          RunLength(used, q, n - 1);
      }
    }
  }

  /** Since an allocated page is not marked used, a run hands out no page twice exactly as
      long as it is not longer than there are free pages, or one page alone is free. */
  lemma AllocatedPagesDistinct(used: set<nat>, pos: nat, n: nat)
    ensures var run := Run(FreePositions(used), pos, n);
      (forall i, j :: 0 <= i < j < |run| ==> run[i] % DF_PAGES != run[j] % DF_PAGES)
      <==> n <= |FreePages(used)| || |FreePages(used)| <= 1
  {
    var free := FreePositions(used);
    var run := Run(free, pos, n);
    RunLength(used, pos, n);
    if |FreePages(used)| >= 2 && n > 0 {
      DistinctUntilRound(used, pos, n);
      if run[n - 1] < run[0] + DF_PAGES {
        CountPages(run);
        forall i | 0 <= i < n
          ensures free(run[i])
        {
          RunIsIncreasing(free, pos, n, i);
        }
        SubsetSize(PagesOf(run), FreePages(used));
      } else {
        RoundIsLonger(used, pos, n);
      }
    }
  }

  /** A run that comes round has handed out every free page, and one more. */
  lemma RoundIsLonger(used: set<nat>, pos: nat, n: nat)
    requires var run := Run(FreePositions(used), pos, n);
      |run| == n > 0 && run[n - 1] >= run[0] + DF_PAGES
    ensures n > |FreePages(used)|
  {
    var free := FreePositions(used);
    var run := Run(free, pos, n);
    forall p | p in FreePages(used)
      ensures p in PagesOf(run[..n - 1])
    {
      RunIsIncreasing(free, pos, n, 0);
      var q := NextVisit(run[0] - 1, p);
      assert free(q);
      RunVisits(free, pos, n, q);
      var i :| 0 <= i < n && run[i] == q;
      assert run[..n - 1][i] == q;
    }
    CountPages(run[..n - 1]);
    SubsetSize(FreePages(used), PagesOf(run[..n - 1]));
  }

  /** The free positions that the allocator, started at `start`, comes to before it wraps.
      It comes back to the page it started from only if another one is free, too. */
  ghost function Ahead(used: set<nat>, start: nat, pos: nat): set<nat> {
    set q: nat | pos < q <= start + DF_PAGES && q % DF_PAGES !in used && (q < start + DF_PAGES || |FreePages(used)| >= 2)
  }

  /** Before the first allocation after mounting, every free page is ahead, but for page 0 when
      it alone is free. */
  lemma AllAhead(used: set<nat>)
    ensures |Ahead(used, 0, 0)| == |if |FreePages(used)| >= 2 then FreePages(used) else FreePages(used) - {0}|
  {
    hide FreePages, Ahead;
    AheadAtFirst(used);
  }

  lemma AheadAtFirst(used: set<nat>)
    ensures Ahead(used, 0, 0) == FreePages(used) - {0} + if |FreePages(used)| >= 2 && 0 in FreePages(used) then {DF_PAGES} else {}
    ensures DF_PAGES !in FreePages(used)
  {
    var pages, more := FreePages(used), |FreePages(used)| >= 2;
    forall q: nat | 0 < q <= DF_PAGES
      ensures q in Ahead(used, 0, 0) <==> if q == DF_PAGES then 0 in pages && more else q in pages
    {
    }
  }

  /** The allocator cannot wrap, because there is no other page than the last one it found. */
  ghost predicate Exhausted(used: set<nat>, start: nat, pos: nat) {
    |FreePages(used)| <= 1 && (pos == start || pos % DF_PAGES !in used)
  }

  /** An allocation takes exactly one of the positions ahead, and fails if there is none. */
  lemma NextIsAhead(used: set<nat>, start: nat, pos: nat)
    requires start <= pos && (Ahead(used, start, pos) != {} || Exhausted(used, start, pos))
    ensures match NextFree(FreePositions(used), pos)
      case None => Ahead(used, start, pos) == {}
      case Some(q) => q in Ahead(used, start, pos) && Ahead(used, start, q) == Ahead(used, start, pos) - {q}
    ensures match NextFree(FreePositions(used), pos)
      case None => true
      case Some(q) => Exhausted(used, start, pos) ==> Exhausted(used, start, q)
  {
    hide FreePages;
    FreeFromIsFirst(FreePositions(used), pos, pos + 1);
    FreePositionsAre(used, pos);
    NextExists(used, pos);
  }

  lemma FreePositionsAre(used: set<nat>, pos: nat)
    ensures forall q: nat :: FreePositions(used)(q) <==> q % DF_PAGES !in used
    ensures pos % DF_PAGES in FreePages(used) <==> pos % DF_PAGES !in used
  {
  }

  /** What an operation that takes `n` pages has taken: it succeeds if and only if there are
      so many ahead, and leaves the others. */
  ghost predicate Takes(used: set<nat>, start: nat, pos: nat, pos': nat, n: nat, succeeds: bool) {
    var left := |Ahead(used, start, pos)|;
    && (succeeds <==> left >= n) && |Ahead(used, start, pos')| == (if succeeds then left - n else 0)
    && (Exhausted(used, start, pos) ==> Exhausted(used, start, pos'))
  }

  lemma TakesMore(used: set<nat>, start: nat, pos: nat, pos': nat, pos'': nat, n: nat, m: nat, succeeds: bool)
    requires Takes(used, start, pos, pos', n, true) && Takes(used, start, pos', pos'', m, succeeds)
    ensures Takes(used, start, pos, pos'', n + m, succeeds)
  {
  }

  lemma TakesNoMore(used: set<nat>, start: nat, pos: nat, pos': nat, n: nat, m: nat)
    requires Takes(used, start, pos, pos', n, false) && n <= m
    ensures Takes(used, start, pos, pos', m, false)
  {
  }

  /** A page that no allocation may touch: marked used, or handed out since the ring
      position was `start`. */
  ghost predicate Protected(used: set<nat>, start: nat, pos: nat, page: nat) {
    page < DF_PAGES && (page in used || exists q :: start < q <= pos && page == q % DF_PAGES)
  }

  /** The allocator went on from `pos` to `q` without wrapping past `start`. */
  ghost predicate Allocated(used: set<nat>, start: nat, pos: nat, q: nat) {
    start <= pos && NextFree(FreePositions(used), pos) == Some(q) && q <= start + DF_PAGES
  }

  /** Until the allocator wraps, what it hands out was not protected before. */
  lemma AllocatedIsUnprotected(used: set<nat>, start: nat, pos: nat, q: nat)
    requires Allocated(used, start, pos, q)
    ensures pos < q && !Protected(used, start, pos, q % DF_PAGES)
    ensures Protected(used, start, q, q % DF_PAGES)
    ensures forall page: nat :: Protected(used, start, pos, page) ==> Protected(used, start, q, page)
  {
    FreeFromIsFirst(FreePositions(used), pos, pos + 1);
    forall e | start < e <= pos
      ensures e % DF_PAGES != q % DF_PAGES
    {
      DifferentPages(e, q);
    }
  }

  // ---------- what the pages say ----------

  /** Every inode table of the root page lies on a page that is no root page. */
  ghost predicate Mounted(flash: Flash, root: nat) {
    && root < DF_PAGES && ValidRoot(flash[root]) && TablesInRange(flash[root])
    && forall t: nat :: t < FS_TABLES ==> !PageHeader(flash[TablePage(flash[root], t)]).root
  }

  /** The root page that a scan settles on: the newest, the first of equals. */
  ghost predicate Newest(flash: Flash, root: nat) {
    && root < DF_PAGES && ValidRoot(flash[root]) && PageVersion(flash[root]) > 0
    && forall p: nat :: p < DF_PAGES && p != root && ValidRoot(flash[p]) ==>
      PageVersion(flash[p]) < PageVersion(flash[root]) || (PageVersion(flash[p]) == PageVersion(flash[root]) && root < p)
  }

  lemma NewestIsUnique(flash: Flash, r: nat, s: nat)
    requires Newest(flash, r) && Newest(flash, s)
    ensures r == s
  {
  }

  function Target(node: TableNode): u16 {
    if node.unused then NONE else node.page
  }

  /** Every inode table of a root page lies on some page. */
  predicate TablesInRange(content: Page) {
    forall t: nat :: t < FS_TABLES ==> TablePage(content, t) < DF_PAGES
  }

  /** The page that an inode points to when `content` is the root page, or NONE. */
  function PageThrough(flash: Flash, content: Page, inode: nat): u16
    requires TablesInRange(content) && inode < FS_INODES
  {
    Target(InodeNode(flash[TablePage(content, inode / FS_INODES_PER_TABLE)], inode % FS_INODES_PER_TABLE))
  }

  /** The whole inode map as a root page presents it. */
  ghost function MapThrough(flash: Flash, content: Page): (m: seq<u16>)
    requires TablesInRange(content)
    ensures |m| == FS_INODES
    ensures forall inode: nat :: inode < FS_INODES ==> m[inode] == PageThrough(flash, content, inode)
  {
    seq(FS_INODES, inode requires 0 <= inode < FS_INODES => PageThrough(flash, content, inode))
  }

  ghost function InodeMap(flash: Flash, root: nat): (m: seq<u16>)
    requires Mounted(flash, root)
    ensures |m| == FS_INODES
  {
    MapThrough(flash, flash[root])
  }

  ghost predicate Settled(flash: Flash, root: nat) {
    Mounted(flash, root) && Newest(flash, root)
  }

  /** A power failure now would leave this inode map behind, and the names that the root
      page `names` has. */
  ghost predicate Recovers(flash: Flash, m: seq<u16>, names: Page) {
    exists root: nat :: Settled(flash, root) && InodeMap(flash, root) == m && SameEntries(flash[root], names)
  }

  ghost predicate TableOf(content: Page, page: nat) {
    exists t: nat :: t < FS_TABLES && TablePage(content, t) == page
  }

  /** The pages that hold live metadata: the root and its inode tables. */
  ghost predicate Meta(flash: Flash, root: nat, page: nat)
    requires root < DF_PAGES
  {
    page == root || TableOf(flash[root], page)
  }

  // ---------- what saving one page does to them ----------

  /** Programming a page that is no root page and holds no live metadata changes nothing
      a scan can see. */
  lemma SaveOther(flash: Flash, root: nat, p: nat, content: Page)
    requires Settled(flash, root) && p < DF_PAGES && !Meta(flash, root, p)
    requires !PageHeader(content).root
    ensures Settled(flash[p := content], root)
    ensures InodeMap(flash[p := content], root) == InodeMap(flash, root)
  {
    var flash' := flash[p := content];
    assert forall t: nat :: t < FS_TABLES ==> flash'[TablePage(flash'[root], t)] == flash[TablePage(flash[root], t)];
    forall inode: nat | inode < FS_INODES
      ensures PageThrough(flash', flash'[root], inode) == PageThrough(flash, flash[root], inode)
    {
      assert inode / FS_INODES_PER_TABLE < FS_TABLES;
    }
  }

  /** Programming a newer root page elsewhere switches over to it at once. */
  lemma SaveRoot(flash: Flash, root: nat, p: nat, content: Page)
    requires Settled(flash, root) && p < DF_PAGES && p != root
    requires ValidRoot(content) && PageVersion(content) > PageVersion(flash[root]) && TablesInRange(content)
    requires forall t: nat :: t < FS_TABLES ==> TablePage(content, t) != p && !PageHeader(flash[TablePage(content, t)]).root
    ensures Settled(flash[p := content], p)
    ensures InodeMap(flash[p := content], p) == MapThrough(flash, content)
  {
    var flash' := flash[p := content];
    assert flash'[p] == content;
    assert forall t: nat :: t < FS_TABLES ==> flash'[TablePage(content, t)] == flash[TablePage(content, t)];
    forall inode: nat | inode < FS_INODES
      ensures PageThrough(flash', content, inode) == PageThrough(flash, content, inode)
    {
      assert inode / FS_INODES_PER_TABLE < FS_TABLES;
    }
  }

  lemma SplitInode(i: nat, inode: nat)
    requires i < FS_INODES && inode < FS_INODES
    ensures i / FS_INODES_PER_TABLE < FS_TABLES && i % FS_INODES_PER_TABLE < FS_INODES_PER_TABLE
    ensures i != inode ==> i / FS_INODES_PER_TABLE != inode / FS_INODES_PER_TABLE || i % FS_INODES_PER_TABLE != inode % FS_INODES_PER_TABLE
  {
  }

  /** A sealed root page takes over exactly when its version is ahead: a version counter
      that has wrapped to 0 loses the commit. */
  lemma TakesOverIffNewer(flash: Flash, root: nat, p: nat, content: Page)
    requires Settled(flash, root) && p < DF_PAGES && p != root && ValidRoot(content)
    ensures Newest(flash[p := content], p) <==>
      PageVersion(content) > PageVersion(flash[root]) || (PageVersion(content) == PageVersion(flash[root]) && p < root)
    ensures PageVersion(content) == 0 ==> Newest(flash[p := content], root)
  {
    var flash' := flash[p := content];
    assert flash'[p] == content && flash'[root] == flash[root];
  }

  /** A table page with the entry of `inode` replaced, and a root page with the address of
      that table replaced, together change the map at exactly one inode. */
  lemma TableReplaced(flash: Flash, root: nat, p: nat, inode: nat, node: TableNode, tablePage: Page, content: Page)
    requires Mounted(flash, root) && inode < FS_INODES && p < DF_PAGES && !Meta(flash, root, p)
    requires var table := inode / FS_INODES_PER_TABLE;
      && table < FS_TABLES
      && TableNodeReplaced(tablePage, flash[TablePage(flash[root], table)], inode % FS_INODES_PER_TABLE, node)
      && TablePageReplaced(content, flash[root], table, p)
    ensures TablesInRange(content)
    ensures forall t: nat :: t < FS_TABLES ==> !PageHeader(flash[p := tablePage][TablePage(content, t)]).root
    ensures MapThrough(flash[p := tablePage], content) == InodeMap(flash, root)[inode := Target(node)]
  {
    var flash' := flash[p := tablePage];
    assert forall t: nat :: t < FS_TABLES && t != inode / FS_INODES_PER_TABLE ==> flash'[TablePage(content, t)] == flash[TablePage(flash[root], t)];
    forall i: nat | i < FS_INODES
      ensures PageThrough(flash', content, i) == if i == inode then Target(node) else PageThrough(flash, flash[root], i)
    {
      SplitInode(i, inode);
    }
  }

  /** A mounted filesystem whose live metadata the allocator will not touch. */
  ghost predicate Live(flash: Flash, root: nat, version: u32, used: set<nat>, start: nat, pos: nat) {
    && Settled(flash, root) && PageVersion(flash[root]) <= version
    && forall page: nat :: Meta(flash, root, page) ==> Protected(used, start, pos, page)
  }

  lemma SameMap(flash: Flash, a: Page, b: Page)
    requires TablesInRange(a) && SameTables(a, b)
    ensures TablesInRange(b) && MapThrough(flash, a) == MapThrough(flash, b)
  {
  }

  /** The root page content that `fs_increment` may seal. */
  ghost predicate Sealable(flash: Flash, used: set<nat>, start: nat, pos: nat, content: Page) {
    && !PageHeader(content).unused && PageHeader(content).root && TablesInRange(content)
    && forall t: nat :: t < FS_TABLES ==>
      Protected(used, start, pos, TablePage(content, t)) && !PageHeader(flash[TablePage(content, t)]).root
  }

  /** The page that `fs_increment` programs takes over as root. */
  lemma RootTakesOver(flash: Flash, root: nat, version: u32, used: set<nat>, start: nat, pos: nat, q: nat, content: Page, sealed: Page)
    requires Live(flash, root, version, used, start, pos) && version < MAX_VERSION
    requires Allocated(used, start, pos, q)
    requires Sealable(flash, used, start, pos, content) && IsSealed(sealed, content, version + 1)
    ensures Live(flash[q % DF_PAGES := sealed], q % DF_PAGES, version + 1, used, start, q)
    ensures InodeMap(flash[q % DF_PAGES := sealed], q % DF_PAGES) == MapThrough(flash, content)
    ensures Preserved(used, start, pos, flash, q, flash[q % DF_PAGES := sealed])
    ensures !Protected(used, start, pos, q % DF_PAGES)
    ensures forall l: nat :: Meta(flash[q % DF_PAGES := sealed], q % DF_PAGES, l) ==>
      l == q % DF_PAGES || TableOf(content, l)
  {
    var p := q % DF_PAGES;
    AllocatedIsUnprotected(used, start, pos, q);
    assert Meta(flash, root, root);
    SameMap(flash, content, sealed);
    assert forall t: nat :: t < FS_TABLES ==> TablePage(sealed, t) != p;
    SaveRoot(flash, root, p, sealed);
  }

  /** A root page that is programmed after the version has wrapped does not take over. */
  lemma RootIsLost(flash: Flash, root: nat, version: u32, used: set<nat>, start: nat, pos: nat, q: nat, content: Page, sealed: Page)
    requires Live(flash, root, version, used, start, pos) && Allocated(used, start, pos, q)
    requires Sealable(flash, used, start, pos, content) && IsSealed(sealed, content, 0)
    ensures Recovers(flash[q % DF_PAGES := sealed], InodeMap(flash, root), flash[root])
    ensures Preserved(used, start, pos, flash, q, flash[q % DF_PAGES := sealed])
    ensures !Protected(used, start, pos, q % DF_PAGES)
  {
    var p := q % DF_PAGES;
    AllocatedIsUnprotected(used, start, pos, q);
    assert Meta(flash, root, root);
    TakesOverIffNewer(flash, root, p, sealed);
    var flash' := flash[p := sealed];
    forall t: nat | t < FS_TABLES
      ensures flash'[TablePage(flash[root], t)] == flash[TablePage(flash[root], t)]
    {
      assert TableOf(flash[root], TablePage(flash[root], t));
    }
    forall inode: nat | inode < FS_INODES
      ensures PageThrough(flash', flash'[root], inode) == PageThrough(flash, flash[root], inode)
    {
      assert inode / FS_INODES_PER_TABLE < FS_TABLES;
    }
    assert InodeMap(flash', root) == InodeMap(flash, root);
  }

  /** The protected pages read the same in both. */
  ghost predicate SameProtected(used: set<nat>, start: nat, pos: nat, flash: Flash, flash': Flash) {
    forall l: nat :: Protected(used, start, pos, l) ==> flash'[l] == flash[l]
  }

  /** What the allocator protected stays protected and as it was. */
  ghost predicate Preserved(used: set<nat>, start: nat, pos: nat, flash: Flash, pos': nat, flash': Flash) {
    pos <= pos' && SameProtected(used, start, pos, flash, flash')
  }

  lemma ProtectedGrows(used: set<nat>, start: nat, pos: nat, pos': nat, page: nat)
    requires pos <= pos' && Protected(used, start, pos, page)
    ensures Protected(used, start, pos', page)
  {
  }

  lemma PreservedTransitive(used: set<nat>, start: nat, p0: nat, f0: Flash, p1: nat, f1: Flash, p2: nat, f2: Flash)
    requires Preserved(used, start, p0, f0, p1, f1) && Preserved(used, start, p1, f1, p2, f2)
    ensures Preserved(used, start, p0, f0, p2, f2)
  {
  }

  /** Every point of a history from `from` on would recover one of the two maps under the
      same names, with the protected pages as they were. */
  ghost predicate CrashSafe(history: seq<Flash>, from: nat, before: seq<u16>, after: seq<u16>, names: Page,
                            used: set<nat>, start: nat, pos: nat, flash: Flash) {
    forall k :: from <= k < |history| ==>
      && (Recovers(history[k], before, names) || Recovers(history[k], after, names))
      && SameProtected(used, start, pos, flash, history[k])
  }

  lemma NothingSaved(history: seq<Flash>, before: seq<u16>, after: seq<u16>, names: Page, used: set<nat>, start: nat, pos: nat, flash: Flash)
    ensures CrashSafe(history, |history|, before, after, names, used, start, pos, flash)
    ensures Preserved(used, start, pos, flash, pos, flash)
  {
    PreservesItself(used, start, pos, flash);
  }

  lemma PreservesItself(used: set<nat>, start: nat, pos: nat, flash: Flash)
    ensures Preserved(used, start, pos, flash, pos, flash)
  {
  }

  /** One more page save after which a scan recovers one of the two maps. */
  lemma OneMoreSave(history: seq<Flash>, from: nat, before: seq<u16>, after: seq<u16>, names: Page,
                    used: set<nat>, start: nat, pos: nat, flash: Flash, pos': nat, next: Flash)
    requires CrashSafe(history, from, before, after, names, used, start, pos, flash) && from <= |history|
    requires Preserved(used, start, pos, flash, pos', next) && (Recovers(next, before, names) || Recovers(next, after, names))
    ensures CrashSafe(history + [next], from, before, after, names, used, start, pos, flash)
  {
    hide Recovers, SameProtected;
  }

  lemma LiveIsRecovered(flash: Flash, root: nat, version: u32, used: set<nat>, start: nat, pos: nat, names: Page)
    requires Live(flash, root, version, used, start, pos) && SameEntries(flash[root], names)
    ensures Recovers(flash, InodeMap(flash, root), names)
  {
  }

  lemma LiveRecoversItself(flash: Flash, root: nat, version: u32, used: set<nat>, start: nat, pos: nat)
    requires Live(flash, root, version, used, start, pos)
    ensures root < DF_PAGES && Recovers(flash, InodeMap(flash, root), flash[root])
  {
    SameAsItself(flash[root]);
    LiveIsRecovered(flash, root, version, used, start, pos, flash[root]);
  }

  lemma SameAsItself(p: Page)
    ensures SameEntries(p, p)
  {
  }

  lemma SameEntriesTransitive(p: Page, q: Page, r: Page)
    requires SameEntries(p, q) && SameEntries(q, r)
    ensures SameEntries(p, r)
  {
  }

  lemma RecoversSameNames(flash: Flash, m: seq<u16>, names: Page, names': Page)
    requires Recovers(flash, m, names) && SameEntries(names, names')
    ensures Recovers(flash, m, names')
  {
    hide SameEntries, Newest, ValidRoot;
    var root: nat :| Settled(flash, root) && InodeMap(flash, root) == m && SameEntries(flash[root], names);
    SameEntriesTransitive(flash[root], names, names');
  }

  /** Whatever is live metadata now was so before, or was free to be allocated. */
  ghost predicate MetaReused(used: set<nat>, start: nat, pos: nat, flash: Flash, root: nat, flash': Flash, root': nat)
    requires root < DF_PAGES && root' < DF_PAGES
  {
    forall l: nat :: Meta(flash', root', l) ==> Meta(flash, root, l) || !Protected(used, start, pos, l)
  }

  /** Programming an unprotected page with something that is no root page. */
  lemma OtherPageSaved(flash: Flash, root: nat, version: u32, used: set<nat>, start: nat, pos: nat, q: nat, content: Page)
    requires Live(flash, root, version, used, start, pos) && !PageHeader(content).root
    requires Allocated(used, start, pos, q)
    ensures var p := q % DF_PAGES;
      && pos < q && !Protected(used, start, pos, p) && !Meta(flash, root, p)
      && Live(flash[p := content], root, version, used, start, q)
      && InodeMap(flash[p := content], root) == InodeMap(flash, root)
      && Preserved(used, start, pos, flash, q, flash[p := content])
    ensures Protected(used, start, q, q % DF_PAGES)
    ensures flash[q % DF_PAGES := content][root] == flash[root]
    ensures forall l: nat :: Meta(flash[q % DF_PAGES := content], root, l) ==> Meta(flash, root, l)
  {
    AllocatedIsUnprotected(used, start, pos, q);
    SaveOther(flash, root, q % DF_PAGES, content);
    assert flash[q % DF_PAGES := content][root] == flash[root];
  }

  /** After the first of the two saves of an inode table change: the old map still stands,
      and the root page about to be sealed presents the new one. */
  lemma TableSaved(flash: Flash, root: nat, version: u32, used: set<nat>, start: nat, pos: nat, q: nat,
                   inode: nat, node: TableNode, tablePage: Page, content: Page)
    requires Live(flash, root, version, used, start, pos) && inode < FS_INODES
    requires Allocated(used, start, pos, q)
    requires var table := inode / FS_INODES_PER_TABLE;
      && table < FS_TABLES
      && TableNodeReplaced(tablePage, flash[TablePage(flash[root], table)], inode % FS_INODES_PER_TABLE, node)
      && TablePageReplaced(content, flash[root], table, q % DF_PAGES)
    ensures Live(flash[q % DF_PAGES := tablePage], root, version, used, start, q)
    ensures InodeMap(flash[q % DF_PAGES := tablePage], root) == InodeMap(flash, root)
    ensures Preserved(used, start, pos, flash, q, flash[q % DF_PAGES := tablePage])
    ensures flash[q % DF_PAGES := tablePage][root] == flash[root]
    ensures Sealable(flash[q % DF_PAGES := tablePage], used, start, q, content)
    ensures MapThrough(flash[q % DF_PAGES := tablePage], content) == InodeMap(flash, root)[inode := Target(node)]
    ensures forall l: nat :: TableOf(content, l) ==> l == q % DF_PAGES || Meta(flash, root, l)
  {
    OtherPageSaved(flash, root, version, used, start, pos, q, tablePage);
    TableReplaced(flash, root, q % DF_PAGES, inode, node, tablePage, content);
    forall t: nat | t < FS_TABLES
      ensures Protected(used, start, q, TablePage(content, t))
    {
      if t != inode / FS_INODES_PER_TABLE {
        assert Meta(flash, root, TablePage(flash[root], t));
      }
    }
  }

  /** The ghost ring position and the set of used pages follow the real allocator state. */
  ghost predicate Tracks(bitmap: Bitmap, used: set<nat>, lastFree: nat, start: nat, pos: nat) {
    && lastFree == pos % DF_PAGES && start <= pos
    && forall p: nat {:trigger Used(bitmap, p)} :: p < DF_PAGES ==> (Used(bitmap, p) <==> p in used)
  }

  /** One of the first `n` inode tables lies on `page`. */
  ghost predicate TableBelow(content: Page, n: nat, page: nat)
    requires n <= FS_TABLES
  {
    exists t: nat :: t < n && TablePage(content, t) == page
  }

  lemma AllTables(content: Page)
    ensures forall page :: !TableBelow(content, 0, page)
    ensures forall page :: TableBelow(content, FS_TABLES, page) <==> TableOf(content, page)
  {
  }

  lemma NextTable(content: Page, n: nat)
    requires n < FS_TABLES
    ensures forall page :: TableBelow(content, n + 1, page) <==> TableBelow(content, n, page) || TablePage(content, n) == page
  {
    forall page | TableBelow(content, n, page) || TablePage(content, n) == page
      ensures TableBelow(content, n + 1, page)
    {
    }
  }

  /** One of the first `n` directory entries is live and its inode points to `page`. */
  ghost predicate NamedBelow(flash: Flash, root: nat, n: nat, page: nat)
    requires Mounted(flash, root) && n <= FS_NODES_IN_ROOT
  {
    n > 0 && (
      NamedBelow(flash, root, n - 1, page)
      || (!Entry(flash[root], n - 1).unused && PageThrough(flash, flash[root], Entry(flash[root], n - 1).inode) == page != NONE))
  }

  // ---------- the filesystem ----------

  class Fs {
    var flash: Flash
    var buf1: Page
    /** Buffer 2 of the chip. */
    var bitmap: Bitmap
    /** The pages whose bit in buffer 2 is clear. */
    ghost var used: set<nat>
    var root: nat
    var version: u32
    var lastFree: nat

    /** Where on the ring the allocator started, and where it is. */
    ghost var start: nat
    ghost var pos: nat
    /** The flash contents after every page save: what a power failure can leave. */
    ghost var history: seq<Flash>

    ghost predicate Valid()
      reads this
    {
      Tracks(bitmap, used, lastFree, start, pos)
    }

    /** A mounted filesystem whose live metadata the allocator will not touch. */
    ghost predicate Ready()
      reads this
    {
      Valid() && Live(flash, root, version, used, start, pos)
    }

    /** How many pages the allocator still hands out before it wraps. */
    ghost function PagesLeft(): nat
      reads this`used, this`start, this`pos
    {
      |Ahead(used, start, pos)|
    }

    /** The allocator cannot wrap, because there is no other page than the last one it found. */
    ghost predicate IsExhausted()
      reads this`used, this`start, this`pos
    {
      Exhausted(used, start, pos)
    }

    /** Taking `n` pages, or failing to, does not make the allocator wrap. */
    ghost predicate HasRoom(n: nat)
      reads this`used, this`start, this`pos
    {
      PagesLeft() >= n || IsExhausted()
    }

    ghost function Map(): (m: seq<u16>)
      reads this
      requires Mounted(flash, root)
      ensures |m| == FS_INODES
    {
      InodeMap(flash, root)
    }

    method BufSave(page: nat)
      requires page < DF_PAGES
      modifies this`flash, this`history
      ensures flash == old(flash)[page := buf1]
      ensures history == old(history) + [flash]
    {
      var programmed := flash[page := buf1];
      assert forall i :: 0 <= i < |programmed| ==> |programmed[i]| == DF_PAGESIZE;
      flash := programmed;
      history := history + [flash];
    }

    /** `fs_new_page` */
    method NewPage() returns (page: nat)
      requires Valid()
      modifies this`lastFree, this`pos
      ensures Valid()
      ensures match NextFree(FreePositions(used), old(pos))
        case None => page == NONE && pos == old(pos)
        case Some(q) => page == q % DF_PAGES && pos == q
    {
      page := (lastFree + 1) % DF_PAGES;
      ghost var q := pos + 1;
      NextOnRing(pos);
      while Used(bitmap, page) && page != lastFree
        invariant pos == old(pos) && lastFree == old(lastFree)
        invariant pos < q <= pos + DF_PAGES && page == q % DF_PAGES
        invariant NextFree(FreePositions(used), pos) == FreeFrom(FreePositions(used), pos, q)
        decreases pos + DF_PAGES - q
      {
        SamePage(used, pos);
        NextOnRing(q);
        page := (page + 1) % DF_PAGES;
        q := q + 1;
      }
      if page == lastFree {
        if q < pos + DF_PAGES {
          DifferentPages(pos, q);
        }
        page := NONE;
      } else {
        SamePage(used, pos);
        lastFree := page;
        pos := q;
      }
    }

    /** `fs_new_page`, before the allocator wraps. */
    method Allocate() returns (page: nat)
      requires Valid() && HasRoom(1)
      modifies this`lastFree, this`pos
      ensures Valid()
      ensures page == NONE <==> old(PagesLeft()) == 0
      ensures Takes(used, start, old(pos), pos, 1, page != NONE)
      ensures page == NONE ==> pos == old(pos)
      ensures page != NONE ==> page == pos % DF_PAGES && Allocated(used, start, old(pos), pos)
    {
      hide NextFree, FreePositions, FreePages;
      NextIsAhead(used, start, pos);
      page := NewPage();
    }

    /** `fs_scan`: find the newest root page, or report that there is none. */
    method Scan() returns (found: bool)
      modifies this`root, this`version, this`buf1
      ensures found <==> exists r :: Newest(flash, r)
      ensures found ==> Newest(flash, root) && version == PageVersion(flash[root])
      ensures !found ==> version == 0
      ensures forall p: nat :: p < DF_PAGES && ValidRoot(flash[p]) ==> PageVersion(flash[p]) <= version
    {
      version := 0;
      for p := 0 to DF_PAGES
        invariant version == 0 ==> forall k: nat :: k < p && ValidRoot(flash[k]) ==> PageVersion(flash[k]) == 0
        invariant version > 0 ==> root < p && ValidRoot(flash[root]) && PageVersion(flash[root]) == version
        invariant version > 0 ==> forall k: nat :: k < p && ValidRoot(flash[k]) && k != root ==>
          PageVersion(flash[k]) < version || (PageVersion(flash[k]) == version && root < k)
      {
        var page := flash[p];
        if !PageHeader(page).unused && PageHeader(page).root {
          buf1 := page;
          var crc := CrcByteOf(buf1);
          var crc2 := page[FS_CRC_OFFSET];
          if crc == crc2 && PageVersion(page) > version {
            version := PageVersion(page);
            root := p;
          }
        }
      }
      found := version >= 1;
      assert found ==> Newest(flash, root);
    }

    /** `fs_increment`: seal buffer 1 under the next version and program it to a free page,
        which is the root page from then on. When the version wraps, a scan still finds the
        old root page. */
    method Increment() returns (status: Status)
      requires Ready() && HasRoom(1) && Sealable(flash, used, start, pos, buf1)
      modifies this`flash, this`history, this`buf1, this`root, this`version, this`lastFree, this`pos
      ensures Valid() && version == (old(version) + 1) % 0x1_0000_0000
      ensures status == if old(PagesLeft()) >= 1 then FS_OK else FS_BADPAGE
      ensures Takes(used, start, old(pos), pos, 1, status == FS_OK)
      ensures status == FS_OK ==> history == old(history) + [flash]
      ensures status != FS_OK ==> flash == old(flash) && history == old(history) && root == old(root) && pos == old(pos)
      ensures Preserved(used, start, old(pos), old(flash), pos, flash)
      ensures status == FS_OK ==> root < DF_PAGES && !Protected(used, start, old(pos), root)
      ensures old(version) < MAX_VERSION ==> Ready()
      ensures old(version) < MAX_VERSION && status == FS_OK ==>
        && Map() == MapThrough(old(flash), old(buf1)) && SameEntries(flash[root], old(buf1))
        && forall l: nat :: Meta(flash, root, l) ==> l == root || TableOf(old(buf1), l)
      ensures old(version) == MAX_VERSION ==> Recovers(flash, old(Map()), old(flash[root]))
    {
      hide Settled, Meta, TableOf, Protected, MapThrough, InodeMap, Sealable, SameEntries, SameTables, ValidRoot, PageHeader, NextFree, Allocated, Ahead, Exhausted, Recovers, Preserved, PageVersion, TablesInRange;
      LiveRecoversItself(flash, root, version, used, start, pos);
      version := (version + 1) % 0x1_0000_0000;
      Seal();
      var page := Allocate();
      if page == NONE {
        PreservesItself(used, start, pos, flash);
        return FS_BADPAGE;
      }
      if version > 0 {
        RootTakesOver(flash, root, old(version), used, start, old(pos), pos, old(buf1), buf1);
      } else {
        RootIsLost(flash, root, old(version), used, start, old(pos), pos, old(buf1), buf1);
      }
      BufSave(page);
      root := page;
      status := FS_OK;
    }

    /** The version and the checksum that `fs_increment` writes into the buffered root page. */
    method Seal()
      modifies this`buf1
      ensures IsSealed(buf1, old(buf1), version)
    {
      buf1 := Put(buf1, 4, Bytes32(version));
      buf1 := Put(buf1, FS_CRC_OFFSET, [CrcByteOf(buf1)]);
      SealedPage(old(buf1), version);
    }

    /** Load the table of an inode into buffer 1 and replace the entry of the inode. */
    method EditTable(inode: nat, node: TableNode)
      requires Mounted(flash, root) && inode < FS_INODES
      modifies this`buf1
      ensures inode / FS_INODES_PER_TABLE < FS_TABLES
      ensures TableNodeReplaced(buf1, flash[TablePage(flash[root], inode / FS_INODES_PER_TABLE)], inode % FS_INODES_PER_TABLE, node)
    {
      var tablePage := flash[TablePage(flash[root], inode / FS_INODES_PER_TABLE)];
      buf1 := tablePage;
      buf1 := Put(buf1, FS_DATA_OFFSET + 2 * (inode % FS_INODES_PER_TABLE), TableNodeBytes(node));
      PutTableNode(tablePage, inode % FS_INODES_PER_TABLE, node);
    }

    /** Load the root page into buffer 1 and replace the address of one table. */
    method EditRoot(table: nat, page: u16)
      requires root < DF_PAGES && table < FS_TABLES
      modifies this`buf1
      ensures TablePageReplaced(buf1, flash[root], table, page)
    {
      buf1 := flash[root];
      buf1 := Put(buf1, FS_TABLE_OFFSET + 2 * table, Bytes16(page));
      PutTablePage(flash[root], table, page);
    }

    /** `fs_update_inodetable`: point an inode to a page, or to none, by writing a new table
        page and then a new root page. It takes two pages and one version. A power failure at
        any moment leaves the old inode map or the new one; the new one differs at this inode
        alone. */
    method UpdateInodeTable(inode: nat, page: u16) returns (status: Status)
      requires Ready() && HasRoom(2) && version < MAX_VERSION
      requires inode < FS_INODES && (page < DF_PAGES || page == NONE)
      modifies this`flash, this`history, this`buf1, this`root, this`version, this`lastFree, this`pos
      ensures Ready() && old(version) <= version <= old(version) + 1
      ensures status == if old(PagesLeft()) >= 2 then FS_OK else FS_BADPAGE
      ensures status == FS_OK ==> version == old(version) + 1
      ensures Takes(used, start, old(pos), pos, 2, status == FS_OK)
      ensures Map() == if status == FS_OK then old(Map())[inode := page] else old(Map())
      ensures old(history) <= history
      ensures CrashSafe(history, |old(history)|, old(Map()), old(Map())[inode := page], old(flash[root]), used, start, old(pos), old(flash))
      ensures SameEntries(flash[root], old(flash)[old(root)])
      ensures Preserved(used, start, old(pos), old(flash), pos, flash)
      ensures MetaReused(used, start, old(pos), old(flash), old(root), flash, root)
    {
      hide Newest, ValidRoot, TablePage, PageHeader, PageVersion, Meta, TableOf, Protected, MapThrough, InodeMap, Sealable, SameTables, SameEntries, NextFree, CrashSafe, Recovers, SameProtected, Ahead, Exhausted, Tracks;
      ghost var before, after, names := Map(), Map()[inode := page], flash[root];
      NothingSaved(history, before, after, names, used, start, pos, flash);
      SameAsItself(names);
      var saved := SaveTable(inode, page);
      ghost var there, between, content := pos, flash, buf1;
      if !saved {
        TakesNoMore(used, start, old(pos), pos, 1, 2);
        return FS_BADPAGE;
      }
      LiveIsRecovered(flash, root, version, used, start, pos, names);
      OneMoreSave(old(history), |old(history)|, before, after, names, used, start, old(pos), old(flash), pos, flash);
      status := Increment();
      PreservedTransitive(used, start, old(pos), old(flash), there, between, pos, flash);
      TakesMore(used, start, old(pos), there, pos, 1, 1, status == FS_OK);
      if status == FS_OK {
        SameEntriesTransitive(flash[root], content, names);
        LiveIsRecovered(flash, root, version, used, start, pos, names);
        OneMoreSave(old(history) + [between], |old(history)|, before, after, names, used, start, old(pos), old(flash), pos, flash);
      }
      forall l: nat | Meta(flash, root, l) && Protected(used, start, old(pos), l)
        ensures Meta(old(flash), old(root), l)
      {
        ProtectedGrows(used, start, old(pos), there, l);
      }
    }

    /** The first half of `fs_update_inodetable`: write the new table page, and prepare the
        root page that names it. The old map still stands. */
    method SaveTable(inode: nat, page: u16) returns (saved: bool)
      requires Ready() && HasRoom(1)
      requires inode < FS_INODES && (page < DF_PAGES || page == NONE)
      modifies this`flash, this`history, this`buf1, this`lastFree, this`pos
      ensures Ready() && Map() == old(Map())
      ensures Takes(used, start, old(pos), pos, 1, saved)
      ensures !saved ==> pos == old(pos) && flash == old(flash) && history == old(history)
      ensures saved ==> history == old(history) + [flash]
      ensures flash[root] == old(flash[root])
      ensures Preserved(used, start, old(pos), old(flash), pos, flash)
      ensures MetaReused(used, start, old(pos), old(flash), old(root), flash, root)
      ensures saved ==>
        && Sealable(flash, used, start, pos, buf1) && SameEntries(buf1, flash[root])
        && MapThrough(flash, buf1) == Map()[inode := page]
        && forall l: nat :: TableOf(buf1, l) ==> Meta(old(flash), root, l) || !Protected(used, start, old(pos), l)
    {
      hide Newest, Meta, TableOf, Protected, MapThrough, InodeMap, Sealable, SameTables, SameEntries, ValidRoot, TablePage, PageHeader, Entry, InodeNode, NextFree, Allocated, SameProtected, Preserved, Ahead, Exhausted;
      var newPage := Allocate();
      if newPage == NONE {
        PreservesItself(used, start, pos, flash);
        return false;
      }
      // the fields that the original leaves as it found them in fresh memory
      var node: TableNode := *;
      if page == NONE {
        node := node.(unused := true);
      } else {
        node := node.(unused := false, page := page);
      }
      EditTable(inode, node);
      ghost var tablePage := buf1;
      BufSave(newPage);
      OtherPageSaved(old(flash), root, version, used, start, old(pos), pos, tablePage);
      EditRoot(inode / FS_INODES_PER_TABLE, newPage);
      TableSaved(old(flash), root, version, used, start, old(pos), pos, inode, node, tablePage, buf1);
      saved := true;
    }

    /** `fs_mark` */
    method Mark(page: nat, isFree: bool)
      requires Valid() && page < DF_PAGES
      modifies this`bitmap, this`used
      ensures Valid()
      ensures used == if isFree then old(used) - {page} else old(used) + {page}
    {
      var b := bitmap[page / 8];
      bitmap := bitmap[page / 8 := WithBit(b, page % 8, isFree)];
      used := if isFree then used - {page} else used + {page};
      forall p: nat | p < DF_PAGES
        ensures Used(bitmap, p) <==> p in used
      {
        assert old(Used(bitmap, p)) <==> p in old(used);
        if p / 8 == page / 8 {
          WithBitSelects(b, page % 8, isFree, p % 8);
        }
      }
    }

    /** The first page of a file that the directory names. */
    ghost predicate FirstPage(page: nat)
      reads this
      requires Mounted(flash, root)
    {
      NamedBelow(flash, root, FS_NODES_IN_ROOT, page)
    }

    /** Set every bit of buffer 2: no page is known to be used. */
    method ClearBitmap()
      modifies this`bitmap, this`used, this`lastFree, this`start, this`pos
      ensures Valid() && used == {} && start == 0 && pos == 0
    {
      lastFree := 0;
      start, pos, used := 0, 0, {};
      var b := bitmap;
      for i := 0 to DF_PAGESIZE
        invariant |b| == DF_PAGESIZE && forall k :: 0 <= k < i ==> b[k] == 0xff
      {
        b := b[i := 0xff];
      }
      bitmap := b;
    }

    method MarkLive()
      requires Valid() && used == {} && Mounted(flash, root)
      modifies this`bitmap, this`used
      ensures Valid()
      ensures forall page :: page in used <==> Meta(flash, root, page) || FirstPage(page)
    {
      hide ValidRoot, PageHeader, Used, IsSet, TableBelow, TableOf;
      Mark(root, false);
      AllTables(flash[root]);
      for i := 0 to FS_TABLES
        invariant Valid()
        invariant forall page :: page in used <==> page == root || TableBelow(flash[root], i, page)
      {
        Mark(TablePage(flash[root], i), false);
        NextTable(flash[root], i);
      }
      for i := 0 to FS_NODES_IN_ROOT
        invariant Valid()
        invariant forall page :: page in used <==> Meta(flash, root, page) || NamedBelow(flash, root, i, page)
      {
        var node := Entry(flash[root], i);
        if !node.unused {
          var page := PageThrough(flash, flash[root], node.inode);
          if page != NONE {
            Mark(page, false);
          }
        }
      }
    }

    /** `fs_new_inode`: the first inode that points nowhere, or NONE. */
    method NewInode() returns (inode: nat)
      requires Mounted(flash, root)
      ensures inode != NONE ==> inode < FS_INODES && Map()[inode] == NONE && forall k: nat :: k < inode ==> Map()[k] != NONE
      ensures inode == NONE ==> forall k: nat :: k < FS_INODES ==> Map()[k] != NONE
    {
      for i := 0 to FS_TABLES
        invariant forall k: nat :: k < i * FS_INODES_PER_TABLE ==> Map()[k] != NONE
      {
        var page := TablePage(flash[root], i);
        for j := 0 to FS_INODES_PER_TABLE
          invariant forall k: nat :: k < i * FS_INODES_PER_TABLE + j ==> Map()[k] != NONE
        {
          inode := i * FS_INODES_PER_TABLE + j;
          assert inode / FS_INODES_PER_TABLE == i && inode % FS_INODES_PER_TABLE == j;
          assert Map()[inode] == Target(InodeNode(flash[page], j));
          if InodeNode(flash[page], j).unused {
            return;
          }
        }
      }
      inode := NONE;
    }
  }
}
