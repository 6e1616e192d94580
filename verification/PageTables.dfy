/** The N-level page table of the memory module: recursive construction with
    preorder ids, breadth-first frame assignment, look-up by id and the walk the
    CPU does over it. Tables are heap objects; a snapshot of their entries (a map)
    carries the proofs. */
module PageTables {
  import opened Arithmetic

  const INVALID_FRAME_NUMBER := -1

  datatype Entry =
    | LastLevel(frameNumber: int)
    | Inner(nextTableId: int, nextTable: PageTable)

  class PageTable {
    const tableId: int
    var entries: seq<Entry>

    constructor (id: int)
      ensures tableId == id && entries == []
    {
      tableId := id;
      entries := [];
    }
  }

  /** The number of entries per table and the number of levels. */
  datatype Geometry = Geometry(entriesPerTable: nat, levels: nat) {
    predicate Valid() {
      entriesPerTable >= 1 && levels >= 1
    }

    /** The height of the root: a table of height 0 is a last-level table. */
    function Height(): nat
      requires Valid()
    {
      levels - 1
    }

    function Pages(): nat {
      Pow(entriesPerTable, levels)
    }
  }

  /** The contents of every table of a set, taken at one moment. */
  ghost function Snapshot(tables: set<PageTable>): map<PageTable, seq<Entry>>
    reads tables
  {
    map t | t in tables :: t.entries
  }

  // --- Shape and numbering -------------------------------------------------

  /** How many tables a full subtree of the given height has. */
  function TreeSize(n: nat, height: nat): nat {
    if height == 0 then 1 else 1 + Times(n, TreeSize(n, height - 1))
  }

  /** The preorder id of child `i` of a table. */
  function ChildId(n: nat, height: nat, id: int, i: nat): int
    requires height > 0
  {
    id + 1 + Times(i, TreeSize(n, height - 1))
  }

  /** `t` is the root of a full subtree whose ids are numbered in preorder from `id`. */
  ghost predicate Shape(n: nat, m: map<PageTable, seq<Entry>>, t: PageTable, height: nat, id: int)
    decreases height
  {
    && t in m && t.tableId == id && |m[t]| == n
    && forall i: nat | i < n :: EntryShape(n, m, m[t][i], height, id, i)
  }

  ghost predicate EntryShape(n: nat, m: map<PageTable, seq<Entry>>, e: Entry, height: nat, id: int, i: nat)
    decreases height, 0
  {
    if height == 0 then
      e.LastLevel?
    else
      && e.Inner?
      && e.nextTableId == ChildId(n, height, id, i)
      && Shape(n, m, e.nextTable, height - 1, ChildId(n, height, id, i))
  }

  /** Every id of a child's subtree lies inside its own block, and blocks follow each other. */
  lemma ChildBlocks(n: nat, height: nat, id: int, i: nat)
    requires height > 0 && i < n
    ensures id < ChildId(n, height, id, i)
    ensures ChildId(n, height, id, i) + TreeSize(n, height - 1) <= id + TreeSize(n, height)
    ensures forall j: nat | i < j < n ::
              ChildId(n, height, id, i) + TreeSize(n, height - 1) <= ChildId(n, height, id, j)
  {
    TimesGap(i, n, TreeSize(n, height - 1));
    forall j: nat | i < j < n
      ensures ChildId(n, height, id, i) + TreeSize(n, height - 1) <= ChildId(n, height, id, j)
    {
      TimesGap(i, j, TreeSize(n, height - 1));
    }
  }

  /** `target` falls in the block of ids of child `i`. */
  predicate InBlock(n: nat, height: nat, id: int, i: nat, target: int)
    requires height > 0
  {
    ChildId(n, height, id, i) <= target < ChildId(n, height, id, i) + TreeSize(n, height - 1)
  }

  /** The blocks of the first `i` children fill the ids up to the next child's. */
  lemma {:induction false} BlocksCover(n: nat, height: nat, id: int, i: nat, target: int) returns (j: nat)
    requires height > 0 && id < target < ChildId(n, height, id, i)
    ensures j < i && InBlock(n, height, id, j, target)
  {
    if InBlock(n, height, id, i - 1, target) {
      j := i - 1;
    } else {
      j := BlocksCover(n, height, id, i - 1, target);
    }
  }

  /** The child whose block an id of the subtree falls in. */
  ghost function BlockOf(n: nat, height: nat, id: int, target: int): (i: nat)
    requires height > 0 && id < target < id + TreeSize(n, height)
    ensures i < n && InBlock(n, height, id, i, target)
  {
    assert exists i: nat :: i < n && InBlock(n, height, id, i, target) by {
      var j := BlocksCover(n, height, id, n, target);
    }
    var i: nat :| i < n && InBlock(n, height, id, i, target);
    i
  }

  /** The blocks are disjoint. */
  lemma BlockUnique(n: nat, height: nat, id: int, target: int, i: nat)
    requires height > 0 && id < target < id + TreeSize(n, height)
    requires i < n && InBlock(n, height, id, i, target)
    ensures BlockOf(n, height, id, target) == i
  {
    var j := BlockOf(n, height, id, target);
    TimesGap(i, j, TreeSize(n, height - 1));
    TimesGap(j, i, TreeSize(n, height - 1));
  }

  // --- Nodes by position ---------------------------------------------------

  /** The id of the `q`-th table of a level, counting from the left. */
  function NodeId(n: nat, rootHeight: nat, level: nat, q: nat): int
    requires n > 0 && level <= rootHeight
  {
    if level == 0 then 1
    else ChildId(n, rootHeight - level + 1, NodeId(n, rootHeight, level - 1, q / n), q % n)
  }

  /** The `q`-th table of a level: entry `q % n` of the `q / n`-th table one level up. */
  ghost function NodeAt(n: nat, m: map<PageTable, seq<Entry>>, root: PageTable, rootHeight: nat, level: nat, q: nat): (t: PageTable)
    requires n > 0 && level <= rootHeight && Shape(n, m, root, rootHeight, 1)
    ensures Shape(n, m, t, rootHeight - level, NodeId(n, rootHeight, level, q))
    decreases level
  {
    if level == 0 then root
    else
      var parent := NodeAt(n, m, root, rootHeight, level - 1, q / n);
      assert EntryShape(n, m, m[parent][q % n], rootHeight - level + 1, NodeId(n, rootHeight, level - 1, q / n), q % n);
      m[parent][q % n].nextTable
  }

  /** Ids grow from left to right along a level. */
  lemma {:induction false} NodeIdOrder(n: nat, rootHeight: nat, level: nat, q: nat, r: nat)
    requires n > 0 && level <= rootHeight && q < r < Pow(n, level)
    ensures NodeId(n, rootHeight, level, q) + TreeSize(n, rootHeight - level) <= NodeId(n, rootHeight, level, r)
    decreases level
  {
    if level > 0 {
      var h := rootHeight - level + 1;
      var pq := NodeId(n, rootHeight, level - 1, q / n);
      var pr := NodeId(n, rootHeight, level - 1, r / n);
      ParentPosition(n, level, q, r);
      ChildBlocks(n, h, pq, q % n);
      if q / n != r / n {
        NodeIdOrder(n, rootHeight, level - 1, q / n, r / n);
        ChildBlocks(n, h, pr, r % n);
      }
    }
  }

  // --- Look-up by id -------------------------------------------------------

  /** The table with an id, found by its block instead of by searching: null outside the subtree. */
  ghost function Locate(n: nat, m: map<PageTable, seq<Entry>>, t: PageTable, height: nat, id: int, target: int): (r: PageTable?)
    requires Shape(n, m, t, height, id)
    ensures r != null <==> id <= target < id + TreeSize(n, height)
    ensures r != null ==> r.tableId == target && r in m && |m[r]| == n
    decreases height
  {
    if target == id then t
    else if height == 0 || target < id || target >= id + TreeSize(n, height) then null
    else
      var i := BlockOf(n, height, id, target);
      assert EntryShape(n, m, m[t][i], height, id, i);
      Locate(n, m, m[t][i].nextTable, height - 1, ChildId(n, height, id, i), target)
  }

  /** Searching a node's own block from the root is searching it from the node. */
  lemma {:induction false} LocateFromNode(n: nat, m: map<PageTable, seq<Entry>>, root: PageTable, rootHeight: nat, level: nat, q: nat, target: int)
    requires n > 0 && level <= rootHeight && Shape(n, m, root, rootHeight, 1)
    requires NodeId(n, rootHeight, level, q) <= target < NodeId(n, rootHeight, level, q) + TreeSize(n, rootHeight - level)
    ensures Locate(n, m, root, rootHeight, 1, target)
         == Locate(n, m, NodeAt(n, m, root, rootHeight, level, q), rootHeight - level, NodeId(n, rootHeight, level, q), target)
    decreases level
  {
    if level > 0 {
      var h := rootHeight - level + 1;
      var id := NodeId(n, rootHeight, level - 1, q / n);
      ChildBlocks(n, h, id, q % n);
      LocateFromNode(n, m, root, rootHeight, level - 1, q / n, target);
      BlockUnique(n, h, id, target, q % n);
    }
  }

  /** The reply of the memory module to one page-entry request. */
  ghost function PageEntry(g: Geometry, m: map<PageTable, seq<Entry>>, root: PageTable, tableId: int, entryIndex: int): int
    requires g.Valid() && Shape(g.entriesPerTable, m, root, g.Height(), 1)
  {
    var t := Locate(g.entriesPerTable, m, root, g.Height(), 1, tableId);
    if t == null || !(0 <= entryIndex < g.entriesPerTable) then INVALID_FRAME_NUMBER
    else if m[t][entryIndex].LastLevel? then m[t][entryIndex].frameNumber
    else m[t][entryIndex].nextTableId
  }

  /** The entry a page number ends in, by position. */
  ghost function FrameAt(g: Geometry, m: map<PageTable, seq<Entry>>, root: PageTable, page: nat): int
    requires g.Valid() && Shape(g.entriesPerTable, m, root, g.Height(), 1)
  {
    var n := g.entriesPerTable;
    var leaf := NodeAt(n, m, root, g.Height(), g.Height(), page / n);
    assert EntryShape(n, m, m[leaf][page % n], 0, leaf.tableId, page % n);
    m[leaf][page % n].frameNumber
  }

  // --- The table as a flat list --------------------------------------------

  /** The tables the inner entries of a list of entries point to, in order. */
  ghost function KidsOf(entries: seq<Entry>): seq<PageTable> {
    if entries == [] then []
    else
      var front, last := entries[..|entries| - 1], entries[|entries| - 1];
      KidsOf(front) + if last.Inner? then [last.nextTable] else []
  }

  ghost function EntriesOf(m: map<PageTable, seq<Entry>>, t: PageTable): seq<Entry> {
    if t in m then m[t] else []
  }

  ghost function Children(m: map<PageTable, seq<Entry>>, ts: seq<PageTable>): seq<PageTable> {
    if ts == [] then []
    else KidsOf(EntriesOf(m, ts[0])) + Children(m, ts[1..])
  }

  /** All tables of a level, from left to right. */
  ghost function Level(m: map<PageTable, seq<Entry>>, root: PageTable, level: nat): seq<PageTable> {
    if level == 0 then [root] else Children(m, Level(m, root, level - 1))
  }

  /** The frame numbers of a table's entries. */
  ghost function FramesOf(entries: seq<Entry>): (frames: seq<int>)
    ensures |frames| == |entries|
  {
    seq(|entries|, c requires 0 <= c < |entries| => if entries[c].LastLevel? then entries[c].frameNumber else INVALID_FRAME_NUMBER)
  }

  ghost function Flatten(m: map<PageTable, seq<Entry>>, ts: seq<PageTable>): seq<int> {
    if ts == [] then []
    else FramesOf(EntriesOf(m, ts[0])) + Flatten(m, ts[1..])
  }

  /** The whole page table as a flat list: one frame number per page. */
  ghost function Contents(m: map<PageTable, seq<Entry>>, root: PageTable, rootHeight: nat): seq<int> {
    Flatten(m, Level(m, root, rootHeight))
  }

  lemma {:induction false} KidsAreNextTables(entries: seq<Entry>)
    requires forall c: nat | c < |entries| :: entries[c].Inner?
    ensures |KidsOf(entries)| == |entries|
    ensures forall c: nat | c < |entries| :: KidsOf(entries)[c] == entries[c].nextTable
  {
    if entries != [] {
      KidsAreNextTables(entries[..|entries| - 1]);
    }
  }

  ghost predicate AllWithKids(n: nat, m: map<PageTable, seq<Entry>>, ts: seq<PageTable>) {
    forall t | t in ts :: |KidsOf(EntriesOf(m, t))| == n
  }

  lemma {:induction false} ChildrenLength(n: nat, m: map<PageTable, seq<Entry>>, ts: seq<PageTable>)
    requires AllWithKids(n, m, ts)
    ensures |Children(m, ts)| == Times(|ts|, n)
  {
    if ts != [] {
      ChildrenLength(n, m, ts[1..]);
    }
  }

  /** In a list of tables with `n` children each, child `c` of table `k` is at `k * n + c`. */
  lemma {:induction false} ChildrenAt(n: nat, m: map<PageTable, seq<Entry>>, ts: seq<PageTable>, k: nat, c: nat, q: nat)
    requires AllWithKids(n, m, ts) && k < |ts| && c < n && q == Times(k, n) + c
    ensures q < |Children(m, ts)| && Children(m, ts)[q] == KidsOf(EntriesOf(m, ts[k]))[c]
  {
    if k > 0 {
      ChildrenAt(n, m, ts[1..], k - 1, c, q - n);
    }
  }

  ghost predicate AllWithEntries(n: nat, m: map<PageTable, seq<Entry>>, ts: seq<PageTable>) {
    forall t | t in ts :: |EntriesOf(m, t)| == n
  }

  lemma {:induction false} FlattenLength(n: nat, m: map<PageTable, seq<Entry>>, ts: seq<PageTable>)
    requires AllWithEntries(n, m, ts)
    ensures |Flatten(m, ts)| == Times(|ts|, n)
  {
    if ts != [] {
      FlattenLength(n, m, ts[1..]);
    }
  }

  lemma {:induction false} FlattenAt(n: nat, m: map<PageTable, seq<Entry>>, ts: seq<PageTable>, k: nat, c: nat, q: nat)
    requires AllWithEntries(n, m, ts) && k < |ts| && c < n && q == Times(k, n) + c
    ensures q < |Flatten(m, ts)| && Flatten(m, ts)[q] == FramesOf(EntriesOf(m, ts[k]))[c]
  {
    if k > 0 {
      FlattenAt(n, m, ts[1..], k - 1, c, q - n);
    }
  }

  /** A position of a level below splits into a position above and an entry. */
  lemma SplitPosition(n: nat, level: nat, q: nat)
    requires n > 0 && level > 0
    ensures q == Times(q / n, n) + q % n
    ensures q < Pow(n, level) <==> q / n < Pow(n, level - 1)
    ensures Times(Pow(n, level - 1), n) == Pow(n, level)
  {
    TimesIsProduct(q / n, n);
    TimesIsProduct(Pow(n, level - 1), n);
    DivBound(q, n, Pow(n, level - 1));
    assert q == n * (q / n) + q % n;
    assert Pow(n, level - 1) * n == n * Pow(n, level - 1);
  }

  ghost predicate LevelInOrder(n: nat, m: map<PageTable, seq<Entry>>, root: PageTable, rootHeight: nat, level: nat, ts: seq<PageTable>)
    requires n > 0 && level <= rootHeight && Shape(n, m, root, rootHeight, 1)
  {
    && |ts| == Pow(n, level)
    && forall q: nat | q < |ts| :: ts[q] == NodeAt(n, m, root, rootHeight, level, q)
  }

  /** A level lists its tables in the order of their digits. */
  lemma {:induction false} LevelByDigits(n: nat, m: map<PageTable, seq<Entry>>, root: PageTable, rootHeight: nat, level: nat)
    requires n > 0 && level <= rootHeight && Shape(n, m, root, rootHeight, 1)
    ensures LevelInOrder(n, m, root, rootHeight, level, Level(m, root, level))
  {
    if level > 0 {
      var above := Level(m, root, level - 1);
      LevelByDigits(n, m, root, rootHeight, level - 1);
      LevelHasKids(n, m, root, rootHeight, level - 1);
      ChildrenLength(n, m, above);
      SplitPosition(n, level, 0);
      forall q: nat | q < Pow(n, level)
        ensures Level(m, root, level)[q] == NodeAt(n, m, root, rootHeight, level, q)
      {
        LevelEntry(n, m, root, rootHeight, level, q);
      }
    }
  }

  lemma LevelHasKids(n: nat, m: map<PageTable, seq<Entry>>, root: PageTable, rootHeight: nat, level: nat)
    requires n > 0 && level < rootHeight && Shape(n, m, root, rootHeight, 1)
    requires LevelInOrder(n, m, root, rootHeight, level, Level(m, root, level))
    ensures AllWithKids(n, m, Level(m, root, level))
  {
    forall t | t in Level(m, root, level)
      ensures |KidsOf(EntriesOf(m, t))| == n
    {
      var q: nat :| q < |Level(m, root, level)| && Level(m, root, level)[q] == t;
      InnerTableKids(n, m, t, rootHeight - level, NodeId(n, rootHeight, level, q));
    }
  }

  lemma LevelEntry(n: nat, m: map<PageTable, seq<Entry>>, root: PageTable, rootHeight: nat, level: nat, q: nat)
    requires n > 0 && 0 < level <= rootHeight && Shape(n, m, root, rootHeight, 1)
    requires LevelInOrder(n, m, root, rootHeight, level - 1, Level(m, root, level - 1)) && q < Pow(n, level)
    requires AllWithKids(n, m, Level(m, root, level - 1))
    ensures q < |Level(m, root, level)| && Level(m, root, level)[q] == NodeAt(n, m, root, rootHeight, level, q)
  {
    var above := Level(m, root, level - 1);
    SplitPosition(n, level, q);
    ChildrenAt(n, m, above, q / n, q % n, q);
    InnerTableKids(n, m, above[q / n], rootHeight - level + 1, NodeId(n, rootHeight, level - 1, q / n));
  }

  lemma InnerTableKids(n: nat, m: map<PageTable, seq<Entry>>, t: PageTable, height: nat, id: int)
    requires height > 0 && Shape(n, m, t, height, id)
    ensures |KidsOf(EntriesOf(m, t))| == n
    ensures forall c: nat | c < n :: m[t][c].Inner? && KidsOf(m[t])[c] == m[t][c].nextTable
  {
    forall c: nat | c < n
      ensures m[t][c].Inner?
    {
      assert EntryShape(n, m, m[t][c], height, id, c);
    }
    KidsAreNextTables(m[t]);
  }

  /** The flat list holds each page's entry at the page's own index. */
  lemma ContentsByDigits(g: Geometry, m: map<PageTable, seq<Entry>>, root: PageTable)
    requires g.Valid() && Shape(g.entriesPerTable, m, root, g.Height(), 1)
    ensures |Contents(m, root, g.Height())| == g.Pages()
    ensures forall page: nat | page < g.Pages() :: Contents(m, root, g.Height())[page] == FrameAt(g, m, root, page)
  {
    var n := g.entriesPerTable;
    var leaves := Level(m, root, g.Height());
    LevelByDigits(n, m, root, g.Height(), g.Height());
    SplitPosition(n, g.levels, 0);
    assert AllWithEntries(n, m, leaves) by {
      forall t | t in leaves
        ensures |EntriesOf(m, t)| == n
      {
        var q: nat :| q < |leaves| && leaves[q] == t;
      }
    }
    FlattenLength(n, m, leaves);
    forall page: nat | page < g.Pages()
      ensures Contents(m, root, g.Height())[page] == FrameAt(g, m, root, page)
    {
      SplitPosition(n, g.levels, page);
      FlattenAt(n, m, leaves, page / n, page % n, page);
    }
  }

  // --- The walk by ids -----------------------------------------------------

  /** The walk from `level` on: one request per level, each answered with the next
      table id, the last one with the frame; a zero answer stops the walk. */
  ghost function IdWalk(g: Geometry, m: map<PageTable, seq<Entry>>, root: PageTable, level: nat, tableId: int, page: nat): int
    requires g.Valid() && Shape(g.entriesPerTable, m, root, g.Height(), 1)
    requires 1 <= level <= g.levels + 1
    decreases g.levels + 1 - level
  {
    if level > g.levels then tableId
    else
      var divisor := Pow(g.entriesPerTable, g.levels - level);
      PowPositive(g.entriesPerTable, g.levels - level);
      var next := PageEntry(g, m, root, tableId, (page / divisor) % g.entriesPerTable);
      if next == 0 then 0 else IdWalk(g, m, root, level + 1, next, page)
  }

  /** A request for the table the page's digits lead to is answered with the next table's id. */
  lemma WalkStep(g: Geometry, m: map<PageTable, seq<Entry>>, root: PageTable, level: nat, q: nat)
    requires g.Valid() && Shape(g.entriesPerTable, m, root, g.Height(), 1)
    requires level <= g.Height()
    ensures var n := g.entriesPerTable;
            var reply := PageEntry(g, m, root, NodeId(n, g.Height(), level, q / n), q % n);
            if level < g.Height() then reply == NodeId(n, g.Height(), level + 1, q) > 0
            else reply == FrameAt(g, m, root, q)
  {
    var n := g.entriesPerTable;
    var id := NodeId(n, g.Height(), level, q / n);
    var node := NodeAt(n, m, root, g.Height(), level, q / n);
    LocateFromNode(n, m, root, g.Height(), level, q / n, id);
    assert EntryShape(n, m, m[node][q % n], g.Height() - level, id, q % n);
    NodeIdPositive(n, g.Height(), level, q / n);
    if level < g.Height() {
      ChildBlocks(n, g.Height() - level, id, q % n);
    }
  }

  lemma NodeIdPositive(n: nat, rootHeight: nat, level: nat, q: nat)
    requires n > 0 && level <= rootHeight
    ensures NodeId(n, rootHeight, level, q) > 0
  {
    if level > 0 {
      NodeIdPositive(n, rootHeight, level - 1, q / n);
      ChildBlocks(n, rootHeight - level + 1, NodeId(n, rootHeight, level - 1, q / n), q % n);
    }
  }

  /** Walking by ids and digits ends in the page's own entry: `q` is the page without
      the digits of the levels still to come. */
  lemma {:induction false} IdWalkFrom(g: Geometry, m: map<PageTable, seq<Entry>>, root: PageTable, level: nat, page: nat, q: nat)
    requires g.Valid() && Shape(g.entriesPerTable, m, root, g.Height(), 1)
    requires 1 <= level <= g.levels && Pow(g.entriesPerTable, g.levels - level) > 0
    requires q == page / Pow(g.entriesPerTable, g.levels - level)
    ensures IdWalk(g, m, root, level, NodeId(g.entriesPerTable, g.Height(), level - 1, q / g.entriesPerTable), page)
         == FrameAt(g, m, root, page)
    decreases g.levels - level
  {
    var n := g.entriesPerTable;
    var id := NodeId(n, g.Height(), level - 1, q / n);
    WalkStep(g, m, root, level - 1, q);
    WalkFirst(g, m, root, level, id, page, q);
    if level < g.levels {
      var a := Pow(n, g.levels - level - 1);
      PowPositive(n, g.levels - level - 1);
      DivDiv(page, a, n);
      IdWalkFrom(g, m, root, level + 1, page, page / a);
    } else {
      assert q == page;
    }
  }

  /** The walk is its first request and the walk from the answer. */
  lemma WalkFirst(g: Geometry, m: map<PageTable, seq<Entry>>, root: PageTable, level: nat, id: int, page: nat, q: nat)
    requires g.Valid() && Shape(g.entriesPerTable, m, root, g.Height(), 1) && 1 <= level <= g.levels
    requires Pow(g.entriesPerTable, g.levels - level) > 0 && q == page / Pow(g.entriesPerTable, g.levels - level)
    ensures var reply := PageEntry(g, m, root, id, q % g.entriesPerTable);
            IdWalk(g, m, root, level, id, page) == if reply == 0 then 0 else if level == g.levels then reply else IdWalk(g, m, root, level + 1, reply, page)
  {
    if level == g.levels {
      var reply := PageEntry(g, m, root, id, q % g.entriesPerTable);
      assert reply != 0 ==> IdWalk(g, m, root, level + 1, reply, page) == reply;
    }
  }

  /** The walk of the CPU, started at table 1, returns the page's entry; pages beyond
      the table's reach wrap around. */
  lemma IdWalkFindsEntry(g: Geometry, m: map<PageTable, seq<Entry>>, root: PageTable, page: nat)
    requires g.Valid() && Shape(g.entriesPerTable, m, root, g.Height(), 1)
    ensures g.Pages() > 0
    ensures |Contents(m, root, g.Height())| == g.Pages()
    ensures IdWalk(g, m, root, 1, 1, page) == Contents(m, root, g.Height())[page % g.Pages()]
  {
    PowPositive(g.entriesPerTable, g.levels);
    ContentsByDigits(g, m, root);
    PowPositive(g.entriesPerTable, g.levels - 1);
    IdWalkFrom(g, m, root, 1, page, page / Pow(g.entriesPerTable, g.levels - 1));
    WrapNode(g.entriesPerTable, m, root, g.Height(), g.Height(), page);
  }

  /** Positions of a level wrap around after `n^level` tables. */
  lemma {:induction false} WrapNode(n: nat, m: map<PageTable, seq<Entry>>, root: PageTable, rootHeight: nat, level: nat, page: nat)
    requires n > 0 && level <= rootHeight && Shape(n, m, root, rootHeight, 1)
    ensures Pow(n, level + 1) > 0
    ensures var wrapped := page % Pow(n, level + 1);
            && wrapped % n == page % n
            && NodeAt(n, m, root, rootHeight, level, wrapped / n) == NodeAt(n, m, root, rootHeight, level, page / n)
  {
    PowPositive(n, level);
    PowPositive(n, level + 1);
    WrapDigits(page, n, Pow(n, level));
    if level > 0 {
      WrapNode(n, m, root, rootHeight, level - 1, page / n);
    }
  }

  // --- Changing tables -----------------------------------------------------

  /** The same tables, where only frame numbers of last-level entries may differ. */
  ghost predicate OnlyFramesDiffer(m: map<PageTable, seq<Entry>>, m': map<PageTable, seq<Entry>>) {
    && m.Keys == m'.Keys
    && forall t | t in m ::
         && |m'[t]| == |m[t]|
         && forall i: nat | i < |m[t]| :: m'[t][i] == m[t][i] || (m'[t][i].LastLevel? && m[t][i].LastLevel?)
  }

  lemma {:induction false} ShapeKept(n: nat, m: map<PageTable, seq<Entry>>, m': map<PageTable, seq<Entry>>, t: PageTable, height: nat, id: int)
    requires Shape(n, m, t, height, id)
    requires OnlyFramesDiffer(m, m') || Extends(m, m')
    ensures Shape(n, m', t, height, id)
    decreases height
  {
    forall i: nat | i < n
      ensures EntryShape(n, m', m'[t][i], height, id, i)
    {
      assert EntryShape(n, m, m[t][i], height, id, i);
      if height > 0 {
        ShapeKept(n, m, m', m[t][i].nextTable, height - 1, ChildId(n, height, id, i));
      }
    }
  }

  lemma {:induction false} KidsKept(entries: seq<Entry>, entries': seq<Entry>)
    requires |entries| == |entries'|
    requires forall i: nat | i < |entries| :: entries'[i] == entries[i] || (entries'[i].LastLevel? && entries[i].LastLevel?)
    ensures KidsOf(entries') == KidsOf(entries)
  {
    if entries != [] {
      KidsKept(entries[..|entries| - 1], entries'[..|entries'| - 1]);
    }
  }

  lemma {:induction false} ChildrenKept(m: map<PageTable, seq<Entry>>, m': map<PageTable, seq<Entry>>, ts: seq<PageTable>)
    requires OnlyFramesDiffer(m, m')
    ensures Children(m', ts) == Children(m, ts)
  {
    if ts != [] {
      ChildrenKept(m, m', ts[1..]);
      KidsKept(EntriesOf(m, ts[0]), EntriesOf(m', ts[0]));
    }
  }

  lemma {:induction false} LevelKept(m: map<PageTable, seq<Entry>>, m': map<PageTable, seq<Entry>>, root: PageTable, level: nat)
    requires OnlyFramesDiffer(m, m')
    ensures Level(m', root, level) == Level(m, root, level)
  {
    if level > 0 {
      LevelKept(m, m', root, level - 1);
      ChildrenKept(m, m', Level(m, root, level - 1));
    }
  }

  /** The last-level tables are different objects, each with `n` last-level entries. */
  ghost predicate GoodLeaves(n: nat, m: map<PageTable, seq<Entry>>, leaves: seq<PageTable>) {
    && (forall q: nat, r: nat | q < r < |leaves| :: leaves[q] != leaves[r])
    && (forall t | t in leaves :: t in m && |m[t]| == n && forall c: nat | c < n :: m[t][c].LastLevel?)
  }

  lemma LeavesAreGood(n: nat, m: map<PageTable, seq<Entry>>, root: PageTable, h: nat)
    requires n > 0 && Shape(n, m, root, h, 1)
    ensures GoodLeaves(n, m, Level(m, root, h))
  {
    var leaves := Level(m, root, h);
    LevelByDigits(n, m, root, h, h);
    forall q: nat, r: nat | q < r < |leaves|
      ensures leaves[q] != leaves[r]
    {
      NodeIdOrder(n, h, h, q, r);
    }
    forall t, c: nat | t in leaves && c < n
      ensures t in m && |m[t]| == n && m[t][c].LastLevel?
    {
      var q: nat :| q < |leaves| && leaves[q] == t;
      assert EntryShape(n, m, m[t][c], 0, t.tableId, c);
    }
    forall t | t in leaves
      ensures t in m && |m[t]| == n
    {
      var q: nat :| q < |leaves| && leaves[q] == t;
    }
  }

  /** Every last-level entry below `t` still has no frame. */
  ghost predicate Blank(m: map<PageTable, seq<Entry>>, t: PageTable, height: nat)
    decreases height
  {
    t in m && forall i: nat | i < |m[t]| :: BlankEntry(m, m[t][i], height)
  }

  ghost predicate BlankEntry(m: map<PageTable, seq<Entry>>, e: Entry, height: nat)
    decreases height, 0
  {
    if height == 0 then e == LastLevel(INVALID_FRAME_NUMBER)
    else e.Inner? && Blank(m, e.nextTable, height - 1)
  }

  /** `m'` has everything `m` has, unchanged. */
  ghost predicate Extends(m: map<PageTable, seq<Entry>>, m': map<PageTable, seq<Entry>>) {
    forall x | x in m :: x in m' && m'[x] == m[x]
  }

  lemma {:induction false} NodeKept(n: nat, m: map<PageTable, seq<Entry>>, m': map<PageTable, seq<Entry>>, root: PageTable, rootHeight: nat, level: nat, q: nat)
    requires n > 0 && level <= rootHeight && Extends(m, m')
    requires Shape(n, m, root, rootHeight, 1) && Shape(n, m', root, rootHeight, 1)
    ensures NodeAt(n, m', root, rootHeight, level, q) == NodeAt(n, m, root, rootHeight, level, q)
    decreases level
  {
    if level > 0 {
      NodeKept(n, m, m', root, rootHeight, level - 1, q / n);
    }
  }

  /** Further tables change nothing about a page table. */
  lemma ContentsKept(g: Geometry, m: map<PageTable, seq<Entry>>, m': map<PageTable, seq<Entry>>, root: PageTable)
    requires g.Valid() && Extends(m, m') && Shape(g.entriesPerTable, m, root, g.Height(), 1)
    ensures Shape(g.entriesPerTable, m', root, g.Height(), 1)
    ensures Contents(m', root, g.Height()) == Contents(m, root, g.Height())
  {
    ShapeKept(g.entriesPerTable, m, m', root, g.Height(), 1);
    ContentsByDigits(g, m, root);
    ContentsByDigits(g, m', root);
    forall page: nat | page < g.Pages()
      ensures FrameAt(g, m', root, page) == FrameAt(g, m, root, page)
    {
      NodeKept(g.entriesPerTable, m, m', root, g.Height(), g.Height(), page / g.entriesPerTable);
    }
  }

  lemma {:induction false} BlankKept(m: map<PageTable, seq<Entry>>, m': map<PageTable, seq<Entry>>, t: PageTable, height: nat)
    requires Blank(m, t, height) && Extends(m, m')
    ensures Blank(m', t, height)
    decreases height
  {
    forall i: nat | i < |m[t]|
      ensures BlankEntry(m', m'[t][i], height)
    {
      assert BlankEntry(m, m[t][i], height);
      if height > 0 {
        BlankKept(m, m', m[t][i].nextTable, height - 1);
      }
    }
  }

  lemma BlankNode(n: nat, m: map<PageTable, seq<Entry>>, root: PageTable, rootHeight: nat, level: nat, q: nat)
    requires n > 0 && level <= rootHeight && Shape(n, m, root, rootHeight, 1) && Blank(m, root, rootHeight)
    ensures Blank(m, NodeAt(n, m, root, rootHeight, level, q), rootHeight - level)
    decreases level
  {
    if level > 0 {
      BlankNode(n, m, root, rootHeight, level - 1, q / n);
      var parent := NodeAt(n, m, root, rootHeight, level - 1, q / n);
      assert BlankEntry(m, m[parent][q % n], rootHeight - level + 1);
    }
  }

  lemma BlankContents(g: Geometry, m: map<PageTable, seq<Entry>>, root: PageTable)
    requires g.Valid() && Shape(g.entriesPerTable, m, root, g.Height(), 1) && Blank(m, root, g.Height())
    ensures Contents(m, root, g.Height()) == seq(g.Pages(), _ => INVALID_FRAME_NUMBER)
  {
    ContentsByDigits(g, m, root);
    forall page: nat | page < g.Pages()
      ensures FrameAt(g, m, root, page) == INVALID_FRAME_NUMBER
    {
      var n := g.entriesPerTable;
      BlankNode(n, m, root, g.Height(), g.Height(), page / n);
      var leaf := NodeAt(n, m, root, g.Height(), g.Height(), page / n);
      assert BlankEntry(m, m[leaf][page % n], 0);
    }
  }

  /** A finished entry: a last-level one without frame, or a whole child numbered in its block. */
  ghost predicate NewEntry(n: nat, m: map<PageTable, seq<Entry>>, e: Entry, height: nat, id: int, i: nat) {
    EntryShape(n, m, e, height, id, i) && BlankEntry(m, e, height)
  }

  lemma NewEntryKept(n: nat, m: map<PageTable, seq<Entry>>, m': map<PageTable, seq<Entry>>, e: Entry, height: nat, id: int, i: nat)
    requires NewEntry(n, m, e, height, id, i) && Extends(m, m')
    ensures NewEntry(n, m', e, height, id, i)
  {
    if height > 0 {
      ShapeKept(n, m, m', e.nextTable, height - 1, ChildId(n, height, id, i));
      BlankKept(m, m', e.nextTable, height - 1);
    }
  }

  /** The first entries of a table under construction. */
  ghost predicate PartialTable(n: nat, m: map<PageTable, seq<Entry>>, entries: seq<Entry>, height: nat, id: int) {
    forall k: nat | k < |entries| :: NewEntry(n, m, entries[k], height, id, k)
  }

  lemma PartialTableKept(n: nat, m: map<PageTable, seq<Entry>>, m': map<PageTable, seq<Entry>>, entries: seq<Entry>, height: nat, id: int)
    requires PartialTable(n, m, entries, height, id) && Extends(m, m')
    ensures PartialTable(n, m', entries, height, id)
  {
    forall k: nat | k < |entries|
      ensures NewEntry(n, m', entries[k], height, id, k)
    {
      NewEntryKept(n, m, m', entries[k], height, id, k);
    }
  }

  /** Adding a finished entry to a table under construction. */
  lemma PartialTableGrows(n: nat, m: map<PageTable, seq<Entry>>, below: map<PageTable, seq<Entry>>, m': map<PageTable, seq<Entry>>, entries: seq<Entry>, e: Entry, height: nat, id: int)
    requires PartialTable(n, m, entries, height, id) && Extends(m, m')
    requires NewEntry(n, below, e, height, id, |entries|) && Extends(below, m')
    ensures PartialTable(n, m', entries + [e], height, id)
  {
    PartialTableKept(n, m, m', entries, height, id);
    NewEntryKept(n, below, m', e, height, id, |entries|);
  }

  /** A table with all its entries is the root of a full subtree. */
  lemma TableFinished(n: nat, m: map<PageTable, seq<Entry>>, m': map<PageTable, seq<Entry>>, table: PageTable, height: nat, id: int)
    requires Extends(m, m') && table in m' && table.tableId == id && |m'[table]| == n
    requires PartialTable(n, m, m'[table], height, id)
    ensures Shape(n, m', table, height, id) && Blank(m', table, height)
  {
    PartialTableKept(n, m, m', m'[table], height, id);
    forall i: nat | i < n
      ensures EntryShape(n, m', m'[table][i], height, id, i) && BlankEntry(m', m'[table][i], height)
    {
      assert NewEntry(n, m', m'[table][i], height, id, i);
    }
  }

  /** The id the counter stands at before entry `i` of a table. */
  function NextId(n: nat, height: nat, id: int, i: nat): int {
    if height == 0 then id + 1 else ChildId(n, height, id, i)
  }

  lemma NextIdSteps(n: nat, height: nat, id: int, i: nat)
    ensures NextId(n, height, id, i + 1) == NextId(n, height, id, i) + if height == 0 then 0 else TreeSize(n, height - 1)
    ensures NextId(n, height, id, 0) == id + 1 && NextId(n, height, id, n) == id + TreeSize(n, height)
  {
  }

  /** The global id counter of the page-table code. */
  class TableFactory {
    var nextTableId: int

    constructor ()
      ensures nextTableId == 1
    {
      nextTableId := 1;
    }

    method CreateTable(g: Geometry, currentLevel: nat) returns (table: PageTable, ghost tables: set<PageTable>)
      requires g.Valid() && currentLevel < g.levels
      modifies this
      ensures fresh(tables)
      ensures Shape(g.entriesPerTable, Snapshot(tables), table, g.Height() - currentLevel, old(nextTableId))
      ensures Blank(Snapshot(tables), table, g.Height() - currentLevel)
      ensures nextTableId == old(nextTableId) + TreeSize(g.entriesPerTable, g.Height() - currentLevel)
      decreases g.levels - currentLevel
    {
      ghost var n: nat, height: nat, id: int := g.entriesPerTable, g.Height() - currentLevel, nextTableId;
      table := new PageTable(nextTableId);
      nextTableId := nextTableId + 1;
      ghost var kids: set<PageTable> := {};
      NextIdSteps(n, height, id, 0);
      for i := 0 to g.entriesPerTable
        invariant fresh(kids) && table !in kids
        invariant |table.entries| == i
        invariant nextTableId == NextId(n, height, id, i)
        invariant PartialTable(n, Snapshot(kids), table.entries, height, id)
      {
        ghost var before := Snapshot(kids);
        var entry, below := CreateEntry(g, currentLevel, id, i);
        kids := kids + below;
        PartialTableGrows(n, before, Snapshot(below), Snapshot(kids), table.entries, entry, height, id);
        NextIdSteps(n, height, id, i);
        table.entries := table.entries + [entry];
      }
      tables := kids + {table};
      TableFinished(n, Snapshot(kids), Snapshot(tables), table, height, id);
    }

    /** One entry of a table under construction, with the whole child table of an inner one. */
    method CreateEntry(g: Geometry, currentLevel: nat, ghost id: int, ghost i: nat) returns (entry: Entry, ghost below: set<PageTable>)
      requires g.Valid() && currentLevel < g.levels
      requires nextTableId == NextId(g.entriesPerTable, g.Height() - currentLevel, id, i)
      modifies this
      ensures fresh(below)
      ensures NewEntry(g.entriesPerTable, Snapshot(below), entry, g.Height() - currentLevel, id, i)
      ensures nextTableId == old(nextTableId) + if currentLevel == g.levels - 1 then 0 else TreeSize(g.entriesPerTable, g.Height() - currentLevel - 1)
      decreases g.levels - currentLevel, 0
    {
      var isLastLevel := currentLevel == g.levels - 1;
      if isLastLevel {
        entry, below := LastLevel(INVALID_FRAME_NUMBER), {};
      } else {
        var child;
        child, below := CreateTable(g, currentLevel + 1);
        entry := Inner(child.tableId, child);
      }
    }

    /** A whole table for a new process: ids start at 1 and the counter is put back. */
    method InitPageTable(g: Geometry) returns (root: PageTable, ghost tables: set<PageTable>)
      requires g.Valid() && nextTableId == 1
      modifies this
      ensures fresh(tables) && nextTableId == 1
      ensures Shape(g.entriesPerTable, Snapshot(tables), root, g.Height(), 1)
      ensures Contents(Snapshot(tables), root, g.Height()) == seq(g.Pages(), _ => INVALID_FRAME_NUMBER)
    {
      root, tables := CreateTable(g, 0);
      nextTableId := 1;
      BlankContents(g, Snapshot(tables), root);
    }
  }

  /** Depth-first search for a table id below `t`. */
  method FindTableById(n: nat, t: PageTable, target: int, ghost tables: set<PageTable>, ghost height: nat, ghost id: int) returns (r: PageTable?)
    requires n > 0 && Shape(n, Snapshot(tables), t, height, id)
    ensures r == Locate(n, Snapshot(tables), t, height, id, target)
    decreases height
  {
    ghost var m := Snapshot(tables);
    if t.tableId == target {
      return t;
    }
    assert EntryShape(n, m, t.entries[0], height, id, 0);
    if t.entries[0].LastLevel? {
      return null;
    }
    for i := 0 to n
      invariant id < target < id + TreeSize(n, height) ==> BlockOf(n, height, id, target) >= i
    {
      assert EntryShape(n, m, t.entries[i], height, id, i);
      r := FindTableById(n, t.entries[i].nextTable, target, tables, height - 1, ChildId(n, height, id, i));
      if r != null {
        ChildBlocks(n, height, id, i);
        BlockUnique(n, height, id, target, i);
        return r;
      }
    }
    return null;
  }

  /** The reply to a page-entry request for a process's table. */
  method GetPageEntry(g: Geometry, root: PageTable, tableId: int, entryIndex: int, ghost tables: set<PageTable>) returns (value: int)
    requires g.Valid() && Shape(g.entriesPerTable, Snapshot(tables), root, g.Height(), 1)
    ensures value == PageEntry(g, Snapshot(tables), root, tableId, entryIndex)
    ensures !(1 <= tableId <= TreeSize(g.entriesPerTable, g.Height())) || !(0 <= entryIndex < g.entriesPerTable) ==> value == -1
  {
    var target: PageTable?;
    if root.tableId == tableId {
      target := root;
    } else {
      target := FindTableById(g.entriesPerTable, root, tableId, tables, g.Height(), 1);
    }
    if target == null {
      return INVALID_FRAME_NUMBER;
    }
    if !(0 <= entryIndex < |target.entries|) {
      return INVALID_FRAME_NUMBER;
    }
    var entry := target.entries[entryIndex];
    value := if entry.LastLevel? then entry.frameNumber else entry.nextTableId;
  }

  // --- Frame assignment ----------------------------------------------------

  datatype QueueItem = QueueItem(table: PageTable, level: nat)

  /** A queue of tables of two neighbouring levels. */
  ghost predicate TwoLevels(queue: seq<QueueItem>, rest: seq<PageTable>, added: seq<PageTable>, level: nat) {
    && |queue| == |rest| + |added|
    && (forall k: nat | k < |rest| :: queue[k] == QueueItem(rest[k], level))
    && (forall k: nat | k < |added| :: queue[|rest| + k] == QueueItem(added[k], level + 1))
  }

  lemma KidsOfPrefix(entries: seq<Entry>, c: nat)
    requires c < |entries|
    ensures KidsOf(entries[..c + 1]) == KidsOf(entries[..c]) + if entries[c].Inner? then [entries[c].nextTable] else []
  {
    assert entries[..c + 1][..c] == entries[..c];
  }

  lemma TwoLevelsGrow(queue: seq<QueueItem>, rest: seq<PageTable>, added: seq<PageTable>, level: nat, t: PageTable)
    requires TwoLevels(queue, rest, added, level)
    ensures TwoLevels(queue + [QueueItem(t, level + 1)], rest, added + [t], level)
  {
  }

  method PushChildren(current: QueueItem, queue: seq<QueueItem>, ghost rest: seq<PageTable>, ghost added: seq<PageTable>) returns (longer: seq<QueueItem>)
    requires TwoLevels(queue, rest, added, current.level)
    ensures TwoLevels(longer, rest, added + KidsOf(current.table.entries), current.level)
  {
    longer := queue;
    ghost var entries := current.table.entries;
    assert added + KidsOf(entries[..0]) == added;
    for c := 0 to |current.table.entries|
      invariant TwoLevels(longer, rest, added + KidsOf(entries[..c]), current.level)
    {
      var entry := current.table.entries[c];
      KidsOfPrefix(entries, c);
      if entry.Inner? {
        TwoLevelsGrow(longer, rest, added + KidsOf(entries[..c]), current.level, entry.nextTable);
        assert added + KidsOf(entries[..c + 1]) == added + KidsOf(entries[..c]) + [entry.nextTable];
        longer := longer + [QueueItem(entry.nextTable, current.level + 1)];
      } else {
        assert KidsOf(entries[..c + 1]) == KidsOf(entries[..c]);
      }
    }
    assert entries[..|entries|] == entries;
  }

  /** No level is empty and all its tables are in the snapshot. */
  lemma LevelInSnapshot(g: Geometry, m: map<PageTable, seq<Entry>>, root: PageTable, level: nat)
    requires g.Valid() && Shape(g.entriesPerTable, m, root, g.Height(), 1) && level <= g.Height()
    ensures |Level(m, root, level)| == Pow(g.entriesPerTable, level) > 0
    ensures AllIn(m, Level(m, root, level))
  {
    LevelByDigits(g.entriesPerTable, m, root, g.Height(), level);
    PowPositive(g.entriesPerTable, level);
  }

  ghost predicate AllIn(m: map<PageTable, seq<Entry>>, ts: seq<PageTable>) {
    forall k: nat | k < |ts| :: ts[k] in m
  }

  /** A moment of the breadth-first search: the tables of a level not yet taken out, then
      the children of the ones taken out. Together they make up the next level. */
  ghost predicate Searching(m: map<PageTable, seq<Entry>>, root: PageTable, height: nat, level: nat,
                            rest: seq<PageTable>, added: seq<PageTable>, result: seq<PageTable>) {
    && level <= height && AllIn(m, rest)
    && if level < height then
         rest != [] && result == [] && Level(m, root, level + 1) == added + Children(m, rest)
       else
         added == [] && Level(m, root, level) == result + rest
  }

  lemma SearchBegins(g: Geometry, m: map<PageTable, seq<Entry>>, root: PageTable)
    requires g.Valid() && Shape(g.entriesPerTable, m, root, g.Height(), 1)
    ensures Searching(m, root, g.Height(), 0, [root], [], [])
  {
    if g.Height() > 0 {
      assert Level(m, root, 1) == Children(m, Level(m, root, 0));
    }
  }

  /** The children of the first table of a level join the next level; after the last table
      the search is at the start of the next level. */
  lemma SearchDescends(g: Geometry, m: map<PageTable, seq<Entry>>, root: PageTable, level: nat, rest: seq<PageTable>, added: seq<PageTable>)
    requires g.Valid() && Shape(g.entriesPerTable, m, root, g.Height(), 1)
    requires level < g.Height() && Searching(m, root, g.Height(), level, rest, added, [])
    ensures var more := added + KidsOf(EntriesOf(m, rest[0]));
            if |rest| > 1 then Searching(m, root, g.Height(), level, rest[1..], more, [])
            else Searching(m, root, g.Height(), level + 1, more, [], [])
  {
    var kids := KidsOf(EntriesOf(m, rest[0]));
    assert added + Children(m, rest) == (added + kids) + Children(m, rest[1..]);
    if |rest| == 1 {
      assert Level(m, root, level + 1) == added + kids;
      LevelInSnapshot(g, m, root, level + 1);
    }
  }

  lemma SearchCollects(m: map<PageTable, seq<Entry>>, root: PageTable, height: nat, rest: seq<PageTable>, result: seq<PageTable>)
    requires Searching(m, root, height, height, rest, [], result) && rest != []
    ensures Searching(m, root, height, height, rest[1..], [], result + [rest[0]])
    ensures |result| < |Level(m, root, height)|
  {
    assert result + rest == (result + [rest[0]]) + rest[1..];
  }

  /** A round of the search at an inner table: its children go to the end of the queue. */
  method Descend(g: Geometry, root: PageTable, queue: seq<QueueItem>,
                 ghost tables: set<PageTable>, ghost level: nat, ghost rest: seq<PageTable>, ghost added: seq<PageTable>)
    returns (queue': seq<QueueItem>, ghost level': nat, ghost rest': seq<PageTable>, ghost added': seq<PageTable>)
    requires g.Valid() && Shape(g.entriesPerTable, Snapshot(tables), root, g.Height(), 1) && level < g.Height()
    requires queue != [] && Searching(Snapshot(tables), root, g.Height(), level, rest, added, []) && TwoLevels(queue, rest, added, level)
    ensures Searching(Snapshot(tables), root, g.Height(), level', rest', added', []) && TwoLevels(queue', rest', added', level')
    ensures level' == level + 1 || (level' == level && |rest'| < |rest|)
  {
    ghost var m := Snapshot(tables);
    var current := queue[0];
    assert current == QueueItem(rest[0], level);
    SearchDescends(g, m, root, level, rest, added);
    queue' := PushChildren(current, queue[1..], rest[1..], added);
    level', rest', added' := level, rest[1..], added + KidsOf(EntriesOf(m, rest[0]));
    if |rest| == 1 {
      level', rest', added' := level + 1, added', [];
    }
  }

  /** The last-level tables, by breadth-first search: they come out in the order of the
      last level, which is digit order. */
  method CollectLastLevelTables(g: Geometry, root: PageTable, maxResultSize: nat, ghost tables: set<PageTable>) returns (result: seq<PageTable>)
    requires g.Valid() && Shape(g.entriesPerTable, Snapshot(tables), root, g.Height(), 1)
    requires maxResultSize == Pow(g.entriesPerTable, g.Height())
    ensures result == Level(Snapshot(tables), root, g.Height())
  {
    LevelInSnapshot(g, Snapshot(tables), root, g.Height());
    SearchBegins(g, Snapshot(tables), root);
    var queue := [QueueItem(root, 0)];
    result := [];
    ghost var level, rest, added := 0, [root], [];
    while queue != []
      invariant Searching(Snapshot(tables), root, g.Height(), level, rest, added, result)
      invariant TwoLevels(queue, rest, added, level)
      decreases g.Height() - level, |rest|
    {
      var current := queue[0];
      assert current == QueueItem(rest[0], level);
      if current.level == g.levels - 1 {
        SearchCollects(Snapshot(tables), root, g.Height(), rest, result);
        queue, rest := queue[1..], rest[1..];
        if |result| < maxResultSize {
          result := result + [current.table];
        }
      } else {
        queue, level, rest, added := Descend(g, root, queue, tables, level, rest, added);
      }
    }
  }

  /** How many pages an assignment reaches: the entries, the frames or the pages run out first. */
  function AssignedCount(entries: nat, frames: nat, pagesNeeded: int): (count: nat) {
    if pagesNeeded <= 0 then 0 else Min(pagesNeeded, Min(frames, entries))
  }

  /** A table's entries after the frames of a list were put into its first ones. */
  ghost function WithFrames(entries: seq<Entry>, frames: seq<int>): (filled: seq<Entry>)
    requires |frames| <= |entries|
    ensures |filled| == |entries|
  {
    seq(|entries|, c requires 0 <= c < |entries| => if c < |frames| then LastLevel(frames[c]) else entries[c])
  }

  /** `m'` is `m` except for the entries of one table. */
  ghost predicate OnlyTableDiffers(m: map<PageTable, seq<Entry>>, m': map<PageTable, seq<Entry>>, table: PageTable) {
    m.Keys == m'.Keys && forall t | t in m && t != table :: m'[t] == m[t]
  }

  /** The inner loop of the assignment: the entries of one last-level table. */
  method FillTable(table: PageTable, frames: seq<int>, pagesNeeded: int, frameIndex: nat, ghost tables: set<PageTable>)
    returns (next: nat)
    requires table in tables && frameIndex <= |frames| && frameIndex <= pagesNeeded
    modifies table
    ensures next == frameIndex + Min(|old(table.entries)|, Min(|frames|, pagesNeeded) - frameIndex)
    ensures table.entries == WithFrames(old(table.entries), frames[frameIndex..next])
    ensures OnlyTableDiffers(old(Snapshot(tables)), Snapshot(tables), table)
  {
    next := frameIndex;
    var j := 0;
    while j < |table.entries| && next < pagesNeeded
      invariant |table.entries| == |old(table.entries)| && j <= |table.entries|
      invariant next == frameIndex + Min(j, Min(|frames|, pagesNeeded) - frameIndex)
      invariant table.entries == WithFrames(old(table.entries), frames[frameIndex..next])
    {
      if next < |frames| {
        table.entries := table.entries[j := LastLevel(frames[next])];
        next := next + 1;
      }
      j := j + 1;
    }
  }

  lemma {:induction false} FlattenAppend(m: map<PageTable, seq<Entry>>, front: seq<PageTable>, back: seq<PageTable>)
    ensures Flatten(m, front + back) == Flatten(m, front) + Flatten(m, back)
  {
    if front == [] {
      assert front + back == back;
    } else {
      FlattenAppend(m, front[1..], back);
      assert (front + back)[1..] == front[1..] + back;
    }
  }

  lemma {:induction false} FlattenKept(m: map<PageTable, seq<Entry>>, m': map<PageTable, seq<Entry>>, ts: seq<PageTable>)
    requires forall t | t in ts :: EntriesOf(m, t) == EntriesOf(m', t)
    ensures Flatten(m', ts) == Flatten(m, ts)
  {
    if ts != [] {
      FlattenKept(m, m', ts[1..]);
    }
  }

  /** After `i` of the last-level tables: their pages have the first `count` frames of the
      list, everything behind is as before. */
  ghost predicate Assigning(start: map<PageTable, seq<Entry>>, m: map<PageTable, seq<Entry>>, leaves: seq<PageTable>,
                            i: nat, frames: seq<int>, count: nat)
    requires i <= |leaves|
  {
    && OnlyFramesDiffer(start, m)
    && (forall k: nat | i <= k < |leaves| :: EntriesOf(m, leaves[k]) == EntriesOf(start, leaves[k]))
    && count <= |frames| && count <= |Flatten(start, leaves[..i])|
    && Flatten(m, leaves[..i]) == frames[..count] + Flatten(start, leaves[..i])[count..]
  }

  /** Filling the next table. Its frames start where the earlier tables' frames stopped:
      either the earlier tables are full or there is nothing left to put. */
  lemma AssigningStep(n: nat, start: map<PageTable, seq<Entry>>, m: map<PageTable, seq<Entry>>, m': map<PageTable, seq<Entry>>,
                      leaves: seq<PageTable>, i: nat, frames: seq<int>, count: nat, next: nat)
    requires i < |leaves| && GoodLeaves(n, start, leaves) && Assigning(start, m, leaves, i, frames, count)
    requires count <= next <= |frames| && next - count <= n
    requires count == |Flatten(start, leaves[..i])| || next == count
    requires OnlyTableDiffers(m, m', leaves[i]) && m'[leaves[i]] == WithFrames(m[leaves[i]], frames[count..next])
    ensures Assigning(start, m', leaves, i + 1, frames, next)
  {
    var t := leaves[i];
    AssigningFrame(n, start, m, m', leaves, i, frames, count, next);
    assert leaves[..i + 1] == leaves[..i] + [t];
    FlattenAppend(m', leaves[..i], [t]);
    FlattenAppend(start, leaves[..i], [t]);
    FlattenOne(start, t);
    FlattenOne(m', t);
    FlattenKept(m, m', leaves[..i]);
    AssigningArithmetic(Flatten(start, leaves[..i]), FramesOf(start[t]), frames, count, next);
  }

  lemma FlattenOne(m: map<PageTable, seq<Entry>>, t: PageTable)
    ensures Flatten(m, [t]) == FramesOf(EntriesOf(m, t))
  {
    assert [t][1..] == [];
  }

  lemma AssigningArithmetic(before: seq<int>, last: seq<int>, frames: seq<int>, count: nat, next: nat)
    requires count <= next <= |frames| && next - count <= |last|
    requires count == |before| || (next == count && count <= |before|)
    ensures next <= |before + last|
    ensures (frames[..count] + before[count..]) + (frames[count..next] + last[next - count..])
         == frames[..next] + (before + last)[next..]
  {
  }

  /** What filling one table leaves as it was. */
  lemma AssigningFrame(n: nat, start: map<PageTable, seq<Entry>>, m: map<PageTable, seq<Entry>>, m': map<PageTable, seq<Entry>>,
                       leaves: seq<PageTable>, i: nat, frames: seq<int>, count: nat, next: nat)
    requires i < |leaves| && GoodLeaves(n, start, leaves) && Assigning(start, m, leaves, i, frames, count)
    requires count <= next <= |frames| && next - count <= n
    requires OnlyTableDiffers(m, m', leaves[i]) && m'[leaves[i]] == WithFrames(m[leaves[i]], frames[count..next])
    ensures OnlyFramesDiffer(start, m')
    ensures forall k: nat | i < k < |leaves| :: EntriesOf(m', leaves[k]) == EntriesOf(start, leaves[k])
    ensures forall t | t in leaves[..i] :: EntriesOf(m, t) == EntriesOf(m', t)
    ensures |start[leaves[i]]| == n
    ensures FramesOf(m'[leaves[i]]) == frames[count..next] + FramesOf(start[leaves[i]])[next - count..]
  {
    assert leaves[i] in leaves;
    assert EntriesOf(m, leaves[i]) == EntriesOf(start, leaves[i]);
  }

  lemma LeavesLength(n: nat, m: map<PageTable, seq<Entry>>, leaves: seq<PageTable>, i: nat)
    requires GoodLeaves(n, m, leaves) && i <= |leaves|
    ensures |Flatten(m, leaves[..i])| == Times(i, n)
  {
    FlattenLength(n, m, leaves[..i]);
  }

  lemma PrefixReplaced(frames: seq<int>, count: nat, before: seq<int>, after: seq<int>)
    requires count <= |frames| && count <= |before|
    ensures (frames[..count] + before[count..]) + after == frames[..count] + (before + after)[count..]
  {
  }

  /** The tables behind the last one reached keep their contents. */
  lemma AssigningFlat(start: map<PageTable, seq<Entry>>, m: map<PageTable, seq<Entry>>, leaves: seq<PageTable>, i: nat, frames: seq<int>, count: nat)
    requires i <= |leaves| && Assigning(start, m, leaves, i, frames, count)
    ensures count <= |Flatten(start, leaves)|
    ensures Flatten(m, leaves) == frames[..count] + Flatten(start, leaves)[count..]
  {
    assert leaves == leaves[..i] + leaves[i..];
    FlattenAppend(m, leaves[..i], leaves[i..]);
    FlattenAppend(start, leaves[..i], leaves[i..]);
    FlattenKept(start, m, leaves[i..]);
    PrefixReplaced(frames, count, Flatten(start, leaves[..i]), Flatten(start, leaves[i..]));
  }

  lemma AssigningDone(g: Geometry, start: map<PageTable, seq<Entry>>, m: map<PageTable, seq<Entry>>, root: PageTable,
                      leaves: seq<PageTable>, i: nat, frames: seq<int>, count: nat)
    requires g.Valid() && Shape(g.entriesPerTable, start, root, g.Height(), 1)
    requires leaves == Level(start, root, g.Height()) && i <= |leaves|
    requires Assigning(start, m, leaves, i, frames, count)
    ensures Shape(g.entriesPerTable, m, root, g.Height(), 1)
    ensures count <= |Contents(start, root, g.Height())|
    ensures Contents(m, root, g.Height()) == frames[..count] + Contents(start, root, g.Height())[count..]
  {
    ShapeKept(g.entriesPerTable, start, m, root, g.Height(), 1);
    LevelKept(start, m, root, g.Height());
    AssigningFlat(start, m, leaves, i, frames, count);
  }

  /** One round of the outer loop of the assignment. */
  method FillNext(leaves: seq<PageTable>, i: nat, frames: seq<int>, pagesNeeded: nat, frameIndex: nat,
                  ghost n: nat, ghost start: map<PageTable, seq<Entry>>, ghost tables: set<PageTable>)
    returns (next: nat)
    requires i < |leaves| && GoodLeaves(n, start, leaves) && leaves[i] in tables
    requires frameIndex == AssignedCount(Times(i, n), |frames|, pagesNeeded)
    requires Assigning(start, Snapshot(tables), leaves, i, frames, frameIndex)
    modifies leaves[i]
    ensures next == AssignedCount(Times(i + 1, n), |frames|, pagesNeeded)
    ensures Assigning(start, Snapshot(tables), leaves, i + 1, frames, next)
  {
    ghost var m := Snapshot(tables);
    assert leaves[i] in leaves && EntriesOf(m, leaves[i]) == EntriesOf(start, leaves[i]);
    LeavesLength(n, start, leaves, i);
    next := FillTable(leaves[i], frames, pagesNeeded, frameIndex, tables);
    AssigningStep(n, start, m, Snapshot(tables), leaves, i, frames, frameIndex, next);
  }

  /** The outer loop of the assignment: the last-level tables in order. */
  method FillTables(leaves: seq<PageTable>, frames: seq<int>, pagesNeeded: nat, ghost n: nat, ghost tables: set<PageTable>)
    returns (frameIndex: nat, ghost reached: nat)
    requires GoodLeaves(n, Snapshot(tables), leaves)
    modifies tables
    ensures reached <= |leaves| && frameIndex == AssignedCount(Times(|leaves|, n), |frames|, pagesNeeded)
    ensures Assigning(old(Snapshot(tables)), Snapshot(tables), leaves, reached, frames, frameIndex)
  {
    ghost var start := Snapshot(tables);
    frameIndex := 0;
    var i := 0;
    while i < |leaves| && frameIndex < pagesNeeded
      invariant i <= |leaves|
      invariant frameIndex == AssignedCount(Times(i, n), |frames|, pagesNeeded)
      invariant Assigning(start, Snapshot(tables), leaves, i, frames, frameIndex)
    {
      assert leaves[i] in leaves;
      frameIndex := FillNext(leaves, i, frames, pagesNeeded, frameIndex, n, start, tables);
      i := i + 1;
    }
    FilledAll(i, |leaves|, n, |frames|, pagesNeeded);
    reached := i;
  }

  /** The pages ran out, or the tables did. */
  lemma FilledAll(i: nat, count: nat, n: nat, frames: nat, pagesNeeded: nat)
    requires i <= count && (i == count || AssignedCount(Times(i, n), frames, pagesNeeded) >= pagesNeeded)
    ensures AssignedCount(Times(count, n), frames, pagesNeeded) == AssignedCount(Times(i, n), frames, pagesNeeded)
  {
    TimesGap(i, count, n);
  }

  lemma LeavesCoverPages(g: Geometry, m: map<PageTable, seq<Entry>>, root: PageTable)
    requires g.Valid() && Shape(g.entriesPerTable, m, root, g.Height(), 1)
    ensures |Contents(m, root, g.Height())| == g.Pages()
    ensures GoodLeaves(g.entriesPerTable, m, Level(m, root, g.Height()))
    ensures Times(|Level(m, root, g.Height())|, g.entriesPerTable) == g.Pages()
  {
    ContentsByDigits(g, m, root);
    LeavesAreGood(g.entriesPerTable, m, root, g.Height());
    LevelInSnapshot(g, m, root, g.Height());
    SplitPosition(g.entriesPerTable, g.levels, 0);
  }

  /** Gives a process's frames to its pages, in page order. */
  method AssignFrames(g: Geometry, root: PageTable, frames: seq<int>, pagesNeeded: int, ghost tables: set<PageTable>) returns (ok: bool)
    requires g.Valid() && Shape(g.entriesPerTable, Snapshot(tables), root, g.Height(), 1)
    modifies tables
    ensures Shape(g.entriesPerTable, Snapshot(tables), root, g.Height(), 1)
    ensures var count := AssignedCount(g.Pages(), |frames|, pagesNeeded);
            && |old(Contents(Snapshot(tables), root, g.Height()))| == g.Pages()
            && Contents(Snapshot(tables), root, g.Height()) == frames[..count] + old(Contents(Snapshot(tables), root, g.Height()))[count..]
            && (ok <==> pagesNeeded > 0 && count == pagesNeeded)
  {
    ghost var start := Snapshot(tables);
    LeavesCoverPages(g, start, root);
    if pagesNeeded <= 0 {
      return false;
    }
    var maxLastLevelTables := Pow(g.entriesPerTable, g.Height());
    var leaves := CollectLastLevelTables(g, root, maxLastLevelTables, tables);
    var frameIndex, reached := FillTables(leaves, frames, pagesNeeded, g.entriesPerTable, tables);
    AssigningDone(g, start, Snapshot(tables), root, leaves, reached, frames, frameIndex);
    ok := frameIndex == pagesNeeded;
  }

  /** A page table whose first pages have the given frames and whose other pages have none
      answers the walk of a page with its frame, or with -1 behind the last frame. */
  lemma WalkFollowsFrames(g: Geometry, m: map<PageTable, seq<Entry>>, root: PageTable, frames: seq<int>, page: nat)
    requires g.Valid() && Shape(g.entriesPerTable, m, root, g.Height(), 1)
    requires |frames| <= g.Pages() && page < g.Pages()
    requires Contents(m, root, g.Height()) == frames + seq(g.Pages() - |frames|, _ => INVALID_FRAME_NUMBER)
    ensures IdWalk(g, m, root, 1, 1, page) == if page < |frames| then frames[page] else INVALID_FRAME_NUMBER
  {
    IdWalkFindsEntry(g, m, root, page);
    SmallModulo(page, g.Pages());
  }
}
