/**
 * The one-dimensional block tree of index/numeric.go: staged entries, deletion marks,
 * blocks in a key-value store, and the pruned binary search over them.
 */
module NumericIndex {
  import opened Bytes
  import opened NumericCodes
  import opened BlockCodec
  import opened Sequences
  import opened Sorting

  const BLOCK_SIZE := 512

  type DocId = Blob
  type Entries = seq<NumericEntry>
  type Disk = map<string, bytes>

  datatype Node =
    | Nil
    | Leaf(min: u64, max: u64, blockKey: string)
    | Inner(min: u64, max: u64, left: Node, right: Node)

  datatype Kind = FloatField | IntField

  /** A float bound: its bit pattern, and what the machine converts it to as an integer. */
  datatype Bound = Bound(bits: u64, truncated: i64)

  // --- Block keys --------------------------------------------------------------

  function Decimal(n: nat): (s: string)
    ensures s != [] && forall c <- s :: '0' <= c <= '9'
    ensures |s| == 1 <==> n < 10
  {
    var digit := ['0' + (n % 10) as char];
    if n < 10 then digit else Decimal(n / 10) + digit
  }

  /** `fmt.Sprintf("_numblock:%s:%d", field, i)`. */
  function BlockKey(field: string, i: nat): string {
    "_numblock:" + field + ":" + Decimal(i)
  }

  lemma {:induction false} DecimalInjective(m: nat, n: nat)
    requires Decimal(m) == Decimal(n)
    ensures m == n
    decreases m
  {
    var s, t := Decimal(m), Decimal(n);
    assert s[|s| - 1] == '0' + (m % 10) as char && t[|t| - 1] == '0' + (n % 10) as char;
    if m >= 10 {
      assert s[..|s| - 1] == Decimal(m / 10) && t[..|t| - 1] == Decimal(n / 10);
      DecimalInjective(m / 10, n / 10);
    }
  }

  /** Keys of different blocks never collide, whatever characters the field names hold. */
  lemma BlockKeyInjective(f: string, i: nat, g: string, j: nat)
    requires BlockKey(f, i) == BlockKey(g, j)
    ensures f == g && i == j
  {
    var p := "_numblock:";
    assert p + f + ":" + Decimal(i) == (p + f) + ":" + Decimal(i);
    LastColonSplits(p + f, Decimal(i), p + g, Decimal(j));
    assert f == (p + f)[|p|..] && g == (p + g)[|p|..];
    DecimalInjective(i, j);
  }

  // --- What a tree holds -------------------------------------------------------

  function LoadBlock(store: Disk, key: string): Entries {
    if key !in store then []
    else
      match DecodeBlock(store[key])
      case Some(es) => es
      case None => []
  }

  function LoadEntries(store: Disk, node: Node): Entries {
    match node
    case Nil => []
    case Leaf(_, _, key) => LoadBlock(store, key)
    case Inner(_, _, left, right) => LoadEntries(store, left) + LoadEntries(store, right)
  }

  predicate Sorted(es: Entries) {
    forall i, j :: 0 <= i < j < |es| ==> es[i].value <= es[j].value
  }

  /** `es` is sorted with exactly these extremes. */
  predicate Spans(es: Entries, min: u64, max: u64) {
    es != [] && Sorted(es) && min == es[0].value && max == es[|es| - 1].value
  }

  ghost predicate TreeValid(store: Disk, field: string, node: Node) {
    match node
    case Nil => true
    case Leaf(min, max, key) =>
      && (exists i: nat :: key == BlockKey(field, i))
      && |LoadBlock(store, key)| <= BLOCK_SIZE
      && Spans(LoadBlock(store, key), min, max)
    case Inner(min, max, left, right) =>
      && !left.Nil? && !right.Nil?
      && TreeValid(store, field, left) && TreeValid(store, field, right)
      && min == left.min && max == right.max && left.max <= right.min
  }

  lemma SpansConcat(a: Entries, b: Entries, aMin: u64, aMax: u64, bMin: u64, bMax: u64)
    requires Spans(a, aMin, aMax) && Spans(b, bMin, bMax) && aMax <= bMin
    ensures Spans(a + b, aMin, bMax)
  {
    assert forall i :: 0 <= i < |a| ==> a[i].value <= aMax;
    assert forall i :: 0 <= i < |b| ==> bMin <= b[i].value;
  }

  /** The blocks concatenate to one sorted sequence, and every node's extremes are the true ones. */
  lemma {:induction false} TreeSpans(store: Disk, field: string, node: Node)
    requires TreeValid(store, field, node) && !node.Nil?
    ensures Spans(LoadEntries(store, node), node.min, node.max)
    decreases node
  {
    if node.Inner? {
      TreeSpans(store, field, node.left);
      TreeSpans(store, field, node.right);
      SpansConcat(LoadEntries(store, node.left), LoadEntries(store, node.right),
                  node.left.min, node.left.max, node.right.min, node.right.max);
    }
  }

  /** A tree reads only the blocks of its own field. */
  lemma {:induction false} TreeFrame(store: Disk, store': Disk, field: string, node: Node)
    requires TreeValid(store, field, node)
    requires forall i: nat :: LoadBlock(store', BlockKey(field, i)) == LoadBlock(store, BlockKey(field, i))
    ensures TreeValid(store', field, node) && LoadEntries(store', node) == LoadEntries(store, node)
    decreases node
  {
    if node.Inner? {
      TreeFrame(store, store', field, node.left);
      TreeFrame(store, store', field, node.right);
    }
  }

  // --- Selection ---------------------------------------------------------------

  predicate Hit(e: NumericEntry, lo: u64, hi: u64, deleted: set<DocId>) {
    InCodeRange(e.value, lo, hi) && e.docId !in deleted
  }

  /** The plain filter that a range query refines. */
  function Select(es: Entries, lo: u64, hi: u64, deleted: set<DocId>): seq<DocId> {
    if es == [] then []
    else (if Hit(es[0], lo, hi, deleted) then [es[0].docId] else []) + Select(es[1..], lo, hi, deleted)
  }

  lemma SelectHead(e: NumericEntry, rest: Entries, lo: u64, hi: u64, deleted: set<DocId>)
    ensures Select([e] + rest, lo, hi, deleted)
            == (if Hit(e, lo, hi, deleted) then [e.docId] else []) + Select(rest, lo, hi, deleted)
    ensures Select([], lo, hi, deleted) == []
  {
    assert ([e] + rest)[1..] == rest;
  }

  lemma {:induction false} SelectConcat(a: Entries, b: Entries, lo: u64, hi: u64, deleted: set<DocId>)
    ensures Select(a + b, lo, hi, deleted) == Select(a, lo, hi, deleted) + Select(b, lo, hi, deleted)
    decreases |a|
  {
    hide Hit, Select;
    if a == [] {
      SelectHead(NumericEntry(0, []), [], lo, hi, deleted);
      assert a + b == b;
    } else {
      var e, rest := a[0], a[1..];
      SelectConcat(rest, b, lo, hi, deleted);
      assert a == [e] + rest && a + b == [e] + (rest + b);
      SelectHead(e, rest, lo, hi, deleted);
      SelectHead(e, rest + b, lo, hi, deleted);
    }
  }

  lemma {:induction false} SelectNothing(es: Entries, lo: u64, hi: u64, deleted: set<DocId>)
    requires forall e <- es :: !InCodeRange(e.value, lo, hi)
    ensures Select(es, lo, hi, deleted) == []
    decreases |es|
  {
    if es != [] {
      assert es[0] in es;
      SelectNothing(es[1..], lo, hi, deleted);
    }
  }

  /** The entries of documents not deleted, in order. */
  function Live(es: Entries, deleted: set<DocId>): Entries {
    if es == [] then []
    else Live(es[..|es| - 1], deleted) + (if es[|es| - 1].docId in deleted then [] else [es[|es| - 1]])
  }

  // --- Building ----------------------------------------------------------------

  function BuildTree(leaves: seq<Node>): (root: Node)
    requires forall leaf <- leaves :: leaf.Leaf?
    ensures leaves != [] ==> !root.Nil?
    decreases |leaves|
  {
    if leaves == [] then Nil
    else if |leaves| == 1 then
      assert leaves[0] in leaves;
      leaves[0]
    else
      var mid := |leaves| / 2;
      var left := BuildTree(leaves[..mid]);
      var right := BuildTree(leaves[mid..]);
      Inner(left.min, right.max, left, right)
  }

  /** Leaves in block order: valid, and no block begins below the end of the one before. */
  ghost predicate LeavesValid(store: Disk, field: string, leaves: seq<Node>) {
    && (forall leaf <- leaves :: leaf.Leaf? && TreeValid(store, field, leaf))
    && (forall i :: 0 < i < |leaves| ==> leaves[i - 1].max <= leaves[i].min)
  }

  function Flatten(store: Disk, leaves: seq<Node>): Entries {
    if leaves == [] then [] else Flatten(store, leaves[..|leaves| - 1]) + LoadEntries(store, leaves[|leaves| - 1])
  }

  lemma {:induction false} FlattenConcat(store: Disk, a: seq<Node>, b: seq<Node>)
    ensures Flatten(store, a + b) == Flatten(store, a) + Flatten(store, b)
    decreases |b|
  {
    if b == [] {
      assert a + b == a;
    } else {
      FlattenConcat(store, a, b[..|b| - 1]);
      assert (a + b)[..|a + b| - 1] == a + b[..|b| - 1];
    }
  }

  lemma LeavesValidSplit(store: Disk, field: string, leaves: seq<Node>, mid: nat)
    requires LeavesValid(store, field, leaves) && mid <= |leaves|
    ensures LeavesValid(store, field, leaves[..mid]) && LeavesValid(store, field, leaves[mid..])
    ensures leaves == leaves[..mid] + leaves[mid..]
  {
    hide TreeValid;
  }

  lemma {:induction false} BuildTreeValid(store: Disk, field: string, leaves: seq<Node>)
    requires LeavesValid(store, field, leaves)
    ensures TreeValid(store, field, BuildTree(leaves))
    ensures LoadEntries(store, BuildTree(leaves)) == Flatten(store, leaves)
    ensures leaves != [] ==> !BuildTree(leaves).Nil? && BuildTree(leaves).min == leaves[0].min
                             && BuildTree(leaves).max == leaves[|leaves| - 1].max
    decreases |leaves|
  {
    hide LoadBlock, Spans;
    if |leaves| == 1 {
      assert Flatten(store, leaves) == Flatten(store, []) + LoadEntries(store, leaves[0]);
    } else if leaves != [] {
      var mid := |leaves| / 2;
      LeavesValidSplit(store, field, leaves, mid);
      BuildTreeValid(store, field, leaves[..mid]);
      BuildTreeValid(store, field, leaves[mid..]);
      FlattenConcat(store, leaves[..mid], leaves[mid..]);
      hide Flatten;
    }
  }

  function LeafCount(node: Node): nat {
    match node
    case Nil => 0
    case Leaf(_, _, _) => 1
    case Inner(_, _, left, right) => LeafCount(left) + LeafCount(right)
  }

  /** Every branching splits its leaves in halves. */
  predicate Balanced(node: Node) {
    node.Inner? ==>
      && LeafCount(node.left) <= LeafCount(node.right) <= LeafCount(node.left) + 1
      && Balanced(node.left) && Balanced(node.right)
  }

  lemma {:induction false} BuildTreeBalanced(leaves: seq<Node>)
    requires forall leaf <- leaves :: leaf.Leaf?
    ensures LeafCount(BuildTree(leaves)) == |leaves| && Balanced(BuildTree(leaves))
    decreases |leaves|
  {
    if |leaves| == 1 {
      assert leaves[0] in leaves;
    } else if leaves != [] {
      BuildTreeBalanced(leaves[..|leaves| / 2]);
      BuildTreeBalanced(leaves[|leaves| / 2..]);
    }
  }

  /** Blocks are stored under the field's name and their number in decimal. */
  lemma BlockKeyText(field: string, i: nat, d: nat)
    requires d < 10
    ensures BlockKey(field, d) == "_numblock:" + field + ":" + ["0123456789"[d]]
    ensures i > 0 ==> BlockKey(field, 10 * i + d) == BlockKey(field, i) + ["0123456789"[d]]
  {
    assert "0123456789"[d] == '0' + d as char;
    if i > 0 {
      assert (10 * i + d) / 10 == i && (10 * i + d) % 10 == d;
    }
  }

  // --- In-place pieces ---------------------------------------------------------

  /** The filter that writes survivors over the front of the slice it reads. */
  method FilterInPlace(a: array<NumericEntry>, deleted: set<DocId>) returns (n: nat)
    modifies a
    ensures n <= a.Length && a[..n] == Live(old(a[..]), deleted)
    ensures forall e :: multiset(a[..n])[e] == if e.docId in deleted then 0 else multiset(old(a[..]))[e]
  {
    n := 0;
    ghost var all := a[..];
    for i := 0 to a.Length
      invariant n <= i
      invariant a[..n] == Live(all[..i], deleted)
      invariant a[i..] == all[i..]
    {
      assert all[..i + 1][..i] == all[..i] && a[i] == a[i..][0] == all[i];
      assert a[i + 1..] == a[i..][1..];
      if a[i].docId !in deleted {
        a[n] := a[i];
        n := n + 1;
      }
      assert a[i + 1..] == all[i..][1..] == all[i + 1..];
    }
    assert all[..a.Length] == all;
    forall e { LiveCount(all, deleted, e); }
  }

  lemma {:induction false} LiveCount(es: Entries, deleted: set<DocId>, e: NumericEntry)
    ensures multiset(Live(es, deleted))[e] == if e.docId in deleted then 0 else multiset(es)[e]
    decreases |es|
  {
    if es != [] {
      LiveCount(es[..|es| - 1], deleted, e);
      assert es == es[..|es| - 1] + [es[|es| - 1]];
    }
  }

  predicate ValueLeq(x: NumericEntry, y: NumericEntry) { x.value <= y.value }

  method LiveSorted(es: Entries, deleted: set<DocId>) returns (live: Entries)
    ensures Sorted(live) && multiset(live) == multiset(Live(es, deleted))
    ensures forall i, j :: 0 <= i < j < |live| ==> live[i].value <= live[j].value
    ensures forall e :: multiset(live)[e] == if e.docId in deleted then 0 else multiset(es)[e]
  {
    if es == [] {
      return [];
    }
    var a := new NumericEntry[|es|](i requires 0 <= i < |es| => es[i]);
    assert a[..] == es;
    var n := FilterInPlace(a, deleted);
    assert a[0..n] == a[..n];
    SortSlice(a, 0, n, ValueLeq);
    live := a[0..n];
    assert forall i, j :: 0 <= i < j < |live| ==> ValueLeq(live[i], live[j]);
  }

  /** Cutting the sorted entries into blocks and storing each under its key. */
  method WriteBlocks(before: Disk, field: string, live: Entries) returns (store: Disk, leaves: seq<Node>)
    requires Sorted(live)
    ensures LeavesValid(store, field, leaves) && Flatten(store, leaves) == live
    ensures forall key :: (forall i: nat :: key != BlockKey(field, i)) ==>
            LoadBlock(store, key) == LoadBlock(before, key)
    ensures 512 * |leaves| < |live| + 512 && |live| <= 512 * |leaves|
    ensures forall j :: 0 <= j < |leaves| ==>
              leaves[j].Leaf? && leaves[j].blockKey == BlockKey(field, j) && IsBlock(store, leaves[j].blockKey, live, j)
  {
    hide BlockKey, EncodeBlock, BlocksWritten, Sorted;
    store, leaves := before, [];
    NothingWritten(before, field, live);
    var i := 0;
    while i < |live|
      invariant i == BLOCK_SIZE * |leaves| && i < |live| + BLOCK_SIZE
      invariant BlocksWritten(before, store, field, live, leaves)
    {
      var end := i + BLOCK_SIZE;
      if end > |live| {
        end := |live|;
      }
      var block := live[i..end];
      var key := BlockKey(field, i / BLOCK_SIZE);
      var data := Encode(block);
      var leaf := Leaf(block[0].value, block[|block| - 1].value, key);
      BlockIsWritten(before, store, field, live, leaves, leaf, data);
      store := store[key := data];
      leaves := leaves + [leaf];
      i := i + BLOCK_SIZE;
    }
    AllWritten(before, store, field, live, leaves);
  }

  /** The first blocks of the sorted entries stand in the store. */
  ghost predicate BlocksWritten(before: Disk, store: Disk, field: string, live: Entries, leaves: seq<Node>) {
    && LeavesValid(store, field, leaves) && Flatten(store, leaves) == live[..Clip(BLOCK_SIZE * |leaves|, |live|)]
    && (forall j :: 0 <= j < |leaves| ==>
          leaves[j].Leaf? && leaves[j].blockKey == BlockKey(field, j) && IsBlock(store, leaves[j].blockKey, live, j))
    && (leaves != [] ==>
          0 < Clip(BLOCK_SIZE * |leaves|, |live|)
          && leaves[|leaves| - 1].max == live[Clip(BLOCK_SIZE * |leaves|, |live|) - 1].value)
    && (forall key :: (forall j: nat :: key != BlockKey(field, j)) ==> LoadBlock(store, key) == LoadBlock(before, key))
  }

  lemma NothingWritten(before: Disk, field: string, live: Entries)
    ensures BlocksWritten(before, before, field, live, [])
  {
    NoLeaves(before, field);
  }

  lemma AllWritten(before: Disk, store: Disk, field: string, live: Entries, leaves: seq<Node>)
    requires BlocksWritten(before, store, field, live, leaves) && |live| <= BLOCK_SIZE * |leaves|
    ensures LeavesValid(store, field, leaves) && Flatten(store, leaves) == live
    ensures forall j :: 0 <= j < |leaves| ==>
              leaves[j].Leaf? && leaves[j].blockKey == BlockKey(field, j) && IsBlock(store, leaves[j].blockKey, live, j)
    ensures forall key :: (forall j: nat :: key != BlockKey(field, j)) ==>
            LoadBlock(store, key) == LoadBlock(before, key)
  {
    hide LeavesValid, BlockKey, LoadBlock, Flatten, IsBlock;
    assert live[..|live|] == live;
  }

  lemma BlockIsWritten(before: Disk, store: Disk, field: string, live: Entries, leaves: seq<Node>, leaf: Node,
                       data: bytes)
    requires Sorted(live) && BlocksWritten(before, store, field, live, leaves) && BLOCK_SIZE * |leaves| < |live|
    requires var i, end := BLOCK_SIZE * |leaves|, Clip(BLOCK_SIZE * |leaves| + BLOCK_SIZE, |live|);
             && data == EncodeBlock(live[i..end])
             && leaf == Leaf(live[i].value, live[end - 1].value, BlockKey(field, |leaves|))
    ensures BlocksWritten(before, store[leaf.blockKey := data], field, live, leaves + [leaf])
  {
    hide IsBlock, LeavesValid, BlockKey, LoadBlock, EncodeBlock, Flatten, Sorted, Spans;
    var i, end := BLOCK_SIZE * |leaves|, Clip(BLOCK_SIZE * |leaves| + BLOCK_SIZE, |live|);
    var store', block := store[leaf.blockKey := data], live[i..end];
    StoreBlock(store, field, leaves, block, data);
    SortedBlock(live, i, end);
    AppendLeaf(store', field, leaves, leaf, |leaves|, block);
    assert live[..end] == live[..i] + block;
    forall j | 0 <= j < |leaves| ensures IsBlock(store', leaves[j].blockKey, live, j) {
      BlockKept(store, store', leaves[j].blockKey, live, j);
    }
    BlockCut(store', leaf.blockKey, live, |leaves|);
  }

  /** The block holds the stretch of 512 entries with its number, or what is left of it. */
  predicate IsBlock(store: Disk, key: string, live: Entries, j: nat) {
    512 * j < |live| && LoadBlock(store, key) == live[512 * j..if 512 * j + 512 < |live| then 512 * j + 512 else |live|]
  }

  lemma BlockKept(store: Disk, store': Disk, key: string, live: Entries, j: nat)
    requires IsBlock(store, key, live, j) && LoadBlock(store', key) == LoadBlock(store, key)
    ensures IsBlock(store', key, live, j)
  {
  }

  lemma BlockCut(store: Disk, key: string, live: Entries, j: nat)
    requires BLOCK_SIZE * j < |live|
    requires LoadBlock(store, key) == live[BLOCK_SIZE * j..Clip(BLOCK_SIZE * j + BLOCK_SIZE, |live|)]
    ensures IsBlock(store, key, live, j)
  {
  }

  lemma SortedBlock(live: Entries, i: nat, end: nat)
    requires Sorted(live) && i < end <= |live|
    ensures Spans(live[i..end], live[i].value, live[end - 1].value)
    ensures i > 0 ==> live[i - 1].value <= live[i].value
  {
  }

  lemma NoLeaves(store: Disk, field: string)
    ensures LeavesValid(store, field, []) && Flatten(store, []) == []
  {
  }

  lemma AppendLeaf(store: Disk, field: string, leaves: seq<Node>, leaf: Node, i: nat, block: Entries)
    requires LeavesValid(store, field, leaves)
    requires leaf.Leaf? && leaf.blockKey == BlockKey(field, i) && LoadBlock(store, leaf.blockKey) == block
    requires |block| <= BLOCK_SIZE && Spans(block, leaf.min, leaf.max)
    requires leaves != [] ==> leaves[|leaves| - 1].max <= leaf.min
    ensures LeavesValid(store, field, leaves + [leaf])
    ensures Flatten(store, leaves + [leaf]) == Flatten(store, leaves) + block
  {
    assert (leaves + [leaf])[..|leaves|] == leaves;
    assert TreeValid(store, field, leaf);
    hide TreeValid, LoadBlock, BlockKey;
  }

  function Clip(i: nat, n: nat): nat { if i < n then i else n }

  /** Storing the next block leaves the blocks before it alone. */
  lemma StoreBlock(store: Disk, field: string, leaves: seq<Node>, block: Entries, data: bytes)
    requires LeavesValid(store, field, leaves)
    requires forall j :: 0 <= j < |leaves| ==> leaves[j].Leaf? && leaves[j].blockKey == BlockKey(field, j)
    requires |block| <= BLOCK_SIZE && data == EncodeBlock(block)
    ensures var store' := store[BlockKey(field, |leaves|) := data];
            && LeavesValid(store', field, leaves) && Flatten(store', leaves) == Flatten(store, leaves)
            && LoadBlock(store', BlockKey(field, |leaves|)) == block
            && (forall j :: 0 <= j < |leaves| ==>
                  LoadBlock(store', leaves[j].blockKey) == LoadBlock(store, leaves[j].blockKey))
            && (forall key :: (forall j: nat :: key != BlockKey(field, j)) ==>
                LoadBlock(store', key) == LoadBlock(store, key))
  {
    hide BlockKey, EncodeBlock, LoadBlock, TreeValid;
    StoreOne(store, BlockKey(field, |leaves|), block, data);
    var store' := store[BlockKey(field, |leaves|) := data];
    forall j | 0 <= j < |leaves|
      ensures LoadBlock(store', leaves[j].blockKey) == LoadBlock(store, leaves[j].blockKey)
    {
      if BlockKey(field, j) == BlockKey(field, |leaves|) {
        BlockKeyInjective(field, j, field, |leaves|);
      }
    }
    forall leaf | leaf in leaves ensures TreeValid(store', field, leaf) {
      LeafKept(store, store', field, leaf);
    }
    FlattenFrame(store, store', leaves);
  }

  lemma StoreOne(store: Disk, key: string, block: Entries, data: bytes)
    requires |block| <= BLOCK_SIZE && data == EncodeBlock(block)
    ensures LoadBlock(store[key := data], key) == block
    ensures forall k :: k != key ==> LoadBlock(store[key := data], k) == LoadBlock(store, k)
  {
    hide DecodeBlock, EncodeBlock;
    BlockRoundTrip(block, []);
    assert data + [] == data;
  }

  lemma LeafKept(store: Disk, store': Disk, field: string, leaf: Node)
    requires leaf.Leaf? && TreeValid(store, field, leaf)
    requires LoadBlock(store', leaf.blockKey) == LoadBlock(store, leaf.blockKey)
    ensures TreeValid(store', field, leaf)
  {
    hide BlockKey;
  }

  lemma {:induction false} FlattenFrame(store: Disk, store': Disk, leaves: seq<Node>)
    requires forall leaf <- leaves :: leaf.Leaf? && LoadBlock(store', leaf.blockKey) == LoadBlock(store, leaf.blockKey)
    ensures Flatten(store', leaves) == Flatten(store, leaves)
    decreases |leaves|
  {
    if leaves != [] {
      FlattenFrame(store, store', leaves[..|leaves| - 1]);
    }
  }
}
