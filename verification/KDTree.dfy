/**
 * The bounding-box tree of index/kdtree.go over one array of entries, compared with the
 * linear scan of index/index.go.
 */
module KDTree {
  import opened Wrappers

  // --- Numbers, entries, bounds ------------------------------------------------

  /** Floats without NaN. */
  datatype Num = NegInf | Fin(v: real) | PosInf

  predicate Less(a: Num, b: Num) {
    match (a, b)
    case (NegInf, _) => b != NegInf
    case (Fin(x), Fin(y)) => x < y
    case (Fin(_), PosInf) => true
    case _ => false
  }

  /** The order is that of the reals, between the infinities. */
  lemma OrderOfNumbers(x: real, y: real, n: Num)
    ensures Less(Fin(x), Fin(y)) <==> x < y
    ensures (Less(NegInf, n) <==> n != NegInf) && (Less(n, PosInf) <==> n != PosInf)
    ensures !Less(n, NegInf) && !Less(PosInf, n)
    ensures MinNum(Fin(x), Fin(y)) == Fin(if x <= y then x else y)
    ensures MaxNum(Fin(x), Fin(y)) == Fin(if x <= y then y else x)
  {
  }

  function MinNum(a: Num, b: Num): Num { if Less(a, b) then a else b }

  function MaxNum(a: Num, b: Num): Num { if Less(a, b) then b else a }

  type DocId = string
  type Values = map<string, Num>

  datatype Entry = Entry(docId: DocId, values: Values, deleted: bool)

  datatype FieldBound = FieldBound(field: string, gte: Option<Num>, lte: Option<Num>, gt: Option<Num>, lt: Option<Num>)

  /** Reading a map at a key it lacks yields zero. */
  function Read(m: Values, field: string): Num {
    if field in m then m[field] else Fin(0.0)
  }

  predicate Violates(b: FieldBound, val: Num) {
    || (b.gte.Some? && Less(val, b.gte.value))
    || (b.lte.Some? && Less(b.lte.value, val))
    || (b.gt.Some? && !Less(b.gt.value, val))
    || (b.lt.Some? && !Less(val, b.lt.value))
  }

  /** The check of the linear scan, or that of a leaf, which lets a missing field count as zero. */
  predicate Matches(e: Entry, bounds: seq<FieldBound>, missingIsZero: bool) {
    forall b <- bounds :: (missingIsZero || b.field in e.values) && !Violates(b, Read(e.values, b.field))
  }

  /** The checks in full: what a missing field counts as, and where each kind of bound lies. */
  lemma MatchesMeans(e: Entry, bounds: seq<FieldBound>, missingIsZero: bool)
    ensures Matches(e, bounds, missingIsZero) <==>
            forall b <- bounds ::
              && (b.field in e.values || missingIsZero)
              && var val := if b.field in e.values then e.values[b.field] else Fin(0.0);
                 && (b.gte.Some? ==> val == b.gte.value || Less(b.gte.value, val))
                 && (b.lte.Some? ==> val == b.lte.value || Less(val, b.lte.value))
                 && (b.gt.Some? ==> Less(b.gt.value, val))
                 && (b.lt.Some? ==> Less(val, b.lt.value))
  {
  }

  /** The documents an exhaustive scan returns. */
  function Scan(es: seq<Entry>, bounds: seq<FieldBound>, missingIsZero: bool): seq<DocId> {
    if es == [] then []
    else (if !es[0].deleted && Matches(es[0], bounds, missingIsZero) then [es[0].docId] else [])
         + Scan(es[1..], bounds, missingIsZero)
  }

  /** `kdEntryMatchesBounds`. */
  method EntryMatchesBounds(e: Entry, bounds: seq<FieldBound>) returns (ok: bool)
    ensures ok == Matches(e, bounds, false)
    ensures ok <==> forall b <- bounds ::
                      && b.field in e.values
                      && (b.gte.Some? ==> e.values[b.field] == b.gte.value || Less(b.gte.value, e.values[b.field]))
                      && (b.lte.Some? ==> e.values[b.field] == b.lte.value || Less(e.values[b.field], b.lte.value))
                      && (b.gt.Some? ==> Less(b.gt.value, e.values[b.field]))
                      && (b.lt.Some? ==> Less(e.values[b.field], b.lt.value))
  {
    MatchesMeans(e, bounds, false);
    for i := 0 to |bounds|
      invariant Matches(e, bounds[..i], false)
    {
      var b := bounds[i];
      assert b in bounds;
      assert bounds[..i + 1] == bounds[..i] + [b];
      if b.field !in e.values {
        return false;
      }
      var val := e.values[b.field];
      if b.gte.Some? && Less(val, b.gte.value) { return false; }
      if b.lte.Some? && Less(b.lte.value, val) { return false; }
      if b.gt.Some? && !Less(b.gt.value, val) { return false; }
      if b.lt.Some? && !Less(val, b.lt.value) { return false; }
    }
    assert bounds[..|bounds|] == bounds;
    return true;
  }

  // --- The tree ----------------------------------------------------------------

  const LEAF_SIZE := 64

  /** A leaf is a stretch of the entry array. */
  datatype Node =
    | Nil
    | Leaf(minVals: Values, maxVals: Values, lo: nat, hi: nat)
    | Split(field: string, val: Num, minVals: Values, maxVals: Values, left: Node, right: Node)

  predicate Covers(minVals: Values, maxVals: Values, e: Entry) {
    forall f <- e.values ::
      f in minVals && f in maxVals && !Less(e.values[f], minVals[f]) && !Less(maxVals[f], e.values[f])
  }

  function Middle(lo: nat, hi: nat): nat
    requires lo <= hi
  {
    lo + (hi - lo) / 2
  }

  /** The tree of a stretch: halves down to leaves, each box covering every value below it. */
  predicate NodeValid(node: Node, es: seq<Entry>, lo: nat, hi: nat)
    requires lo <= hi <= |es|
    decreases node
  {
    match node
    case Nil => lo == hi
    case Leaf(minVals, maxVals, l, h) =>
      && l == lo && h == hi && lo < hi <= lo + LEAF_SIZE
      && forall i :: lo <= i < hi ==> Covers(minVals, maxVals, es[i])
    case Split(_, _, minVals, maxVals, left, right) =>
      && hi > lo + LEAF_SIZE
      && NodeValid(left, es, lo, Middle(lo, hi)) && NodeValid(right, es, Middle(lo, hi), hi)
      && forall i :: lo <= i < hi ==> Covers(minVals, maxVals, es[i])
  }

  predicate LeafSizes(node: Node, least: nat, most: nat) {
    match node
    case Nil => true
    case Leaf(_, _, lo, hi) => lo + least <= hi <= lo + most
    case Split(_, _, _, _, left, right) => LeafSizes(left, least, most) && LeafSizes(right, least, most)
  }

  /** Every leaf of a tree that split at all holds 32 to 64 entries. */
  lemma {:induction false} SplitLeavesAreFull(node: Node, es: seq<Entry>, lo: nat, hi: nat)
    requires lo <= hi <= |es| && NodeValid(node, es, lo, hi) && (node.Split? || lo + 32 <= hi)
    ensures LeafSizes(node, 32, 64)
    decreases node
  {
    if node.Split? {
      SplitLeavesAreFull(node.left, es, lo, Middle(lo, hi));
      SplitLeavesAreFull(node.right, es, Middle(lo, hi), hi);
    }
  }

  lemma {:induction false} NodeFrame(node: Node, es: seq<Entry>, es': seq<Entry>, lo: nat, hi: nat)
    requires lo <= hi <= |es| && |es'| == |es| && NodeValid(node, es, lo, hi)
    requires forall i :: lo <= i < hi ==> es'[i].values == es[i].values
    ensures NodeValid(node, es', lo, hi)
    decreases node
  {
    if node.Split? {
      NodeFrame(node.left, es, es', lo, Middle(lo, hi));
      NodeFrame(node.right, es, es', Middle(lo, hi), hi);
    }
  }

  // --- Searching ---------------------------------------------------------------

  /** The box misses some bound entirely. */
  predicate Pruned(node: Node, bounds: seq<FieldBound>)
    requires !node.Nil?
  {
    exists b <- bounds ::
      || Less(Read(node.maxVals, b.field), if b.gte.Some? then b.gte.value else NegInf)
      || Less(if b.lte.Some? then b.lte.value else PosInf, Read(node.minVals, b.field))
  }

  function Found(node: Node, es: seq<Entry>, bounds: seq<FieldBound>, lo: nat, hi: nat): seq<DocId>
    requires lo <= hi <= |es| && NodeValid(node, es, lo, hi)
    decreases node
  {
    if node.Nil? || Pruned(node, bounds) then []
    else if node.Leaf? then Scan(es[lo..hi], bounds, true)
    else Found(node.left, es, bounds, lo, Middle(lo, hi)) + Found(node.right, es, bounds, Middle(lo, hi), hi)
  }

  lemma {:induction false} ScanConcat(a: seq<Entry>, b: seq<Entry>, bounds: seq<FieldBound>, z: bool)
    ensures Scan(a + b, bounds, z) == Scan(a, bounds, z) + Scan(b, bounds, z)
    decreases |a|
  {
    if a == [] {
      assert a + b == b;
    } else {
      assert (a + b)[1..] == a[1..] + b;
      ScanConcat(a[1..], b, bounds, z);
    }
  }

  /** What a scan returns, document by document. */
  lemma {:induction false} ScanHas(es: seq<Entry>, bounds: seq<FieldBound>, z: bool, d: DocId)
    ensures d in Scan(es, bounds, z) <==> exists e <- es :: e.docId == d && !e.deleted && Matches(e, bounds, z)
    decreases |es|
  {
    hide Matches;
    if es != [] {
      ScanHas(es[1..], bounds, z, d);
      assert es == [es[0]] + es[1..];
    }
  }

  lemma ScanHalves(es: seq<Entry>, bounds: seq<FieldBound>, z: bool, lo: nat, mid: nat, hi: nat)
    requires lo <= mid <= hi <= |es|
    ensures Scan(es[lo..hi], bounds, z) == Scan(es[lo..mid], bounds, z) + Scan(es[mid..hi], bounds, z)
  {
    assert es[lo..hi] == es[lo..mid] + es[mid..hi];
    ScanConcat(es[lo..mid], es[mid..hi], bounds, z);
  }

  lemma {:induction false} ScanNothing(es: seq<Entry>, bounds: seq<FieldBound>, z: bool)
    requires forall e <- es :: !Matches(e, bounds, z)
    ensures Scan(es, bounds, z) == []
    decreases |es|
  {
    if es != [] {
      assert es[0] in es;
      ScanNothing(es[1..], bounds, z);
    }
  }

  /** A pruned box holds nothing the linear scan would return. */
  lemma PruningLosesNothing(node: Node, es: seq<Entry>, bounds: seq<FieldBound>, lo: nat, hi: nat)
    requires lo <= hi <= |es| && NodeValid(node, es, lo, hi) && !node.Nil? && Pruned(node, bounds)
    ensures Scan(es[lo..hi], bounds, false) == []
  {
    var b :| b in bounds &&
      (Less(Read(node.maxVals, b.field), if b.gte.Some? then b.gte.value else NegInf)
       || Less(if b.lte.Some? then b.lte.value else PosInf, Read(node.minVals, b.field)));
    forall e | e in es[lo..hi] ensures !Matches(e, bounds, false) {
      var i :| lo <= i < hi && es[i] == e;
      assert Covers(node.minVals, node.maxVals, es[i]);
      if b.field in e.values {
        assert Violates(b, e.values[b.field]);
      }
    }
    ScanNothing(es[lo..hi], bounds, false);
  }

  lemma {:induction false} LinearWithinZero(es: seq<Entry>, bounds: seq<FieldBound>)
    ensures multiset(Scan(es, bounds, false)) <= multiset(Scan(es, bounds, true))
    ensures |Scan(es, bounds, false)| <= |Scan(es, bounds, true)|
    decreases |es|
  {
    if es != [] {
      LinearWithinZero(es[1..], bounds);
    }
  }

  /** Pruning is lossless and adds nothing: the tree's answer lies between the two scans. */
  lemma {:induction false} FoundBetweenScans(node: Node, es: seq<Entry>, bounds: seq<FieldBound>, lo: nat, hi: nat)
    requires lo <= hi <= |es| && NodeValid(node, es, lo, hi)
    ensures multiset(Scan(es[lo..hi], bounds, false)) <= multiset(Found(node, es, bounds, lo, hi))
    ensures multiset(Found(node, es, bounds, lo, hi)) <= multiset(Scan(es[lo..hi], bounds, true))
    decreases node
  {
    if node.Nil? {
      assert es[lo..hi] == [];
    } else if Pruned(node, bounds) {
      PruningLosesNothing(node, es, bounds, lo, hi);
    } else if node.Leaf? {
      LinearWithinZero(es[lo..hi], bounds);
    } else {
      var mid := Middle(lo, hi);
      FoundBetweenScans(node.left, es, bounds, lo, mid);
      FoundBetweenScans(node.right, es, bounds, mid, hi);
      ScanHalves(es, bounds, false, lo, mid, hi);
      ScanHalves(es, bounds, true, lo, mid, hi);
    }
  }

  /** Every entry not deleted has a value for the field. */
  predicate Carries(es: seq<Entry>, field: string) {
    forall e <- es :: !e.deleted ==> field in e.values
  }

  lemma {:induction false} ScansAgree(es: seq<Entry>, bounds: seq<FieldBound>)
    requires forall b <- bounds :: Carries(es, b.field)
    ensures Scan(es, bounds, false) == Scan(es, bounds, true)
    decreases |es|
  {
    if es != [] {
      assert es[0] in es;
      forall b <- bounds ensures Carries(es[1..], b.field) {
        assert Carries(es, b.field);
      }
      ScansAgree(es[1..], bounds);
      assert forall b <- bounds :: !es[0].deleted ==> b.field in es[0].values;
    }
  }

  /** When every entry carries the bounded fields, the tree is the linear scan. */
  lemma {:induction false} FoundIsLinearScan(node: Node, es: seq<Entry>, bounds: seq<FieldBound>, lo: nat, hi: nat)
    requires lo <= hi <= |es| && NodeValid(node, es, lo, hi)
    requires forall b <- bounds :: Carries(es[lo..hi], b.field)
    ensures Found(node, es, bounds, lo, hi) == Scan(es[lo..hi], bounds, false)
    decreases node
  {
    if node.Nil? {
      assert es[lo..hi] == [];
    } else if Pruned(node, bounds) {
      PruningLosesNothing(node, es, bounds, lo, hi);
    } else if node.Leaf? {
      ScansAgree(es[lo..hi], bounds);
    } else {
      var mid := Middle(lo, hi);
      forall b <- bounds ensures Carries(es[lo..mid], b.field) && Carries(es[mid..hi], b.field) {
        assert es[lo..hi] == es[lo..mid] + es[mid..hi] && Carries(es[lo..hi], b.field);
      }
      FoundIsLinearScan(node.left, es, bounds, lo, mid);
      FoundIsLinearScan(node.right, es, bounds, mid, hi);
      ScanHalves(es, bounds, false, lo, mid, hi);
    }
  }

  function Unbounded(field: string): FieldBound { FieldBound(field, None, None, None, None) }

  lemma {:induction false} UnboundedFindsAll(node: Node, es: seq<Entry>, field: string, lo: nat, hi: nat)
    requires lo <= hi <= |es| && NodeValid(node, es, lo, hi)
    ensures Found(node, es, [Unbounded(field)], lo, hi) == Scan(es[lo..hi], [Unbounded(field)], true)
    decreases node
  {
    if node.Nil? {
      assert es[lo..hi] == [];
    } else if node.Split? {
      var mid := Middle(lo, hi);
      UnboundedFindsAll(node.left, es, field, lo, mid);
      UnboundedFindsAll(node.right, es, field, mid, hi);
      ScanHalves(es, [Unbounded(field)], true, lo, mid, hi);
    }
  }

  lemma {:induction false} MissingFieldShows(es: seq<Entry>, field: string)
    requires !Carries(es, field)
    ensures |Scan(es, [Unbounded(field)], false)| < |Scan(es, [Unbounded(field)], true)|
    decreases |es|
  {
    var bounds := [Unbounded(field)];
    assert Unbounded(field) in bounds;
    LinearWithinZero(es[1..], bounds);
    assert Matches(es[0], bounds, true);
    if es[0].deleted || field in es[0].values {
      var e :| e in es && !e.deleted && field !in e.values;
      assert e in es[1..];
      MissingFieldShows(es[1..], field);
    } else {
      assert !Matches(es[0], bounds, false);
    }
  }

  /** Tree and linear scan agree on all bounds of a field exactly when every live entry carries it. */
  lemma TreeEqualsScanIff(root: Node, es: seq<Entry>, field: string)
    requires NodeValid(root, es, 0, |es|)
    ensures (forall b: FieldBound :: b.field == field ==> Found(root, es, [b], 0, |es|) == Scan(es, [b], false))
            <==> Carries(es, field)
  {
    assert es[0..|es|] == es;
    if Carries(es, field) {
      forall b: FieldBound | b.field == field
        ensures Found(root, es, [b], 0, |es|) == Scan(es, [b], false)
      {
        FoundIsLinearScan(root, es, [b], 0, |es|);
      }
    } else {
      UnboundedFindsAll(root, es, field, 0, |es|);
      MissingFieldShows(es, field);
      assert Found(root, es, [Unbounded(field)], 0, |es|) != Scan(es, [Unbounded(field)], false);
    }
  }
}
