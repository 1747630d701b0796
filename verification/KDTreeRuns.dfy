/** The tree as the program builds, searches and edits it, over any build followed by any deletes. */
module KDTreeRuns {
  import opened Sorting
  import opened KDTree
  import opened Sequences

  // --- Building ----------------------------------------------------------------

  ghost predicate HasOnly(e: Entry, fields: set<string>) {
    e.values.Keys <= fields
  }

  ghost predicate AllHaveOnly(es: seq<Entry>, fields: set<string>) {
    forall e <- es :: HasOnly(e, fields)
  }

  predicate ValueLeq(field: string, x: Entry, y: Entry) {
    !Less(Read(y.values, field), Read(x.values, field))
  }

  function ByField(field: string): (Entry, Entry) -> bool {
    (x, y) => ValueLeq(field, x, y)
  }

  lemma ByFieldIsPreorder(field: string)
    ensures TotalPreorder(ByField(field))
  {
  }

  /** The least value of a field among the entries, or infinity if none has the field. */
  predicate IsLeast(m: Num, es: seq<Entry>, f: string) {
    && (forall e <- es :: f in e.values ==> !Less(e.values[f], m))
    && (m == PosInf || exists e <- es :: f in e.values && e.values[f] == m)
  }

  predicate IsGreatest(m: Num, es: seq<Entry>, f: string) {
    && (forall e <- es :: f in e.values ==> !Less(m, e.values[f]))
    && (m == NegInf || exists e <- es :: f in e.values && e.values[f] == m)
  }

  /** The box has the true extremes of every field. */
  predicate IsBox(minVals: Values, maxVals: Values, es: seq<Entry>, fields: set<string>) {
    && minVals.Keys == fields && maxVals.Keys == fields
    && forall f <- fields :: IsLeast(minVals[f], es, f) && IsGreatest(maxVals[f], es, f)
  }

  lemma BoxCovers(minVals: Values, maxVals: Values, es: seq<Entry>, fields: set<string>, i: nat)
    requires IsBox(minVals, maxVals, es, fields) && AllHaveOnly(es, fields) && i < |es|
    ensures Covers(minVals, maxVals, es[i])
  {
    assert HasOnly(es[i], fields);
  }

  /** The extremes seen so far, as a box grows over a leaf. */
  method LeafBox(es: seq<Entry>, fields: set<string>) returns (minVals: Values, maxVals: Values)
    requires AllHaveOnly(es, fields)
    ensures IsBox(minVals, maxVals, es, fields)
  {
    hide IsBox, Stretched;
    minVals := map f | f in fields :: PosInf;
    maxVals := map f | f in fields :: NegInf;
    EmptyBox(minVals, maxVals, fields);
    assert es[..0] == [];
    for i := 0 to |es|
      invariant IsBox(minVals, maxVals, es[..i], fields)
    {
      assert HasOnly(es[i], fields);
      assert es[..i + 1] == es[..i] + [es[i]];
      ghost var mins, maxs := minVals, maxVals;
      BoxKeys(minVals, maxVals, es[..i], fields);
      minVals, maxVals := StretchBox(minVals, maxVals, es[i]);
      BoxGrows(mins, maxs, es[..i], fields, es[i], minVals, maxVals);
    }
    assert es[..|es|] == es;
  }

  lemma EmptyBox(minVals: Values, maxVals: Values, fields: set<string>)
    requires minVals.Keys == fields && maxVals.Keys == fields
    requires forall f <- fields :: minVals[f] == PosInf && maxVals[f] == NegInf
    ensures IsBox(minVals, maxVals, [], fields)
  {
  }

  lemma BoxKeys(minVals: Values, maxVals: Values, es: seq<Entry>, fields: set<string>)
    requires IsBox(minVals, maxVals, es, fields)
    ensures minVals.Keys == fields && maxVals.Keys == fields
  {
  }

  /** The box with one entry more. */
  predicate Stretched(mins: Values, maxs: Values, e: Entry, minVals: Values, maxVals: Values) {
    && mins.Keys == maxs.Keys == minVals.Keys == maxVals.Keys
    && forall f <- mins ::
         && minVals[f] == (if f in e.values && Less(e.values[f], mins[f]) then e.values[f] else mins[f])
         && maxVals[f] == (if f in e.values && Less(maxs[f], e.values[f]) then e.values[f] else maxs[f])
  }

  method StretchBox(mins: Values, maxs: Values, e: Entry) returns (minVals: Values, maxVals: Values)
    requires mins.Keys == maxs.Keys && e.values.Keys <= mins.Keys
    ensures Stretched(mins, maxs, e, minVals, maxVals)
  {
    minVals, maxVals := mins, maxs;
    var todo := e.values.Keys;
    while todo != {}
      invariant todo <= e.values.Keys
      invariant minVals.Keys == mins.Keys && maxVals.Keys == mins.Keys
      invariant forall f <- mins ::
                  && minVals[f] == (if f in e.values && f !in todo
                      && Less(e.values[f], mins[f]) then e.values[f] else mins[f])
                  && maxVals[f] == (if f in e.values && f !in todo
                      && Less(maxs[f], e.values[f]) then e.values[f] else maxs[f])
    {
      var field :| field in todo;
      todo := todo - {field};
      var val := e.values[field];
      if Less(val, minVals[field]) {
        minVals := minVals[field := val];
      }
      if Less(maxVals[field], val) {
        maxVals := maxVals[field := val];
      }
    }
  }

  lemma OneEntry(e: Entry, f: string)
    ensures IsLeast(if f in e.values then e.values[f] else PosInf, [e], f)
    ensures IsGreatest(if f in e.values then e.values[f] else NegInf, [e], f)
  {
    assert e in [e];
  }

  lemma BoxGrows(mins: Values, maxs: Values, es: seq<Entry>, fields: set<string>, e: Entry, minVals: Values,
                 maxVals: Values)
    requires IsBox(mins, maxs, es, fields) && Stretched(mins, maxs, e, minVals, maxVals)
    ensures IsBox(minVals, maxVals, es + [e], fields)
  {
    hide IsLeast, IsGreatest;
    forall f | f in fields ensures IsLeast(minVals[f], es + [e], f) && IsGreatest(maxVals[f], es + [e], f) {
      OneEntry(e, f);
      LeastOfBoth(mins[f], es, if f in e.values then e.values[f] else PosInf, [e], f);
      GreatestOfBoth(maxs[f], es, if f in e.values then e.values[f] else NegInf, [e], f);
    }
  }

  lemma LeastOfBoth(m: Num, x: seq<Entry>, n: Num, y: seq<Entry>, f: string)
    requires IsLeast(m, x, f) && IsLeast(n, y, f)
    ensures IsLeast(MinNum(m, n), x + y, f) && IsLeast(MinNum(n, m), x + y, f)
  {
    forall e | e in x || e in y ensures e in x + y {
    }
  }

  lemma GreatestOfBoth(m: Num, x: seq<Entry>, n: Num, y: seq<Entry>, f: string)
    requires IsGreatest(m, x, f) && IsGreatest(n, y, f)
    ensures IsGreatest(MaxNum(m, n), x + y, f) && IsGreatest(MaxNum(n, m), x + y, f)
  {
    forall e | e in x || e in y ensures e in x + y {
    }
  }

  /** The box at `f` is the hull of the two halves' boxes. */
  predicate Joined(left: Node, right: Node, minVals: Values, maxVals: Values, f: string)
    requires !left.Nil? && !right.Nil?
  {
    && f in minVals && minVals[f] == MinNum(Read(left.minVals, f), Read(right.minVals, f))
    && f in maxVals && maxVals[f] == MaxNum(Read(left.maxVals, f), Read(right.maxVals, f))
  }

  /** A box over two halves. */
  method JoinBoxes(left: Node, right: Node, fields: seq<string>) returns (minVals: Values, maxVals: Values)
    requires !left.Nil? && !right.Nil?
    ensures minVals.Keys == FieldSet(fields) && maxVals.Keys == FieldSet(fields)
    ensures forall f <- fields :: Joined(left, right, minVals, maxVals, f)
  {
    minVals, maxVals := map[], map[];
    for i := 0 to |fields|
      invariant minVals.Keys == FieldSet(fields[..i]) && maxVals.Keys == FieldSet(fields[..i])
      invariant forall k :: 0 <= k < i ==> Joined(left, right, minVals, maxVals, fields[k])
    {
      var f := fields[i];
      assert fields[..i + 1] == fields[..i] + [f];
      minVals := minVals[f := MinNum(Read(left.minVals, f), Read(right.minVals, f))];
      maxVals := maxVals[f := MaxNum(Read(left.maxVals, f), Read(right.maxVals, f))];
    }
    assert fields[..|fields|] == fields;
  }

  function FieldsOf(es: seq<Entry>): set<string> {
    set e, f | e in es && f in e.values :: f
  }

  /** Byte-wise order of strings. */
  predicate StringLeq(s: string, t: string) {
    s == "" || (t != "" && (s[0] < t[0] || (s[0] == t[0] && StringLeq(s[1..], t[1..]))))
  }

  lemma {:induction false} StringLeqTotal(s: string, t: string)
    ensures StringLeq(s, t) || StringLeq(t, s)
    decreases |s|
  {
    if s != "" && t != "" && s[0] == t[0] {
      StringLeqTotal(s[1..], t[1..]);
    }
  }

  lemma {:induction false} StringLeqTransitive(s: string, t: string, u: string)
    requires StringLeq(s, t) && StringLeq(t, u)
    ensures StringLeq(s, u)
    decreases |s|
  {
    if s != "" && s[0] == t[0] == u[0] {
      StringLeqTransitive(s[1..], t[1..], u[1..]);
    }
  }

  lemma StringLeqIsPreorder()
    ensures TotalPreorder(StringLeq)
  {
    forall s, t ensures StringLeq(s, t) || StringLeq(t, s) {
      StringLeqTotal(s, t);
    }
    forall s, t, u | StringLeq(s, t) && StringLeq(t, u) ensures StringLeq(s, u) {
      StringLeqTransitive(s, t, u);
    }
  }

  /** Every field of the entries once, in order: the rotation in which a tree splits. */
  ghost predicate IsFieldList(names: seq<string>, es: seq<Entry>) {
    SortedBy(names, StringLeq) && multiset(names) == multiset(FieldsOf(es))
  }

  function FieldSet(fields: seq<string>): set<string> {
    set f | f in fields
  }

  /** The joined box is the box of both halves' entries. */
  lemma JoinedIsBox(left: Node, right: Node, fields: seq<string>, minVals: Values, maxVals: Values,
                    x: seq<Entry>, y: seq<Entry>)
    requires !left.Nil? && !right.Nil?
    requires IsBox(left.minVals, left.maxVals, x, FieldSet(fields))
             && IsBox(right.minVals, right.maxVals, y, FieldSet(fields))
    requires minVals.Keys == FieldSet(fields) && maxVals.Keys == FieldSet(fields)
    requires forall f <- fields :: Joined(left, right, minVals, maxVals, f)
    ensures IsBox(minVals, maxVals, x + y, FieldSet(fields))
  {
    hide IsLeast, IsGreatest;
    forall f | f in FieldSet(fields) ensures IsLeast(minVals[f], x + y, f) && IsGreatest(maxVals[f], x + y, f) {
      assert f in fields && Joined(left, right, minVals, maxVals, f);
      LeastOfBoth(left.minVals[f], x, right.minVals[f], y, f);
      GreatestOfBoth(left.maxVals[f], x, right.maxVals[f], y, f);
    }
  }

  lemma PermutedHaveOnly(before: seq<Entry>, after: seq<Entry>, fields: set<string>)
    requires AllHaveOnly(before, fields) && multiset(before) == multiset(after)
    ensures AllHaveOnly(after, fields)
  {
    forall e <- after ensures HasOnly(e, fields) {
      assert e in multiset(after);
    }
  }

  method BuildLeaf(a: array<Entry>, lo: nat, hi: nat, fields: set<string>) returns (node: Node)
    requires lo < hi <= a.Length && hi <= lo + LEAF_SIZE
    requires AllHaveOnly(a[lo..hi], fields)
    ensures node.Leaf? && NodeValid(node, a[..], lo, hi) && IsBox(node.minVals, node.maxVals, a[lo..hi], fields)
  {
    hide IsBox, Covers;
    var minVals, maxVals := LeafBox(a[lo..hi], fields);
    forall i | lo <= i < hi ensures Covers(minVals, maxVals, a[..][i]) {
      BoxCovers(minVals, maxVals, a[lo..hi], fields, i - lo);
      assert a[..][i] == a[lo..hi][i - lo];
    }
    node := Leaf(minVals, maxVals, lo, hi);
  }

  /** No entry of the left half comes after one of the right half. */
  ghost predicate Ordered(x: seq<Entry>, y: seq<Entry>, field: string) {
    forall e <- x, f <- y :: ValueLeq(field, e, f)
  }

  /**
   * Every box has the true extremes below it, the fields take turns by depth, each split
   * separates its halves by its field, and the split value is the one that stands at the
   * middle once both halves are arranged.
   */
  ghost predicate SplitsWell(node: Node, es: seq<Entry>, lo: nat, hi: nat, depth: nat, fields: seq<string>)
    requires lo <= hi <= |es|
    decreases node
  {
    && (!node.Nil? ==> IsBox(node.minVals, node.maxVals, es[lo..hi], FieldSet(fields)))
    && (node.Split? ==>
      && lo < hi && fields != [] && node.field == fields[depth % |fields|]
      && Ordered(es[lo..Middle(lo, hi)], es[Middle(lo, hi)..hi], node.field)
      && node.val == Read(es[Middle(lo, hi)].values, node.field)
      && SplitsWell(node.left, es, lo, Middle(lo, hi), depth + 1, fields)
      && SplitsWell(node.right, es, Middle(lo, hi), hi, depth + 1, fields))
  }

  ghost predicate BuiltWell(node: Node, es: seq<Entry>, lo: nat, hi: nat, depth: nat, fields: seq<string>)
    requires lo <= hi <= |es|
  {
    NodeValid(node, es, lo, hi) && SplitsWell(node, es, lo, hi, depth, fields)
  }

  lemma {:induction false} SplitsFrame(node: Node, es: seq<Entry>, es': seq<Entry>, lo: nat, hi: nat, depth: nat,
                                       fields: seq<string>)
    requires lo <= hi <= |es| && |es'| == |es| && SplitsWell(node, es, lo, hi, depth, fields)
    requires es'[lo..hi] == es[lo..hi]
    ensures SplitsWell(node, es', lo, hi, depth, fields)
    decreases node
  {
    if node.Split? {
      var m := Middle(lo, hi);
      SubSlices(es, es', lo, m, hi);
      SplitsFrame(node.left, es, es', lo, m, depth + 1, fields);
      SplitsFrame(node.right, es, es', m, hi, depth + 1, fields);
    }
  }

  lemma SubSlices(es: seq<Entry>, es': seq<Entry>, lo: nat, m: nat, hi: nat)
    requires lo <= m <= hi <= |es| == |es'| && es'[lo..hi] == es[lo..hi]
    ensures es'[lo..m] == es[lo..m] && es'[m..hi] == es[m..hi]
    ensures m < hi ==> es'[m] == es[m]
  {
    assert es[lo..m] == es[lo..hi][..m - lo] && es[m..hi] == es[lo..hi][m - lo..];
    assert es'[lo..m] == es'[lo..hi][..m - lo] && es'[m..hi] == es'[lo..hi][m - lo..];
    if m < hi {
      assert es[m] == es[m..hi][0] && es'[m] == es'[m..hi][0];
    }
  }

  method BuildNode(a: array<Entry>, lo: nat, hi: nat, depth: nat, fields: seq<string>) returns (node: Node)
    requires lo <= hi <= a.Length
    requires hi > lo + LEAF_SIZE ==> fields != []
    requires AllHaveOnly(a[lo..hi], FieldSet(fields))
    modifies a
    ensures Permutes(a, lo, hi)
    ensures BuiltWell(node, a[..], lo, hi, depth, fields)
    decreases hi - lo, 1
  {
    hide AllHaveOnly, Covers, Joined, NodeValid, SortedBy, TotalPreorder, Ordered, IsBox;
    if lo == hi {
      NilIsValid(a[..], lo);
      return Nil;
    }
    if hi <= lo + LEAF_SIZE {
      node := BuildLeaf(a, lo, hi, FieldSet(fields));
      return;
    }
    var splitField := fields[depth % |fields|];
    ByFieldIsPreorder(splitField);
    SortSlice(a, lo, hi, ByField(splitField));
    PermutedHaveOnly(old(a[lo..hi]), a[lo..hi], FieldSet(fields));
    node := BuildHalves(a, lo, hi, depth, fields, splitField);
  }

  /** The two halves of a sorted slice, and the box and split over them. */
  method BuildHalves(a: array<Entry>, lo: nat, hi: nat, depth: nat, fields: seq<string>, splitField: string)
    returns (node: Node)
    requires lo + LEAF_SIZE < hi <= a.Length && fields != [] && splitField == fields[depth % |fields|]
    requires AllHaveOnly(a[lo..hi], FieldSet(fields)) && SortedBy(a[lo..hi], ByField(splitField))
    modifies a
    ensures Permutes(a, lo, hi)
    ensures BuiltWell(node, a[..], lo, hi, depth, fields)
    decreases hi - lo, 0
  {
    hide AllHaveOnly, Covers, Joined, NodeValid, SortedBy, SplitsWell, Ordered, IsBox;
    var median := Middle(lo, hi);
    ghost var sorted := a[..];
    HalvesHaveOnly(a[lo..hi], median - lo, a[lo..median], a[median..hi], FieldSet(fields));
    var left := BuildNode(a, lo, median, depth + 1, fields);
    ghost var half := a[..];
    assert a[median..hi] == sorted[median..hi] by { WithinTail(half[median..], sorted[median..], hi - median); }
    var right := BuildNode(a, median, hi, depth + 1, fields);
    HalvesStand(left, half, a[..], lo, median, depth + 1, fields);
    HalvesExist(left, right, a[..], lo, median, hi);
    var minVals, maxVals := JoinBoxes(left, right, fields);
    StretchPermuted(sorted, half, a[..], lo, median, hi);
    PermutedHaveOnly(sorted[lo..hi], a[lo..hi], FieldSet(fields));
    JoinedBoxCovers(left, right, fields, minVals, maxVals, a[..], lo, median, hi, depth + 1);
    HalvesOrdered(sorted, half, a[..], lo, median, hi, splitField);
    node := Split(splitField, Read(a[median].values, splitField), minVals, maxVals, left, right);
    SplitIsBuilt(node, a[..], lo, hi, depth, fields);
  }

  /** Arranging the right half leaves the left one as built. */
  lemma HalvesStand(left: Node, half: seq<Entry>, es: seq<Entry>, lo: nat, m: nat, depth: nat, fields: seq<string>)
    requires lo <= m <= |es| == |half| && es[..m] == half[..m] && BuiltWell(left, half, lo, m, depth, fields)
    ensures BuiltWell(left, es, lo, m, depth, fields)
  {
    PrefixKept(es, half, m);
    NodeFrame(left, half, es, lo, m);
    assert es[lo..m] == es[..m][lo..] && half[lo..m] == half[..m][lo..];
    SplitsFrame(left, half, es, lo, m, depth, fields);
  }

  lemma HalvesApart(root: Node, es: seq<Entry>, fields: seq<string>)
    requires SplitsWell(root, es, 0, |es|, 0, fields)
    ensures root.Split? ==> forall i, j :: 0 <= i < |es| / 2 <= j < |es| ==> ValueLeq(root.field, es[i], es[j])
  {
    if root.Split? {
      var m := Middle(0, |es|);
      forall i, j | 0 <= i < m <= j < |es| ensures ValueLeq(root.field, es[i], es[j]) {
        assert es[0..m][i] == es[i] && es[m..|es|][j - m] == es[j];
      }
    }
  }

  /** Sorted halves stay apart however each is rearranged. */
  lemma HalvesOrdered(sorted: seq<Entry>, half: seq<Entry>, es: seq<Entry>, lo: nat, m: nat, hi: nat, field: string)
    requires lo <= m <= hi <= |sorted| == |half| == |es|
    requires SortedBy(sorted[lo..hi], ByField(field))
    requires multiset(half[lo..m]) == multiset(sorted[lo..m]) && half[m..] == sorted[m..]
    requires es[..m] == half[..m] && multiset(es[m..hi]) == multiset(half[m..hi])
    ensures Ordered(es[lo..m], es[m..hi], field)
  {
    assert es[lo..m] == es[..m][lo..] == half[..m][lo..] == half[lo..m];
    assert half[m..hi] == half[m..][..hi - m] == sorted[m..][..hi - m] == sorted[m..hi];
    assert sorted[lo..m] == sorted[lo..hi][..m - lo] && sorted[m..hi] == sorted[lo..hi][m - lo..];
    PermutedApart(sorted[lo..hi], m - lo, es[lo..m], es[m..hi], field);
  }

  lemma PermutedApart(sorted: seq<Entry>, m: nat, x: seq<Entry>, y: seq<Entry>, field: string)
    requires m <= |sorted| && SortedBy(sorted, ByField(field))
    requires multiset(x) == multiset(sorted[..m]) && multiset(y) == multiset(sorted[m..])
    ensures Ordered(x, y, field)
  {
    forall e, f | e in x && f in y ensures ValueLeq(field, e, f) {
      assert e in multiset(x) && f in multiset(y);
      var i :| 0 <= i < m && sorted[..m][i] == e;
      var j :| 0 <= j < |sorted| - m && sorted[m..][j] == f;
      assert sorted[i] == e && sorted[m + j] == f;
      assert ByField(field)(e, f);
    }
  }

  lemma NilIsValid(es: seq<Entry>, lo: nat)
    requires lo <= |es|
    ensures NodeValid(Nil, es, lo, lo)
  {
  }

  lemma SplitIsBuilt(node: Node, es: seq<Entry>, lo: nat, hi: nat, depth: nat, fields: seq<string>)
    requires lo <= hi <= |es| && node.Split? && hi > lo + LEAF_SIZE
    requires fields != [] && node.field == fields[depth % |fields|]
    requires Ordered(es[lo..Middle(lo, hi)], es[Middle(lo, hi)..hi], node.field)
    requires node.val == Read(es[Middle(lo, hi)].values, node.field)
    requires BuiltWell(node.left, es, lo, Middle(lo, hi), depth + 1, fields)
    requires BuiltWell(node.right, es, Middle(lo, hi), hi, depth + 1, fields)
    requires forall i :: lo <= i < hi ==> Covers(node.minVals, node.maxVals, es[i])
    requires IsBox(node.minVals, node.maxVals, es[lo..hi], FieldSet(fields))
    ensures BuiltWell(node, es, lo, hi, depth, fields)
  {
    hide Covers, Ordered, IsBox;
  }

  lemma HalvesExist(left: Node, right: Node, es: seq<Entry>, lo: nat, m: nat, hi: nat)
    requires lo < m < hi <= |es| && NodeValid(left, es, lo, m) && NodeValid(right, es, m, hi)
    ensures !left.Nil? && !right.Nil?
  {
  }

  lemma HalvesHaveOnly(es: seq<Entry>, m: nat, x: seq<Entry>, y: seq<Entry>, fields: set<string>)
    requires m <= |es| && x == es[..m] && y == es[m..] && AllHaveOnly(es, fields)
    ensures AllHaveOnly(x, fields) && AllHaveOnly(y, fields)
  {
  }

  lemma WithinTail(x: seq<Entry>, y: seq<Entry>, n: nat)
    requires x == y && n <= |x|
    ensures x[..n] == y[..n]
  {
  }

  lemma PrefixKept(x: seq<Entry>, y: seq<Entry>, m: nat)
    requires |x| == |y| && m <= |x| && x[..m] == y[..m]
    ensures forall i :: 0 <= i < m ==> x[i] == y[i]
  {
    assert forall i :: 0 <= i < m ==> x[..m][i] == y[..m][i];
  }

  /** Permuting both halves permutes the whole. */
  lemma StretchPermuted(x: seq<Entry>, y: seq<Entry>, z: seq<Entry>, lo: nat, m: nat, hi: nat)
    requires lo <= m <= hi <= |x| == |y| == |z|
    requires y[m..] == x[m..] && multiset(y[lo..m]) == multiset(x[lo..m]) && y[..lo] == x[..lo]
    requires z[..m] == y[..m] && multiset(z[m..hi]) == multiset(y[m..hi]) && z[hi..] == y[hi..]
    ensures multiset(z[lo..hi]) == multiset(x[lo..hi]) && z[..lo] == x[..lo] && z[hi..] == x[hi..]
  {
    assert z[lo..hi] == z[lo..m] + z[m..hi] && x[lo..hi] == x[lo..m] + x[m..hi];
    assert z[lo..m] == z[..m][lo..] == y[..m][lo..] == y[lo..m];
    assert y[m..hi] == y[m..][..hi - m] == x[m..][..hi - m] == x[m..hi];
    assert z[..lo] == z[..m][..lo] == y[..m][..lo] == y[..lo];
    assert y[hi..] == y[m..][hi - m..] == x[m..][hi - m..] == x[hi..];
  }

  lemma JoinedBoxCovers(left: Node, right: Node, fields: seq<string>, minVals: Values, maxVals: Values,
                        es: seq<Entry>, lo: nat, m: nat, hi: nat, depth: nat)
    requires lo < m < hi <= |es| && !left.Nil? && !right.Nil?
    requires SplitsWell(left, es, lo, m, depth, fields) && SplitsWell(right, es, m, hi, depth, fields)
    requires AllHaveOnly(es[lo..hi], FieldSet(fields))
    requires minVals.Keys == FieldSet(fields) && maxVals.Keys == FieldSet(fields)
    requires forall f <- fields :: Joined(left, right, minVals, maxVals, f)
    ensures IsBox(minVals, maxVals, es[lo..hi], FieldSet(fields))
    ensures forall i :: lo <= i < hi ==> Covers(minVals, maxVals, es[i])
  {
    hide IsBox, Covers, Joined, AllHaveOnly;
    JoinedIsBox(left, right, fields, minVals, maxVals, es[lo..m], es[m..hi]);
    assert es[lo..hi] == es[lo..m] + es[m..hi];
    forall i | lo <= i < hi ensures Covers(minVals, maxVals, es[i]) {
      BoxCovers(minVals, maxVals, es[lo..hi], FieldSet(fields), i - lo);
    }
  }

  // --- Searching and deleting --------------------------------------------------

  method IsPruned(node: Node, bounds: seq<FieldBound>) returns (pruned: bool)
    requires !node.Nil?
    ensures pruned == Pruned(node, bounds)
  {
    for i := 0 to |bounds|
      invariant !Pruned(node, bounds[..i])
    {
      var bound := bounds[i];
      assert bound in bounds;
      assert bounds[..i + 1] == bounds[..i] + [bound];
      if Less(Read(node.maxVals, bound.field), if bound.gte.Some? then bound.gte.value else NegInf)
         || Less(if bound.lte.Some? then bound.lte.value else PosInf, Read(node.minVals, bound.field))
      {
        return true;
      }
    }
    assert bounds[..|bounds|] == bounds;
    return false;
  }

  method SearchLeaf(es: seq<Entry>, bounds: seq<FieldBound>) returns (result: seq<DocId>)
    ensures result == Scan(es, bounds, true)
  {
    result := [];
    for i := 0 to |es|
      invariant result == Scan(es[..i], bounds, true)
    {
      var entry := es[i];
      assert es[..i + 1] == es[..i] + [entry];
      ScanConcat(es[..i], [entry], bounds, true);
      if entry.deleted {
        continue;
      }
      var matches := LeafMatches(entry, bounds);
      if matches {
        result := result + [entry.docId];
      }
    }
    assert es[..|es|] == es;
  }

  method LeafMatches(entry: Entry, bounds: seq<FieldBound>) returns (matches: bool)
    ensures matches == Matches(entry, bounds, true)
    ensures matches <==> forall b <- bounds ::
                           var val := if b.field in entry.values then entry.values[b.field] else Fin(0.0);
                           && (b.gte.Some? ==> val == b.gte.value || Less(b.gte.value, val))
                           && (b.lte.Some? ==> val == b.lte.value || Less(val, b.lte.value))
                           && (b.gt.Some? ==> Less(b.gt.value, val))
                           && (b.lt.Some? ==> Less(val, b.lt.value))
  {
    MatchesMeans(entry, bounds, true);
    hide Less;
    matches := true;
    for i := 0 to |bounds|
      invariant matches == Matches(entry, bounds[..i], true)
    {
      var bound := bounds[i];
      assert bound in bounds;
      assert bounds[..i + 1] == bounds[..i] + [bound];
      var val := Read(entry.values, bound.field);
      if (bound.gte.Some? && Less(val, bound.gte.value)) || (bound.lte.Some? && Less(bound.lte.value, val))
         || (bound.gt.Some? && !Less(bound.gt.value, val)) || (bound.lt.Some? && !Less(val, bound.lt.value))
      {
        return false;
      }
    }
    assert bounds[..|bounds|] == bounds;
  }

  method SearchNode(node: Node, es: seq<Entry>, bounds: seq<FieldBound>, ghost lo: nat, ghost hi: nat)
    returns (result: seq<DocId>)
    requires lo <= hi <= |es| && NodeValid(node, es, lo, hi)
    ensures result == Found(node, es, bounds, lo, hi)
    decreases node
  {
    if node.Nil? {
      return [];
    }
    var pruned := IsPruned(node, bounds);
    if pruned {
      return [];
    }
    if node.Leaf? {
      result := SearchLeaf(es[node.lo..node.hi], bounds);
      return;
    }
    var left := SearchNode(node.left, es, bounds, lo, Middle(lo, hi));
    var right := SearchNode(node.right, es, bounds, Middle(lo, hi), hi);
    result := left + right;
  }

  predicate UniqueIds(es: seq<Entry>) {
    forall i, j :: 0 <= i < j < |es| ==> es[i].docId != es[j].docId
  }

  function Mark(e: Entry, gone: set<DocId>): Entry {
    if e.docId in gone then e.(deleted := true) else e
  }

  /** The entries with those of the given documents flagged as deleted. */
  function Marked(es: seq<Entry>, gone: set<DocId>): seq<Entry> {
    seq(|es|, i requires 0 <= i < |es| => Mark(es[i], gone))
  }

  /** In each leaf the first entry of the document is flagged; with unique ids that is every one. */
  method DeleteFromNode(a: array<Entry>, node: Node, docId: DocId, lo: nat, hi: nat)
    requires lo <= hi <= a.Length && NodeValid(node, a[..], lo, hi)
    modifies a
    ensures DeletedWithin(old(a[..]), a[..], docId, lo, hi)
    decreases node
  {
    hide DeletedWithin, UniqueIds;
    if node.Nil? {
      NothingDeleted(a[..], docId, lo);
      return;
    }
    if node.Leaf? {
      DeleteFromLeaf(a, docId, lo, hi);
      return;
    }
    var mid := Middle(lo, hi);
    ghost var before := a[..];
    DeleteFromNode(a, node.left, docId, lo, mid);
    ghost var half := a[..];
    RestStands(before, half, docId, lo, mid);
    NodeFrame(node.right, before, half, mid, hi);
    DeleteFromNode(a, node.right, docId, mid, hi);
    DeletedInHalves(before, half, a[..], docId, lo, mid, hi);
  }

  /** Flags of the document may be set within the slice, all of them if its ids are unique; the rest stands. */
  ghost predicate DeletedWithin(es: seq<Entry>, es': seq<Entry>, docId: DocId, lo: nat, hi: nat)
    requires lo <= hi <= |es|
  {
    && |es'| == |es|
    && (forall i :: 0 <= i < |es| ==> es'[i] == es[i] || (lo <= i < hi && es'[i] == Mark(es[i], {docId})))
    && (UniqueIds(es[lo..hi]) ==> forall i :: lo <= i < hi ==> es'[i] == Mark(es[i], {docId}))
  }

  method DeleteFromLeaf(a: array<Entry>, docId: DocId, lo: nat, hi: nat)
    requires lo <= hi <= a.Length
    modifies a
    ensures DeletedWithin(old(a[..]), a[..], docId, lo, hi)
    ensures (forall k :: lo <= k < hi ==> old(a[k].docId) != docId) ==> a[..] == old(a[..])
    ensures forall i | lo <= i < hi && old(a[i].docId) == docId
                       && (forall k :: lo <= k < i ==> old(a[k].docId) != docId) ::
              a[..] == old(a[..])[i := old(a[i]).(deleted := true)]
  {
    ghost var before := a[..];
    for i := lo to hi
      invariant a[..] == before
      invariant forall k :: lo <= k < i ==> before[k].docId != docId
    {
      if a[i].docId == docId {
        a[i] := a[i].(deleted := true);
        FirstFlagged(before, docId, lo, i, hi);
        return;
      }
    }
  }

  lemma FirstFlagged(es: seq<Entry>, docId: DocId, lo: nat, i: nat, hi: nat)
    requires lo <= i < hi <= |es| && es[i].docId == docId
    requires forall k :: lo <= k < i ==> es[k].docId != docId
    ensures DeletedWithin(es, es[i := Mark(es[i], {docId})], docId, lo, hi)
  {
    assert forall k :: lo <= k < hi ==> es[lo..hi][k - lo] == es[k];
  }

  lemma NothingDeleted(es: seq<Entry>, docId: DocId, lo: nat)
    requires lo <= |es|
    ensures DeletedWithin(es, es, docId, lo, lo)
  {
  }

  lemma RestStands(es: seq<Entry>, es': seq<Entry>, docId: DocId, lo: nat, hi: nat)
    requires lo <= hi <= |es| && DeletedWithin(es, es', docId, lo, hi)
    ensures |es'| == |es| && es'[hi..] == es[hi..]
    ensures forall i :: 0 <= i < |es| ==> es'[i].values == es[i].values
  {
  }

  lemma DeletedInHalves(es: seq<Entry>, half: seq<Entry>, es': seq<Entry>, docId: DocId, lo: nat, mid: nat, hi: nat)
    requires lo <= mid <= hi <= |es| == |half|
    requires DeletedWithin(es, half, docId, lo, mid) && DeletedWithin(half, es', docId, mid, hi)
    ensures DeletedWithin(es, es', docId, lo, hi)
  {
    UniqueHalves(es, lo, mid, hi);
    assert half[mid..hi] == es[mid..hi];
    hide UniqueIds;
  }

  lemma UniqueHalves(es: seq<Entry>, lo: nat, mid: nat, hi: nat)
    requires lo <= mid <= hi <= |es|
    ensures UniqueIds(es[lo..hi]) ==> UniqueIds(es[lo..mid]) && UniqueIds(es[mid..hi])
  {
    if UniqueIds(es[lo..hi]) {
      assert es[lo..mid] == es[lo..hi][..mid - lo] && es[mid..hi] == es[lo..hi][mid - lo..];
    }
  }

  // --- Permutations ------------------------------------------------------------

  lemma ScanMiddle(front: seq<Entry>, e: Entry, back: seq<Entry>, bounds: seq<FieldBound>, z: bool)
    ensures multiset(Scan(front + ([e] + back), bounds, z))
            == multiset(Scan([e], bounds, z)) + multiset(Scan(front + back, bounds, z))
  {
    hide Scan;
    ScanConcat(front, [e] + back, bounds, z);
    ScanConcat([e], back, bounds, z);
    ScanConcat(front, back, bounds, z);
  }

  lemma {:induction false} ScanPermutes(x: seq<Entry>, y: seq<Entry>, bounds: seq<FieldBound>, z: bool)
    requires multiset(x) == multiset(y)
    ensures multiset(Scan(x, bounds, z)) == multiset(Scan(y, bounds, z))
    decreases |x|
  {
    hide Scan;
    SameMultisetEmpty(x, y);
    if x != [] {
      TakeHead(x);
      var front, back := TakeOut(y, x[0]);
      ScanPermutes(x[1..], front + back, bounds, z);
      ScanMiddle([], x[0], x[1..], bounds, z);
      ScanMiddle(front, x[0], back, bounds, z);
    }
  }

  lemma MarkedConcat(x: seq<Entry>, y: seq<Entry>, gone: set<DocId>)
    ensures Marked(x + y, gone) == Marked(x, gone) + Marked(y, gone)
  {
  }

  lemma MarkedMiddle(front: seq<Entry>, e: Entry, back: seq<Entry>, gone: set<DocId>)
    ensures multiset(Marked(front + ([e] + back), gone))
            == multiset(Marked([e], gone)) + multiset(Marked(front + back, gone))
  {
    hide Marked;
    MarkedConcat(front, [e] + back, gone);
    MarkedConcat([e], back, gone);
    MarkedConcat(front, back, gone);
  }

  lemma {:induction false} MarkedPermutes(x: seq<Entry>, y: seq<Entry>, gone: set<DocId>)
    requires multiset(x) == multiset(y)
    ensures multiset(Marked(x, gone)) == multiset(Marked(y, gone))
    decreases |x|
  {
    hide Marked;
    SameMultisetEmpty(x, y);
    if x != [] {
      TakeHead(x);
      var front, back := TakeOut(y, x[0]);
      MarkedPermutes(x[1..], front + back, gone);
      MarkedMiddle([], x[0], x[1..], gone);
      MarkedMiddle(front, x[0], back, gone);
    }
  }

  lemma CarriesPermutes(x: seq<Entry>, y: seq<Entry>, field: string)
    requires multiset(x) == multiset(y) && Carries(x, field)
    ensures Carries(y, field)
  {
    forall e | e in y && !e.deleted ensures field in e.values {
      assert e in multiset(y);
      assert e in multiset(x);
    }
  }

  function IdsOf(es: seq<Entry>): set<DocId> {
    set e | e in es :: e.docId
  }

  /** With unique ids, no document is returned twice. */
  lemma HeadIsNew(es: seq<Entry>)
    requires UniqueIds(es) && es != []
    ensures UniqueIds(es[1..]) && es[0].docId !in IdsOf(es[1..])
    ensures IdsOf(es) == IdsOf(es[1..]) + {es[0].docId}
  {
    forall e | e in es[1..] ensures e.docId != es[0].docId {
      var i :| 0 <= i < |es[1..]| && es[1..][i] == e;
      assert es[i + 1] == e;
    }
    assert es == [es[0]] + es[1..];
  }

  /** With unique ids, no document is returned twice. */
  lemma {:induction false} ScanReturnsOnce(es: seq<Entry>, bounds: seq<FieldBound>, z: bool, d: DocId)
    requires UniqueIds(es)
    ensures multiset(Scan(es, bounds, z))[d] <= 1
    ensures d in Scan(es, bounds, z) ==> d in IdsOf(es)
    decreases |es|
  {
    if es != [] {
      hide UniqueIds, IdsOf, Matches;
      HeadIsNew(es);
      ScanReturnsOnce(es[1..], bounds, z, d);
    }
  }

  // --- The box of the root -----------------------------------------------------

  /** The root's box has the true extremes of all fields of the entries. */
  ghost predicate RootBox(root: Node, es: seq<Entry>, fields: seq<string>) {
    !root.Nil? ==> FieldSet(fields) == FieldsOf(es) && IsBox(root.minVals, root.maxVals, es, FieldSet(fields))
  }

  /** The values that a field has among the entries. */
  function FieldValues(es: seq<Entry>, f: string): set<Num> {
    set e | e in es && f in e.values :: e.values[f]
  }

  lemma ExtremesOfValues(m: Num, es: seq<Entry>, f: string)
    ensures IsLeast(m, es, f) <==>
            (forall v <- FieldValues(es, f) :: !Less(v, m)) && (m == PosInf || m in FieldValues(es, f))
    ensures IsGreatest(m, es, f) <==>
            (forall v <- FieldValues(es, f) :: !Less(m, v)) && (m == NegInf || m in FieldValues(es, f))
  {
    assert forall e <- es :: f in e.values ==> e.values[f] in FieldValues(es, f);
    forall v | v in FieldValues(es, f) ensures exists e <- es :: f in e.values && e.values[f] == v {
    }
  }

  /** Every entry has its likeness, but for the flag. */
  ghost predicate AllAlike(es: seq<Entry>, es': seq<Entry>) {
    forall e <- es :: exists o <- es' :: o.values == e.values
  }

  lemma AlikeHaveSame(es: seq<Entry>, es': seq<Entry>, f: string)
    requires AllAlike(es, es') && AllAlike(es', es)
    ensures FieldValues(es, f) == FieldValues(es', f)
    ensures f in FieldsOf(es) <==> f in FieldsOf(es')
  {
    hide AllAlike, FieldValues, FieldsOf;
    HaveSome(es, es', f);
    HaveSome(es', es, f);
  }

  lemma HaveSome(es: seq<Entry>, es': seq<Entry>, f: string)
    requires AllAlike(es, es')
    ensures FieldValues(es, f) <= FieldValues(es', f)
    ensures f in FieldsOf(es) ==> f in FieldsOf(es')
  {
    forall v | v in FieldValues(es, f) ensures v in FieldValues(es', f) {
      var e :| e in es && f in e.values && e.values[f] == v;
      var o :| o in es' && o.values == e.values;
    }
    if e :| e in es && f in e.values {
      var o :| o in es' && o.values == e.values;
    }
  }

  lemma PointwiseAlike(es: seq<Entry>, es': seq<Entry>)
    requires |es'| == |es| && forall i :: 0 <= i < |es| ==> es'[i].values == es[i].values
    ensures AllAlike(es, es')
  {
    forall e | e in es ensures exists o <- es' :: o.values == e.values {
      var i :| 0 <= i < |es| && es[i] == e;
      assert es'[i] in es';
    }
  }

  /** Flags do not move boxes. */
  lemma RootBoxFrame(root: Node, es: seq<Entry>, es': seq<Entry>, fields: seq<string>)
    requires RootBox(root, es, fields) && AllAlike(es, es') && AllAlike(es', es)
    ensures RootBox(root, es', fields)
  {
    hide AllAlike, IsLeast, IsGreatest, FieldValues, FieldsOf;
    if !root.Nil? {
      forall f ensures f in FieldsOf(es) <==> f in FieldsOf(es') {
        AlikeHaveSame(es, es', f);
      }
      forall f | f in FieldSet(fields)
        ensures IsLeast(root.minVals[f], es', f) && IsGreatest(root.maxVals[f], es', f)
      {
        AlikeHaveSame(es, es', f);
        ExtremesOfValues(root.minVals[f], es, f);
        ExtremesOfValues(root.maxVals[f], es, f);
        ExtremesOfValues(root.minVals[f], es', f);
        ExtremesOfValues(root.maxVals[f], es', f);
      }
    }
  }

  lemma PermutedFields(x: seq<Entry>, y: seq<Entry>)
    requires multiset(x) == multiset(y)
    ensures FieldsOf(x) == FieldsOf(y)
  {
    assert forall e :: e in x <==> e in multiset(x);
    assert forall e :: e in y <==> e in multiset(y);
  }

  /** Some values lie within the bound, zero standing in for a field without any; exclusive bounds do not count. */
  ghost predicate Reaches(values: set<Num>, b: FieldBound) {
    if values == {}
    then (b.gte.Some? ==> !Less(Fin(0.0), b.gte.value)) && (b.lte.Some? ==> !Less(b.lte.value, Fin(0.0)))
    else (b.gte.Some? ==> exists v <- values :: !Less(v, b.gte.value))
         && (b.lte.Some? ==> exists v <- values :: !Less(b.lte.value, v))
  }

  lemma PrunedMeans(root: Node, es: seq<Entry>, fields: seq<string>, bounds: seq<FieldBound>)
    requires !root.Nil? && RootBox(root, es, fields)
    ensures Pruned(root, bounds) <==> exists b <- bounds :: !Reaches(FieldValues(es, b.field), b)
  {
    hide IsBox, Reaches, FieldValues;
    forall b | b in bounds
      ensures Reaches(FieldValues(es, b.field), b) <==>
              !Less(Read(root.maxVals, b.field), if b.gte.Some? then b.gte.value else NegInf)
              && !Less(if b.lte.Some? then b.lte.value else PosInf, Read(root.minVals, b.field))
    {
      ReachesMeans(root, es, fields, b);
    }
  }

  lemma ReachesMeans(root: Node, es: seq<Entry>, fields: seq<string>, b: FieldBound)
    requires !root.Nil? && RootBox(root, es, fields)
    ensures Reaches(FieldValues(es, b.field), b) <==>
            !Less(Read(root.maxVals, b.field), if b.gte.Some? then b.gte.value else NegInf)
            && !Less(if b.lte.Some? then b.lte.value else PosInf, Read(root.minVals, b.field))
  {
    hide IsLeast, IsGreatest, FieldValues, FieldsOf;
    var f := b.field;
    BoxKeys(root.minVals, root.maxVals, es, FieldSet(fields));
    ValuesOfFields(es, f);
    if f in FieldsOf(es) {
      ExtremesOfValues(root.minVals[f], es, f);
      ExtremesOfValues(root.maxVals[f], es, f);
      ReachesToExtremes(FieldValues(es, f), root.minVals[f], root.maxVals[f], b);
    }
  }

  lemma ValuesOfFields(es: seq<Entry>, f: string)
    ensures FieldValues(es, f) == {} <==> f !in FieldsOf(es)
  {
    if e :| e in es && f in e.values {
      assert e.values[f] in FieldValues(es, f);
    }
  }

  lemma ReachesToExtremes(values: set<Num>, least: Num, greatest: Num, b: FieldBound)
    requires values != {} && forall v <- values :: !Less(v, least) && !Less(greatest, v)
    requires (least == PosInf || least in values) && (greatest == NegInf || greatest in values)
    ensures Reaches(values, b) <==>
            !Less(greatest, if b.gte.Some? then b.gte.value else NegInf)
            && !Less(if b.lte.Some? then b.lte.value else PosInf, least)
  {
    var v :| v in values;
    assert least in values && greatest in values;
  }

  // --- The tree as the program keeps it ----------------------------------------

  class Tree {
    var root: Node
    var fields: seq<string>
    var entries: array<Entry>
    /** The entries of the last build, and the documents deleted since. */
    ghost var built: seq<Entry>
    ghost var removed: set<DocId>

    ghost predicate Valid()
      reads this, entries
    {
      && NodeValid(root, entries[..], 0, entries.Length)
      && RootBox(root, entries[..], fields)
      && (UniqueIds(built) ==>
            UniqueIds(entries[..]) && multiset(entries[..]) == multiset(Marked(built, removed)))
    }

    constructor ()
      ensures Valid() && built == [] && removed == {} && fresh(entries)
    {
      root, fields, entries := Nil, [], new Entry[0];
      built, removed := [], {};
    }

    /** The slice is handed over: it is sorted in place and kept. */
    method Build(a: array<Entry>)
      requires a.Length > LEAF_SIZE ==> exists e :: e in a[..] && e.values != map[]
      modifies this, a
      ensures Valid() && entries == a && multiset(a[..]) == multiset(old(a[..]))
      ensures built == old(a[..]) && removed == {}
      ensures IsFieldList(fields, built) && SplitsWell(root, a[..], 0, a.Length, 0, fields)
      ensures (root.Nil? <==> a.Length == 0) && (root.Leaf? <==> 0 < a.Length <= 64)
      ensures root.Split? ==> fields != [] && root.field == fields[0]
      ensures root.Split? ==>
                forall i, j :: 0 <= i < a.Length / 2 <= j < a.Length ==> ValueLeq(root.field, a[i], a[j])
      ensures (forall i, j :: 0 <= i < j < a.Length ==> old(a[i].docId) != old(a[j].docId)) ==> UniqueIds(built)
    {
      hide IsFieldList, AllHaveOnly, IsBox, Ordered;
      ghost var es := a[..];
      var names := FieldNames(a[..]);
      FieldListCovers(names, es);
      assert a[0..a.Length] == a[..];
      var node := BuildNode(a, 0, a.Length, 0, names);
      root, fields, entries := node, names, a;
      built, removed := es, {};
      assert a[0..a.Length] == a[..];
      assert Marked(es, {}) == es;
      HalvesApart(node, a[..], names);
      NamesAreFields(names, es);
      PermutedFields(es, a[..]);
      hide NodeValid, SplitsWell;
      if UniqueIds(es) {
        PermutedUnique(es, a[..]);
      }
    }

    method Delete(docId: DocId)
      requires Valid()
      modifies this, entries
      ensures Valid() && entries == old(entries) && built == old(built) && removed == old(removed) + {docId}
    {
      ghost var before := entries[..];
      DeleteFromNode(entries, root, docId, 0, entries.Length);
      RestStands(before, entries[..], docId, 0, entries.Length);
      NodeFrame(root, before, entries[..], 0, entries.Length);
      PointwiseAlike(before, entries[..]);
      PointwiseAlike(entries[..], before);
      RootBoxFrame(root, before, entries[..], fields);
      hide RootBox, NodeValid, DeletedWithin;
      removed := removed + {docId};
      if UniqueIds(built) {
        StillMarked(before, entries[..], built, docId, old(removed));
      }
    }

    method MultiRange(bounds: seq<FieldBound>) returns (result: seq<DocId>)
      requires Valid()
      ensures UniqueIds(built) ==> AnswersRange(Marked(built, removed), bounds, result)
      ensures UniqueIds(built) ==>
                forall d :: d in result ==>
                  exists e <- built :: e.docId == d && d !in removed && !e.deleted && Matches(e, bounds, true)
      ensures UniqueIds(built) ==>
                forall e <- built :: e.docId !in removed && !e.deleted && Matches(e, bounds, false) ==>
                  e.docId in result
      ensures UniqueIds(built) && |built| <= 64 ==>
                forall d :: d in result <==>
                  && (forall b <- bounds :: Reaches(FieldValues(built, b.field), b))
                  && exists e <- built :: e.docId == d && d !in removed && !e.deleted && Matches(e, bounds, true)
    {
      hide Matches, Reaches, AnswersRange, RootBox, FieldValues;
      if root.Nil? {
        result := [];
      } else {
        result := SearchNode(root, entries[..], bounds, 0, entries.Length);
      }
      if UniqueIds(built) {
        FoundAnswers(root, entries[..], Marked(built, removed), bounds);
        AnswerDocuments(built, removed, bounds, result);
        if |built| <= 64 {
          UnsplitAnswer(root, entries[..], built, removed, fields, bounds);
        }
      }
    }
  }

  lemma MarkedHas(built: seq<Entry>, removed: set<DocId>, bounds: seq<FieldBound>, z: bool, d: DocId)
    ensures (exists e <- Marked(built, removed) :: e.docId == d && !e.deleted && Matches(e, bounds, z)) <==>
            exists e <- built :: e.docId == d && d !in removed && !e.deleted && Matches(e, bounds, z)
  {
    var marked := Marked(built, removed);
    if e :| e in marked && e.docId == d && !e.deleted && Matches(e, bounds, z) {
      var i :| 0 <= i < |marked| && marked[i] == e;
      assert built[i] in built && built[i] == e;
    }
    if e :| e in built && e.docId == d && d !in removed && !e.deleted && Matches(e, bounds, z) {
      var i :| 0 <= i < |built| && built[i] == e;
      assert marked[i] in marked && marked[i] == e;
    }
  }

  lemma AnswerDocuments(built: seq<Entry>, removed: set<DocId>, bounds: seq<FieldBound>, result: seq<DocId>)
    requires AnswersRange(Marked(built, removed), bounds, result)
    ensures forall d :: d in result ==>
              exists e <- built :: e.docId == d && d !in removed && !e.deleted && Matches(e, bounds, true)
    ensures forall e <- built :: e.docId !in removed && !e.deleted && Matches(e, bounds, false) ==> e.docId in result
  {
    hide Matches, Scan, Marked;
    var es := Marked(built, removed);
    forall d ensures d in result ==>
                       exists e <- built :: e.docId == d && d !in removed && !e.deleted && Matches(e, bounds, true)
             ensures (exists e <- built :: e.docId == d && d !in removed && !e.deleted && Matches(e, bounds, false)) ==>
                       d in result
    {
      ScanHas(es, bounds, true, d);
      ScanHas(es, bounds, false, d);
      MarkedHas(built, removed, bounds, true, d);
      MarkedHas(built, removed, bounds, false, d);
      assert d in result <==> d in multiset(result);
      assert d in Scan(es, bounds, true) <==> d in multiset(Scan(es, bounds, true));
      assert d in Scan(es, bounds, false) <==> d in multiset(Scan(es, bounds, false));
    }
  }

  /**
   * An unsplit tree returns exactly the live documents that pass with missing fields read as zero,
   * provided that every bound reaches the values of its field; otherwise nothing.
   */
  lemma UnsplitAnswer(root: Node, es: seq<Entry>, built: seq<Entry>, removed: set<DocId>, fields: seq<string>,
                      bounds: seq<FieldBound>)
    requires NodeValid(root, es, 0, |es|) && RootBox(root, es, fields) && |built| <= 64
    requires multiset(es) == multiset(Marked(built, removed))
    ensures forall d :: d in Found(root, es, bounds, 0, |es|) <==>
              && (forall b <- bounds :: Reaches(FieldValues(built, b.field), b))
              && exists e <- built :: e.docId == d && d !in removed && !e.deleted && Matches(e, bounds, true)
  {
    hide Matches, Scan, Reaches, RootBox, FieldValues, AllAlike, Marked, Pruned;
    SameSize(es, Marked(built, removed));
    assert es[0..|es|] == es;
    MarkedAlike(built, removed, es);
    forall f ensures FieldValues(built, f) == FieldValues(es, f) {
      AlikeHaveSame(built, es, f);
    }
    forall d ensures d in Scan(es, bounds, true) <==>
                     exists e <- built :: e.docId == d && d !in removed && !e.deleted && Matches(e, bounds, true)
    {
      ZeroScanHas(built, removed, es, bounds, d);
    }
    if root.Nil? {
      assert built == [] by { MarkedSize(built, removed); }
    } else {
      MarkedSize(built, removed);
      PrunedMeans(root, es, fields, bounds);
    }
  }

  lemma MarkedSize(es: seq<Entry>, gone: set<DocId>)
    ensures |Marked(es, gone)| == |es|
  {
  }

  lemma SameSize(x: seq<Entry>, y: seq<Entry>)
    requires multiset(x) == multiset(y)
    ensures |x| == |y|
  {
    assert |multiset(x)| == |x| && |multiset(y)| == |y|;
  }

  lemma MarkedAlike(built: seq<Entry>, removed: set<DocId>, es: seq<Entry>)
    requires multiset(es) == multiset(Marked(built, removed))
    ensures AllAlike(built, es) && AllAlike(es, built)
  {
    hide AllAlike;
    var marked := Marked(built, removed);
    PointwiseAlike(built, marked);
    PointwiseAlike(marked, built);
    PermutedAlike(built, marked, es);
  }

  lemma PermutedAlike(built: seq<Entry>, x: seq<Entry>, y: seq<Entry>)
    requires multiset(x) == multiset(y) && AllAlike(built, x) && AllAlike(x, built)
    ensures AllAlike(built, y) && AllAlike(y, built)
  {
    hide AllAlike;
    SameElements(x, y);
    AlikeMore(built, x, y);
    AlikeFewer(x, y, built);
  }

  lemma SameElements(x: seq<Entry>, y: seq<Entry>)
    requires multiset(x) == multiset(y)
    ensures forall e :: e in x <==> e in y
  {
    assert forall e :: e in x <==> e in multiset(x);
    assert forall e :: e in y <==> e in multiset(y);
  }

  lemma AlikeMore(built: seq<Entry>, x: seq<Entry>, y: seq<Entry>)
    requires AllAlike(built, x) && forall e <- x :: e in y
    ensures AllAlike(built, y)
  {
  }

  lemma AlikeFewer(x: seq<Entry>, y: seq<Entry>, built: seq<Entry>)
    requires AllAlike(x, built) && forall e <- y :: e in x
    ensures AllAlike(y, built)
  {
  }

  /** Which documents an exhaustive scan returns that reads missing fields as zero. */
  lemma ZeroScanHas(built: seq<Entry>, removed: set<DocId>, es: seq<Entry>, bounds: seq<FieldBound>, d: DocId)
    requires multiset(es) == multiset(Marked(built, removed))
    ensures d in Scan(es, bounds, true) <==>
            exists e <- built :: e.docId == d && d !in removed && !e.deleted && Matches(e, bounds, true)
  {
    hide Matches, Scan, Marked;
    var marked := Marked(built, removed);
    ScanPermutes(es, marked, bounds, true);
    assert d in Scan(es, bounds, true) <==> d in multiset(Scan(es, bounds, true));
    assert d in Scan(marked, bounds, true) <==> d in multiset(Scan(marked, bounds, true));
    ScanHas(marked, bounds, true, d);
    MarkedHas(built, removed, bounds, true, d);
  }

  lemma StillMarked(es: seq<Entry>, es': seq<Entry>, built: seq<Entry>, docId: DocId, removed: set<DocId>)
    requires UniqueIds(es) && multiset(es) == multiset(Marked(built, removed))
    requires DeletedWithin(es, es', docId, 0, |es|)
    ensures UniqueIds(es') && multiset(es') == multiset(Marked(built, removed + {docId}))
  {
    assert es[0..|es|] == es;
    assert es' == Marked(es, {docId});
    MarkedPermutes(es, Marked(built, removed), {docId});
    assert Marked(Marked(built, removed), {docId}) == Marked(built, removed + {docId});
  }

  /**
   * The answer of the tree over the entries as built and flagged: everything the linear
   * scan returns, nothing that fails with missing fields read as zero, no document
   * twice, and exactly the linear scan when every live entry carries the bounded fields.
   */
  ghost predicate AnswersRange(es: seq<Entry>, bounds: seq<FieldBound>, result: seq<DocId>) {
    && multiset(Scan(es, bounds, false)) <= multiset(result) <= multiset(Scan(es, bounds, true))
    && (forall d :: multiset(result)[d] <= 1)
    && ((forall b <- bounds :: Carries(es, b.field)) ==> multiset(result) == multiset(Scan(es, bounds, false)))
  }

  lemma FoundAnswers(root: Node, es: seq<Entry>, flagged: seq<Entry>, bounds: seq<FieldBound>)
    requires NodeValid(root, es, 0, |es|) && UniqueIds(es) && multiset(es) == multiset(flagged)
    ensures AnswersRange(flagged, bounds, Found(root, es, bounds, 0, |es|))
  {
    assert es[0..|es|] == es;
    FoundBetweenScans(root, es, bounds, 0, |es|);
    ScanPermutes(es, flagged, bounds, false);
    ScanPermutes(es, flagged, bounds, true);
    forall d ensures multiset(Found(root, es, bounds, 0, |es|))[d] <= 1 {
      ScanReturnsOnce(es, bounds, true, d);
    }
    if forall b <- bounds :: Carries(flagged, b.field) {
      forall b <- bounds ensures Carries(es, b.field) {
        CarriesPermutes(flagged, es, b.field);
      }
      FoundIsLinearScan(root, es, bounds, 0, |es|);
    }
  }

  lemma PermutedUnique(x: seq<Entry>, y: seq<Entry>)
    requires multiset(x) == multiset(y) && UniqueIds(x)
    ensures UniqueIds(y)
  {
    forall i, j | 0 <= i < j < |y| ensures y[i].docId != y[j].docId {
      CountTwo(y, i, j);
      assert y[i] in multiset(x) && y[j] in multiset(x);
      var k :| 0 <= k < |x| && x[k] == y[i];
      var l :| 0 <= l < |x| && x[l] == y[j];
      if k == l {
        CountOne(x, k);
      }
    }
  }

  lemma CountTwo(y: seq<Entry>, i: nat, j: nat)
    requires i < j < |y|
    ensures y[i] == y[j] ==> multiset(y)[y[i]] >= 2
  {
    assert y == y[..i] + [y[i]] + y[i + 1..j] + [y[j]] + y[j + 1..];
  }

  lemma CountOne(x: seq<Entry>, k: nat)
    requires UniqueIds(x) && k < |x|
    ensures multiset(x)[x[k]] == 1
  {
    assert x == x[..k] + [x[k]] + x[k + 1..];
    assert x[k] !in x[..k] && x[k] !in x[k + 1..];
  }

  /** All field names of the entries, in order. */
  method FieldNames(es: seq<Entry>) returns (names: seq<string>)
    ensures IsFieldList(names, es)
  {
    hide FieldsOf, StringLeq, TotalPreorder;
    var fieldSet: set<string> := {};
    NoFields();
    for i := 0 to |es|
      invariant fieldSet == FieldsOf(es[..i])
    {
      FieldsOfMore(es, i);
      fieldSet := fieldSet + es[i].values.Keys;
    }
    assert es[..|es|] == es;
    names := SortedList(fieldSet);
  }

  lemma NamesAreFields(names: seq<string>, es: seq<Entry>)
    requires IsFieldList(names, es)
    ensures FieldSet(names) == FieldsOf(es)
  {
    assert forall f :: f in names <==> f in multiset(names);
  }

  lemma NoFields()
    ensures FieldsOf([]) == {}
  {
  }

  method SortedList(names: set<string>) returns (list: seq<string>)
    ensures SortedBy(list, StringLeq) && multiset(list) == multiset(names)
  {
    hide StringLeq, TotalPreorder, SortedBy;
    var listed: seq<string> := [];
    var todo := names;
    while todo != {}
      invariant todo <= names
      invariant multiset(listed) == multiset(names - todo)
    {
      var f :| f in todo;
      assert names - (todo - {f}) == (names - todo) + {f};
      todo := todo - {f};
      listed := listed + [f];
    }
    assert names - todo == names;
    var a := new string[|listed|](i requires 0 <= i < |listed| => listed[i]);
    assert a[..] == listed && a[0..a.Length] == a[..];
    StringLeqIsPreorder();
    SortSlice(a, 0, a.Length, StringLeq);
    list := a[..];
    assert a[0..a.Length] == a[..];
  }

  lemma FieldsOfMore(es: seq<Entry>, i: nat)
    requires i < |es|
    ensures FieldsOf(es[..i + 1]) == FieldsOf(es[..i]) + es[i].values.Keys
  {
    assert es[..i + 1] == es[..i] + [es[i]];
  }

  lemma FieldListCovers(names: seq<string>, es: seq<Entry>)
    requires IsFieldList(names, es)
    ensures AllHaveOnly(es, FieldSet(names))
    ensures forall e <- es :: e.values != map[] ==> names != []
  {
    forall e, f | e in es && f in e.values ensures f in names {
      assert f in FieldsOf(es);
      assert f in multiset(names);
    }
    forall e | e in es && e.values != map[] ensures names != [] {
      var f :| f in e.values;
      assert f in names;
    }
  }
}
