/**
 * The numeric index as the program keeps it, and its meaning over whole runs: a range
 * query returns exactly the staged entries whose code lies in the range and which no
 * deletion since the last flush before them has hidden.
 */
module NumericRuns {
  import opened Bytes
  import opened Wrappers
  import opened NumericCodes
  import opened BlockCodec
  import opened NumericIndex
  import opened Sequences

  // --- Histories ---------------------------------------------------------------

  datatype Op = OpAdd(field: string, entry: NumericEntry) | OpDelete(docId: DocId) | OpFlush

  /**
   * A deletion hides every entry of its document that was staged before it, and those
   * staged after it as long as no flush comes between.
   */
  ghost predicate Hides(ops: seq<Op>, j: nat, i: nat)
    requires i < |ops| && j < |ops|
  {
    && ops[i].OpAdd? && ops[j] == OpDelete(ops[i].entry.docId)
    && forall k :: j < k < i ==> ops[k] != OpFlush
  }

  ghost predicate Hidden(ops: seq<Op>, i: nat)
    requires i < |ops|
  {
    exists j :: 0 <= j < |ops| && Hides(ops, j, i)
  }

  /** The entries of `field` staged by the first `n` operations and not hidden by any operation. */
  ghost function VisibleUpTo(ops: seq<Op>, field: string, n: nat): Entries
    requires n <= |ops|
  {
    if n == 0 then [] else VisibleUpTo(ops, field, n - 1) + VisibleAt(ops, field, n - 1)
  }

  ghost function VisibleAt(ops: seq<Op>, field: string, i: nat): Entries
    requires i < |ops|
  {
    if ops[i].OpAdd? && ops[i].field == field && !Hidden(ops, i) then [ops[i].entry] else []
  }

  ghost function Visible(ops: seq<Op>, field: string): Entries {
    VisibleUpTo(ops, field, |ops|)
  }

  /** The documents deleted since the last flush. */
  function Pending(ops: seq<Op>): set<DocId> {
    if ops == [] then {}
    else
      match ops[|ops| - 1]
      case OpAdd(_, _) => Pending(ops[..|ops| - 1])
      case OpDelete(d) => Pending(ops[..|ops| - 1]) + {d}
      case OpFlush => {}
  }

  /** Operation `j` deletes `d`, and no flush follows it. */
  predicate DeletesLast(ops: seq<Op>, j: nat, d: DocId) {
    j < |ops| && ops[j] == OpDelete(d) && forall k :: j < k < |ops| ==> ops[k] != OpFlush
  }

  lemma DeletesLastGrows(ops: seq<Op>, op: Op, j: nat, d: DocId)
    ensures DeletesLast(ops + [op], j, d) <==>
            (DeletesLast(ops, j, d) && op != OpFlush) || (j == |ops| && op == OpDelete(d))
  {
    var ops' := ops + [op];
    assert ops'[|ops|] == op;
    assert forall k :: 0 <= k < |ops| ==> ops'[k] == ops[k];
  }

  lemma {:induction false} PendingMeans(ops: seq<Op>, d: DocId)
    ensures d in Pending(ops) <==> exists j: nat :: DeletesLast(ops, j, d)
    decreases |ops|
  {
    if ops != [] {
      var init, last := ops[..|ops| - 1], ops[|ops| - 1];
      assert ops == init + [last];
      PendingMeans(init, d);
      forall j: nat ensures DeletesLast(ops, j, d) <==>
                            (DeletesLast(init, j, d) && last != OpFlush) || (j == |init| && last == OpDelete(d))
      {
        DeletesLastGrows(init, last, j, d);
      }
      assert last == OpDelete(d) ==> DeletesLast(ops, |init|, d);
    }
  }

  /** How one more operation hides earlier entries. */
  lemma HiddenGrows(ops: seq<Op>, op: Op, i: nat)
    requires i < |ops|
    ensures Hidden(ops + [op], i) <==>
            Hidden(ops, i) || (ops[i].OpAdd? && op == OpDelete(ops[i].entry.docId))
  {
    var ops' := ops + [op];
    if Hidden(ops, i) {
      var j :| 0 <= j < |ops| && Hides(ops, j, i);
      assert Hides(ops', j, i);
    }
    if ops[i].OpAdd? && op == OpDelete(ops[i].entry.docId) {
      assert Hides(ops', |ops|, i);
    }
    if Hidden(ops', i) {
      var j :| 0 <= j < |ops'| && Hides(ops', j, i);
      assert forall k :: j < k < i ==> ops[k] == ops'[k];
      if j < |ops| {
        assert Hides(ops, j, i);
      }
    }
  }

  lemma LiveOne(e: NumericEntry, a: set<DocId>)
    ensures Live([e], a) == if e.docId in a then [] else [e]
  {
    assert [e][..0] == [];
  }

  lemma {:induction false} LiveConcat(x: Entries, y: Entries, a: set<DocId>)
    ensures Live(x + y, a) == Live(x, a) + Live(y, a)
    decreases |y|
  {
    if y == [] {
      assert x + y == x;
    } else {
      assert (x + y)[..|x + y| - 1] == x + y[..|y| - 1];
      LiveConcat(x, y[..|y| - 1], a);
    }
  }

  lemma LiveNothing(a: set<DocId>)
    ensures Live([], a) == []
  {
  }

  lemma VisibleAtGrows(ops: seq<Op>, op: Op, field: string, i: nat)
    requires i < |ops|
    ensures VisibleAt(ops + [op], field, i) == Live(VisibleAt(ops, field, i), if op.OpDelete? then {op.docId} else {})
  {
    assert (ops + [op])[i] == ops[i];
    HiddenGrows(ops, op, i);
    if ops[i].OpAdd? {
      LiveOne(ops[i].entry, if op.OpDelete? then {op.docId} else {});
    }
  }

  lemma {:induction false} VisibleGrows(ops: seq<Op>, op: Op, field: string, n: nat)
    requires n <= |ops|
    ensures VisibleUpTo(ops + [op], field, n)
            == Live(VisibleUpTo(ops, field, n), if op.OpDelete? then {op.docId} else {})
    decreases n
  {
    hide VisibleAt, Live;
    LiveNothing(if op.OpDelete? then {op.docId} else {});
    if n > 0 {
      VisibleGrows(ops, op, field, n - 1);
      VisibleAtGrows(ops, op, field, n - 1);
      LiveConcat(VisibleUpTo(ops, field, n - 1), VisibleAt(ops, field, n - 1), if op.OpDelete? then {op.docId} else {});
    }
  }

  lemma {:induction false} LiveKeepsAll(es: Entries)
    ensures Live(es, {}) == es
    decreases |es|
  {
    if es != [] {
      LiveKeepsAll(es[..|es| - 1]);
      assert es == es[..|es| - 1] + [es[|es| - 1]];
    }
  }

  lemma {:induction false} LiveTwice(es: Entries, a: set<DocId>, b: set<DocId>)
    ensures Live(Live(es, a), b) == Live(es, a + b)
    decreases |es|
  {
    if es != [] {
      var init, last := es[..|es| - 1], es[|es| - 1];
      LiveTwice(init, a, b);
      if last.docId in a {
        assert Live(es, a) == Live(init, a);
      } else {
        assert (Live(init, a) + [last])[..|Live(init, a)|] == Live(init, a);
      }
    }
  }

  lemma LivePermutes(x: Entries, y: Entries, a: set<DocId>)
    requires multiset(x) == multiset(y)
    ensures multiset(Live(x, a)) == multiset(Live(y, a))
  {
    forall e ensures multiset(Live(x, a))[e] == multiset(Live(y, a))[e] {
      LiveCount(x, a, e);
      LiveCount(y, a, e);
    }
  }

  lemma {:induction false} SelectOfLive(es: Entries, lo: u64, hi: u64, a: set<DocId>)
    ensures Select(Live(es, a), lo, hi, {}) == Select(es, lo, hi, a)
    decreases |es|
  {
    if es != [] {
      var init, last := es[..|es| - 1], es[|es| - 1];
      SelectOfLive(init, lo, hi, a);
      assert es == init + [last];
      SelectConcat(init, [last], lo, hi, a);
      SelectConcat(Live(init, a), if last.docId in a then [] else [last], lo, hi, {});
    }
  }

  lemma SelectMiddle(front: Entries, e: NumericEntry, back: Entries, lo: u64, hi: u64, a: set<DocId>)
    ensures multiset(Select(front + ([e] + back), lo, hi, a))
            == multiset(Select([e], lo, hi, a)) + multiset(Select(front + back, lo, hi, a))
  {
    hide Select;
    SelectConcat(front, [e] + back, lo, hi, a);
    SelectConcat([e], back, lo, hi, a);
    SelectConcat(front, back, lo, hi, a);
  }

  lemma {:induction false} SelectPermutes(x: Entries, y: Entries, lo: u64, hi: u64, a: set<DocId>)
    requires multiset(x) == multiset(y)
    ensures multiset(Select(x, lo, hi, a)) == multiset(Select(y, lo, hi, a))
    decreases |x|
  {
    hide Select;
    SameMultisetEmpty(x, y);
    if x != [] {
      TakeHead(x);
      var front, back := TakeOut(y, x[0]);
      SelectPermutes(x[1..], front + back, lo, hi, a);
      SelectMiddle([], x[0], x[1..], lo, hi, a);
      SelectMiddle(front, x[0], back, lo, hi, a);
    }
  }

  lemma HiddenAtEnd(ops: seq<Op>, f: string, e: NumericEntry)
    ensures Hidden(ops + [OpAdd(f, e)], |ops|) <==> e.docId in Pending(ops)
  {
    var ops' := ops + [OpAdd(f, e)];
    PendingMeans(ops, e.docId);
    if Hidden(ops', |ops|) {
      var j :| 0 <= j < |ops'| && Hides(ops', j, |ops|);
      assert ops[j] == OpDelete(e.docId);
      assert forall k :: j < k < |ops| ==> ops[k] == ops'[k];
      assert DeletesLast(ops, j, e.docId);
    }
    if e.docId in Pending(ops) {
      var j: nat :| DeletesLast(ops, j, e.docId);
      assert Hides(ops', j, |ops|);
    }
  }

  lemma VisibleAfterAdd(ops: seq<Op>, f: string, e: NumericEntry, field: string)
    ensures Visible(ops + [OpAdd(f, e)], field)
            == Visible(ops, field) + (if f == field && e.docId !in Pending(ops) then [e] else [])
  {
    hide Hidden;
    VisibleGrows(ops, OpAdd(f, e), field, |ops|);
    LiveKeepsAll(Visible(ops, field));
    HiddenAtEnd(ops, f, e);
  }

  lemma VisibleAfterDelete(ops: seq<Op>, d: DocId, field: string)
    ensures Visible(ops + [OpDelete(d)], field) == Live(Visible(ops, field), {d})
  {
    VisibleGrows(ops, OpDelete(d), field, |ops|);
  }

  /** A flush never changes what is visible. */
  lemma VisibleAfterFlush(ops: seq<Op>, field: string)
    ensures Visible(ops + [OpFlush], field) == Visible(ops, field)
  {
    VisibleGrows(ops, OpFlush, field, |ops|);
    LiveKeepsAll(Visible(ops, field));
  }

  // --- The state behind a history ----------------------------------------------

  datatype State = State(roots: map<string, Node>, buffer: map<string, Entries>, deleted: set<DocId>, store: Disk)

  function RootOf(roots: map<string, Node>, field: string): Node {
    if field in roots then roots[field] else Nil
  }

  function BufferOf(buffer: map<string, Entries>, field: string): Entries {
    if field in buffer then buffer[field] else []
  }

  /** All entries the index holds for a field, hidden ones included. */
  function Content(s: State, field: string): Entries {
    LoadEntries(s.store, RootOf(s.roots, field)) + BufferOf(s.buffer, field)
  }

  ghost predicate TreesValid(s: State) {
    forall field :: TreeValid(s.store, field, RootOf(s.roots, field))
  }

  ghost predicate Represents(s: State, ops: seq<Op>) {
    && s.deleted == Pending(ops)
    && forall field :: multiset(Live(Content(s, field), s.deleted)) == multiset(Visible(ops, field))
  }

  /** What a flush does to every field: live entries kept, as a sorted tree, and nothing else. */
  ghost predicate FlushedTo(s: State, s': State) {
    && s'.buffer == map[] && s'.deleted == {}
    && TreesValid(s')
    && forall field :: multiset(Content(s', field)) == multiset(Live(Content(s, field), s.deleted))
  }

  lemma LiveAfterAdd(s: State, f: string, e: NumericEntry, field: string)
    ensures var s' := s.(buffer := s.buffer[f := BufferOf(s.buffer, f) + [e]]);
            Live(Content(s', field), s.deleted)
            == Live(Content(s, field), s.deleted) + (if f == field && e.docId !in s.deleted then [e] else [])
  {
    if f == field {
      var s' := s.(buffer := s.buffer[f := BufferOf(s.buffer, f) + [e]]);
      assert Content(s', field) == Content(s, field) + [e];
      LiveConcat(Content(s, field), [e], s.deleted);
      LiveOne(e, s.deleted);
    }
  }

  lemma AddRepresents(s: State, ops: seq<Op>, f: string, e: NumericEntry, s': State)
    requires Represents(s, ops)
    requires s' == s.(buffer := s.buffer[f := BufferOf(s.buffer, f) + [e]])
    ensures Represents(s', ops + [OpAdd(f, e)])
  {
    assert (ops + [OpAdd(f, e)])[..|ops|] == ops;
    hide Live, Content, Visible;
    forall field ensures multiset(Live(Content(s', field), s'.deleted))
        == multiset(Visible(ops + [OpAdd(f, e)], field)) {
      VisibleAfterAdd(ops, f, e, field);
      LiveAfterAdd(s, f, e, field);
    }
  }

  lemma DeleteRepresents(s: State, ops: seq<Op>, d: DocId)
    requires Represents(s, ops)
    ensures Represents(s.(deleted := s.deleted + {d}), ops + [OpDelete(d)])
  {
    var s' := s.(deleted := s.deleted + {d});
    assert (ops + [OpDelete(d)])[..|ops|] == ops;
    forall field ensures multiset(Live(Content(s', field), s'.deleted))
        == multiset(Visible(ops + [OpDelete(d)], field)) {
      VisibleAfterDelete(ops, d, field);
      LiveTwice(Content(s, field), s.deleted, {d});
      LivePermutes(Live(Content(s, field), s.deleted), Visible(ops, field), {d});
    }
  }

  lemma FlushRepresents(s: State, ops: seq<Op>, s': State)
    requires Represents(s, ops) && FlushedTo(s, s')
    ensures Represents(s', ops + [OpFlush])
  {
    forall field ensures multiset(Live(Content(s', field), {})) == multiset(Visible(ops + [OpFlush], field)) {
      VisibleAfterFlush(ops, field);
      LiveKeepsAll(Content(s', field));
    }
  }

  // --- Range queries -----------------------------------------------------------

  function EncodeBound(kind: Kind, b: Bound): u64 {
    if kind == IntField then EncodeInt64(b.truncated) else EncodeFloat64(b.bits)
  }

  /** An exclusive lower bound overrides an inclusive one. */
  function LowerCode(kind: Kind, gte: Option<Bound>, gt: Option<Bound>): u64 {
    if gt.Some? then Increment(EncodeBound(kind, gt.value))
    else if gte.Some? then EncodeBound(kind, gte.value)
    else 0
  }

  function UpperCode(kind: Kind, lte: Option<Bound>, lt: Option<Bound>): u64 {
    if lt.Some? then Decrement(EncodeBound(kind, lt.value))
    else if lte.Some? then EncodeBound(kind, lte.value)
    else MAX_CODE
  }

  /** Exclusive bounds are exact except at the extreme code, where they wrap round and let everything through. */
  lemma ExclusiveBoundsExact(kind: Kind, b: Bound)
    ensures (forall c: u64 :: InCodeRange(c, LowerCode(kind, None, Some(b)), MAX_CODE) <==> c > EncodeBound(kind, b))
            <==> EncodeBound(kind, b) != MAX_CODE
    ensures (forall c: u64 :: InCodeRange(c, 0, UpperCode(kind, None, Some(b))) <==> c < EncodeBound(kind, b))
            <==> EncodeBound(kind, b) != 0
    ensures EncodeBound(kind, b) == MAX_CODE ==>
            forall c: u64 :: InCodeRange(c, LowerCode(kind, None, Some(b)), MAX_CODE)
    ensures EncodeBound(kind, b) == 0 ==> forall c: u64 :: InCodeRange(c, 0, UpperCode(kind, None, Some(b)))
  {
    hide EncodeBound;
    assert EncodeBound(kind, b) == MAX_CODE ==> InCodeRange(0, LowerCode(kind, None, Some(b)), MAX_CODE);
    assert EncodeBound(kind, b) == 0 ==> InCodeRange(MAX_CODE, 0, UpperCode(kind, None, Some(b)));
  }

  predicate Geq(n: int, v: real) { n as real >= v }

  predicate Leq(n: int, v: real) { n as real <= v }

  /**
   * A bound on an integer field is truncated towards zero, and an exclusive one is moved by one
   * and wraps round. So each of the four bounds selects the right integers exactly when it is
   * whole or on one side of zero, and, if exclusive, not at the extreme.
   */
  lemma TruncatedBoundsExact(b: Bound, v: real)
    requires b.truncated == Truncate(v)
    ensures (forall n: i64 :: LowerCode(IntField, Some(b), None) <= EncodeInt64(n) <==> Geq(n, v))
            <==> v <= 0.0 || Whole(v)
    ensures (forall n: i64 :: EncodeInt64(n) <= UpperCode(IntField, Some(b), None) <==> Leq(n, v))
            <==> v >= 0.0 || Whole(v)
    ensures (forall n: i64 :: LowerCode(IntField, None, Some(b)) <= EncodeInt64(n) <==> !Leq(n, v))
            <==> (v >= 0.0 || Whole(v)) && b.truncated != SIGN - 1
    ensures (forall n: i64 :: EncodeInt64(n) <= UpperCode(IntField, None, Some(b)) <==> !Geq(n, v))
            <==> (v <= 0.0 || Whole(v)) && b.truncated != -SIGN
  {
    var t := b.truncated;
    IntegerBoundsExact(t, v);
    IntegersSelected(b);
    hide LowerCode, UpperCode, EncodeInt64, Truncate, Whole;
    var zero: i64 := 0;
    if t == SIGN - 1 {
      assert LowerCode(IntField, None, Some(b)) <= EncodeInt64(zero) && Leq(zero, v);
    }
    if t == -SIGN {
      assert EncodeInt64(zero) <= UpperCode(IntField, None, Some(b)) && Geq(zero, v);
    }
  }

  /** The codes selected are those of the integers on the bound's side. */
  lemma IntegersSelected(b: Bound)
    ensures forall n: i64 :: LowerCode(IntField, Some(b), None) <= EncodeInt64(n) <==> n >= b.truncated
    ensures forall n: i64 :: EncodeInt64(n) <= UpperCode(IntField, Some(b), None) <==> n <= b.truncated
    ensures forall n: i64 :: LowerCode(IntField, None, Some(b)) <= EncodeInt64(n) <==>
                             n > b.truncated || b.truncated == SIGN - 1
    ensures forall n: i64 :: EncodeInt64(n) <= UpperCode(IntField, None, Some(b)) <==>
                             n < b.truncated || b.truncated == -SIGN
  {
  }

  lemma IntegerBoundsExact(t: i64, v: real)
    requires t == Truncate(v)
    ensures (forall n: i64 :: n >= t <==> Geq(n, v)) <==> v <= 0.0 || Whole(v)
    ensures (forall n: i64 :: n <= t <==> Leq(n, v)) <==> v >= 0.0 || Whole(v)
    ensures (forall n: i64 :: n > t <==> !Leq(n, v)) <==> v >= 0.0 || Whole(v)
    ensures (forall n: i64 :: n < t <==> !Geq(n, v)) <==> v <= 0.0 || Whole(v)
    ensures t == SIGN - 1 ==> Leq(0, v)
    ensures t == -SIGN ==> Geq(0, v)
  {
    TruncationLies(v);
    hide Truncate, Whole;
    assert Geq(t, v) <==> t as real >= v;
    assert Leq(t, v) <==> t as real <= v;
  }

  /** Where truncation puts a real. */
  lemma TruncationLies(v: real)
    ensures Whole(v) ==> Truncate(v) as real == v
    ensures !Whole(v) && v > 0.0 ==> Truncate(v) as real < v < Truncate(v) as real + 1.0
    ensures !Whole(v) && v < 0.0 ==> Truncate(v) as real - 1.0 < v < Truncate(v) as real
    ensures v == 0.0 ==> Whole(v)
  {
    WholeOfNegation(v);
  }

  predicate ValueGeq(x: u64, y: u64)
    requires Number(x) && Number(y)
  {
    Value(x) >= Value(y)
  }

  /**
   * On a float field each bound selects the right values exactly when it is not the zero of
   * the wrong sign: minus zero lies below plus zero, although their values are equal.
   */
  lemma FloatBoundsExact(b: Bound)
    requires Number(b.bits)
    ensures (forall x: u64 | Number(x) :: LowerCode(FloatField, Some(b), None) <= EncodeFloat64(x) <==>
            ValueGeq(x, b.bits))
            <==> b.bits != PLUS_ZERO
    ensures (forall x: u64 | Number(x) :: EncodeFloat64(x) <= UpperCode(FloatField, Some(b), None) <==>
            ValueGeq(b.bits, x))
            <==> b.bits != MINUS_ZERO
    ensures (forall x: u64 | Number(x) :: LowerCode(FloatField, None, Some(b)) <= EncodeFloat64(x) <==>
            !ValueGeq(b.bits, x))
            <==> b.bits != MINUS_ZERO
    ensures (forall x: u64 | Number(x) :: EncodeFloat64(x) <= UpperCode(FloatField, None, Some(b)) <==>
            !ValueGeq(x, b.bits))
            <==> b.bits != PLUS_ZERO
  {
    FloatsSelected(b);
    forall x: u64 | Number(x)
      ensures CodeLeq(b.bits, x) <==> ValueGeq(x, b.bits) && !(b.bits == PLUS_ZERO && x == MINUS_ZERO)
      ensures CodeLeq(x, b.bits) <==> ValueGeq(b.bits, x) && !(b.bits == MINUS_ZERO && x == PLUS_ZERO)
    {
      CodesAgainst(b.bits, x);
    }
    ZerosAreEqual();
    hide LowerCode, UpperCode, EncodeFloat64, Value, Number, CodeLeq;
    assert b.bits == PLUS_ZERO ==> ValueGeq(MINUS_ZERO, b.bits) && !CodeLeq(b.bits, MINUS_ZERO);
    assert b.bits == MINUS_ZERO ==> ValueGeq(b.bits, PLUS_ZERO) && !CodeLeq(PLUS_ZERO, b.bits);
  }

  predicate CodeLeq(x: u64, y: u64) { EncodeFloat64(x) <= EncodeFloat64(y) }

  /** The codes selected are those on the bound's side. */
  lemma FloatsSelected(b: Bound)
    requires Number(b.bits)
    ensures forall x: u64 :: LowerCode(FloatField, Some(b), None) <= EncodeFloat64(x) <==> CodeLeq(b.bits, x)
    ensures forall x: u64 :: EncodeFloat64(x) <= UpperCode(FloatField, Some(b), None) <==> CodeLeq(x, b.bits)
    ensures forall x: u64 :: LowerCode(FloatField, None, Some(b)) <= EncodeFloat64(x) <==> !CodeLeq(x, b.bits)
    ensures forall x: u64 :: EncodeFloat64(x) <= UpperCode(FloatField, None, Some(b)) <==> !CodeLeq(b.bits, x)
  {
    NumbersAreNotExtreme(b.bits);
    ExclusiveBoundsExact(FloatField, b);
    hide EncodeFloat64, Number;
  }

  lemma CodesAgainst(b: u64, x: u64)
    requires Number(b) && Number(x)
    ensures CodeLeq(b, x) <==> ValueGeq(x, b) && !(b == PLUS_ZERO && x == MINUS_ZERO)
    ensures CodeLeq(x, b) <==> ValueGeq(b, x) && !(b == MINUS_ZERO && x == PLUS_ZERO)
  {
    FloatOrderIsValueOrder(b, x);
    FloatOrderIsValueOrder(x, b);
    ZerosAreEqual();
    hide Value, EncodeFloat64, Number;
  }

  lemma ZerosAreEqual()
    ensures Number(PLUS_ZERO) && Number(MINUS_ZERO) && Value(PLUS_ZERO) == Value(MINUS_ZERO)
  {
    assert Scaled(0) == 0;
  }

  lemma NumbersAreNotExtreme(bits: u64)
    requires Number(bits)
    ensures 0 < EncodeFloat64(bits) < MAX_CODE
  {
  }

  // --- Range queries mean comparisons of values --------------------------------

  /** The documents of the entries whose code satisfies `p`. */
  function Filtered(es: Entries, p: u64 -> bool): seq<DocId> {
    if es == [] then []
    else (if p(es[0].value) then [es[0].docId] else []) + Filtered(es[1..], p)
  }

  lemma {:induction false} SelectIsFilter(es: Entries, lo: u64, hi: u64, p: u64 -> bool)
    requires forall e <- es :: InCodeRange(e.value, lo, hi) <==> p(e.value)
    ensures Select(es, lo, hi, {}) == Filtered(es, p)
    decreases |es|
  {
    if es != [] {
      assert es[0] in es;
      SelectIsFilter(es[1..], lo, hi, p);
    }
  }

  /** The bound as the machine converts it. */
  predicate Converts(b: Option<Bound>, v: Option<real>) {
    if b.Some? then v.Some? && b.value.truncated == Truncate(v.value) else v.None?
  }

  /** Between the bounds, an exclusive one overriding an inclusive one on its side. */
  predicate WithinReals(n: int, gte: Option<real>, lte: Option<real>, gt: Option<real>, lt: Option<real>) {
    && (if gt.Some? then !Leq(n, gt.value) else gte.Some? ==> Geq(n, gte.value))
    && (if lt.Some? then !Geq(n, lt.value) else lte.Some? ==> Leq(n, lte.value))
  }

  predicate LowerIsExact(gte: Option<real>, gt: Option<real>) {
    if gt.Some? then (gt.value >= 0.0 || Whole(gt.value)) && Truncate(gt.value) != SIGN - 1
    else gte.Some? ==> gte.value <= 0.0 || Whole(gte.value)
  }

  predicate UpperIsExact(lte: Option<real>, lt: Option<real>) {
    if lt.Some? then (lt.value <= 0.0 || Whole(lt.value)) && Truncate(lt.value) != -SIGN
    else lte.Some? ==> lte.value >= 0.0 || Whole(lte.value)
  }

  /**
   * A range query of an integer field returns exactly the integers within its real bounds, given
   * bounds that truncate well.
   */
  lemma IntegerRange(es: Entries, gte: Option<Bound>, lte: Option<Bound>, gt: Option<Bound>, lt: Option<Bound>,
                     vgte: Option<real>, vlte: Option<real>, vgt: Option<real>, vlt: Option<real>)
    requires Converts(gte, vgte) && Converts(lte, vlte) && Converts(gt, vgt) && Converts(lt, vlt)
    requires if vgt.Some? then (vgt.value >= 0.0 || Whole(vgt.value)) && Truncate(vgt.value) < 0x7fff_ffff_ffff_ffff
             else vgte.Some? ==> vgte.value <= 0.0 || Whole(vgte.value)
    requires if vlt.Some? then (vlt.value <= 0.0 || Whole(vlt.value)) && Truncate(vlt.value) > -0x8000_0000_0000_0000
             else vlte.Some? ==> vlte.value >= 0.0 || Whole(vlte.value)
    ensures Select(es, LowerCode(IntField, gte, gt), UpperCode(IntField, lte, lt), {})
            == Filtered(es, (c: u64) => WithinReals(DecodeInt64(c), vgte, vlte, vgt, vlt))
  {
    forall c: u64
      ensures InCodeRange(c, LowerCode(IntField, gte, gt), UpperCode(IntField, lte, lt))
              <==> WithinReals(DecodeInt64(c), vgte, vlte, vgt, vlt)
    {
      IntCodes(0, 0, c);
      LowerInteger(gte, gt, vgte, vgt, DecodeInt64(c));
      UpperInteger(lte, lt, vlte, vlt, DecodeInt64(c));
    }
    SelectIsFilter(es, LowerCode(IntField, gte, gt), UpperCode(IntField, lte, lt),
                   (c: u64) => WithinReals(DecodeInt64(c), vgte, vlte, vgt, vlt));
  }

  lemma LowerInteger(gte: Option<Bound>, gt: Option<Bound>, vgte: Option<real>, vgt: Option<real>, n: i64)
    requires Converts(gte, vgte) && Converts(gt, vgt) && LowerIsExact(vgte, vgt)
    ensures LowerCode(IntField, gte, gt) <= EncodeInt64(n) <==>
            (if vgt.Some? then !Leq(n, vgt.value) else vgte.Some? ==> Geq(n, vgte.value))
  {
    if gt.Some? {
      assert LowerCode(IntField, gte, gt) == LowerCode(IntField, None, gt);
      TruncatedBoundsExact(gt.value, vgt.value);
    } else if gte.Some? {
      TruncatedBoundsExact(gte.value, vgte.value);
    }
  }

  lemma UpperInteger(lte: Option<Bound>, lt: Option<Bound>, vlte: Option<real>, vlt: Option<real>, n: i64)
    requires Converts(lte, vlte) && Converts(lt, vlt) && UpperIsExact(vlte, vlt)
    ensures EncodeInt64(n) <= UpperCode(IntField, lte, lt) <==>
            (if vlt.Some? then !Geq(n, vlt.value) else vlte.Some? ==> Leq(n, vlte.value))
  {
    if lt.Some? {
      assert UpperCode(IntField, lte, lt) == UpperCode(IntField, None, lt);
      TruncatedBoundsExact(lt.value, vlt.value);
    } else if lte.Some? {
      TruncatedBoundsExact(lte.value, vlte.value);
    }
  }

  predicate IsNumber(b: Option<Bound>) { b.Some? ==> Number(b.value.bits) }

  predicate WithinFloats(x: u64, gte: Option<Bound>, lte: Option<Bound>, gt: Option<Bound>, lt: Option<Bound>)
    requires IsNumber(gte) && IsNumber(lte) && IsNumber(gt) && IsNumber(lt)
  {
    && Number(x)
    && (if gt.Some? then !ValueGeq(gt.value.bits, x) else gte.Some? ==> ValueGeq(x, gte.value.bits))
    && (if lt.Some? then !ValueGeq(x, lt.value.bits) else lte.Some? ==> ValueGeq(lte.value.bits, x))
  }

  /** No effective bound is the zero of the wrong sign. */
  predicate ZerosAreSafe(gte: Option<Bound>, lte: Option<Bound>, gt: Option<Bound>, lt: Option<Bound>) {
    && (if gt.Some? then gt.value.bits != MINUS_ZERO else gte.Some? ==> gte.value.bits != PLUS_ZERO)
    && (if lt.Some? then lt.value.bits != PLUS_ZERO else lte.Some? ==> lte.value.bits != MINUS_ZERO)
  }

  /** A range query of a float field returns exactly the entries whose value lies within the bounds. */
  lemma FloatRange(es: Entries, gte: Option<Bound>, lte: Option<Bound>, gt: Option<Bound>, lt: Option<Bound>)
    requires IsNumber(gte) && IsNumber(lte) && IsNumber(gt) && IsNumber(lt) && ZerosAreSafe(gte, lte, gt, lt)
    requires forall e <- es :: Number(DecodeFloat64(e.value))
    ensures Select(es, LowerCode(FloatField, gte, gt), UpperCode(FloatField, lte, lt), {})
            == Filtered(es, (c: u64) => WithinFloats(DecodeFloat64(c), gte, lte, gt, lt))
  {
    var p := (c: u64) => WithinFloats(DecodeFloat64(c), gte, lte, gt, lt);
    forall e | e in es
      ensures InCodeRange(e.value, LowerCode(FloatField, gte, gt), UpperCode(FloatField, lte, lt)) <==> p(e.value)
    {
      FloatWithin(DecodeFloat64(e.value), gte, lte, gt, lt);
      FloatCodes(e.value, e.value);
    }
    SelectIsFilter(es, LowerCode(FloatField, gte, gt), UpperCode(FloatField, lte, lt), p);
  }

  lemma FloatWithin(x: u64, gte: Option<Bound>, lte: Option<Bound>, gt: Option<Bound>, lt: Option<Bound>)
    requires IsNumber(gte) && IsNumber(lte) && IsNumber(gt) && IsNumber(lt) && ZerosAreSafe(gte, lte, gt, lt)
    requires Number(x)
    ensures InCodeRange(EncodeFloat64(x), LowerCode(FloatField, gte, gt), UpperCode(FloatField, lte, lt))
            <==> WithinFloats(x, gte, lte, gt, lt)
  {
    hide EncodeFloat64, Number, Value;
    assert gt.Some? ==> LowerCode(FloatField, gte, gt) == LowerCode(FloatField, None, gt);
    assert lt.Some? ==> UpperCode(FloatField, lte, lt) == UpperCode(FloatField, None, lt);
    if gt.Some? { FloatBoundsExact(gt.value); } else if gte.Some? { FloatBoundsExact(gte.value); }
    if lt.Some? { FloatBoundsExact(lt.value); } else if lte.Some? { FloatBoundsExact(lte.value); }
  }

  /** Where a sorted block starts and stops hitting. */
  lemma SelectWindow(es: Entries, left: nat, right: nat, lo: u64, hi: u64, deleted: set<DocId>)
    requires left <= right <= |es|
    requires forall i :: 0 <= i < left ==> es[i].value < lo
    requires forall i :: right <= i < |es| ==> es[i].value > hi
    ensures Select(es, lo, hi, deleted) == Select(es[left..right], lo, hi, deleted)
  {
    SelectNothing(es[..left], lo, hi, deleted);
    SelectNothing(es[right..], lo, hi, deleted);
    assert es == es[..left] + (es[left..right] + es[right..]);
    SelectConcat(es[..left], es[left..right] + es[right..], lo, hi, deleted);
    SelectConcat(es[left..right], es[right..], lo, hi, deleted);
  }

  method SearchBlock(es: Entries, lo: u64, hi: u64, deleted: set<DocId>) returns (result: seq<DocId>)
    requires Sorted(es)
    ensures result == Select(es, lo, hi, deleted)
  {
    hide Select;
    var left, right := 0, |es| - 1;
    while left <= right
      invariant 0 <= left <= right + 1 <= |es|
      invariant forall i :: 0 <= i < left ==> es[i].value < lo
      invariant forall i :: right < i < |es| ==> es[i].value >= lo
    {
      var mid := (left + right) / 2;
      if es[mid].value < lo {
        left := mid + 1;
      } else {
        right := mid - 1;
      }
    }
    result := ScanFrom(es, left, lo, hi, deleted);
  }

  method ScanFrom(es: seq<NumericEntry>, left: nat, lo: u64, hi: u64, deleted: set<DocId>) returns (result: seq<DocId>)
    requires Sorted(es) && left <= |es|
    requires forall i :: 0 <= i < left ==> es[i].value < lo
    requires forall i :: left <= i < |es| ==> es[i].value >= lo
    ensures result == Select(es, lo, hi, deleted)
  {
    hide Select;
    result := [];
    SelectNothing(es[left..left], lo, hi, deleted);
    var i := left;
    while i < |es| && es[i].value <= hi
      invariant left <= i <= |es|
      invariant result == Select(es[left..i], lo, hi, deleted)
    {
      assert es[left..i + 1] == es[left..i] + [es[i]];
      SelectConcat(es[left..i], [es[i]], lo, hi, deleted);
      SelectOne(es[i], lo, hi, deleted);
      if es[i].docId !in deleted {
        result := result + [es[i].docId];
      }
      i := i + 1;
    }
    SelectWindow(es, left, i, lo, hi, deleted);
  }

  lemma SelectOne(e: NumericEntry, lo: u64, hi: u64, deleted: set<DocId>)
    ensures Select([e], lo, hi, deleted) == if Hit(e, lo, hi, deleted) then [e.docId] else []
  {
  }

  method SearchTree(store: Disk, ghost field: string, node: Node, lo: u64, hi: u64, deleted: set<DocId>)
    returns (result: seq<DocId>)
    requires TreeValid(store, field, node)
    ensures result == Select(LoadEntries(store, node), lo, hi, deleted)
    decreases node
  {
    if node.Nil? {
      return [];
    }
    TreeSpans(store, field, node);
    if node.max < lo || node.min > hi {
      SelectNothing(LoadEntries(store, node), lo, hi, deleted);
      return [];
    }
    if node.Leaf? {
      result := SearchBlock(LoadBlock(store, node.blockKey), lo, hi, deleted);
      return;
    }
    var left := SearchTree(store, field, node.left, lo, hi, deleted);
    var right := SearchTree(store, field, node.right, lo, hi, deleted);
    SelectConcat(LoadEntries(store, node.left), LoadEntries(store, node.right), lo, hi, deleted);
    result := left + right;
  }

  /** Entries not yet flushed. */
  method ScanBuffer(staged: Entries, lo: u64, hi: u64, deleted: set<DocId>) returns (result: seq<DocId>)
    ensures result == Select(staged, lo, hi, deleted)
  {
    result := [];
    for i := 0 to |staged|
      invariant result == Select(staged[..i], lo, hi, deleted)
    {
      assert staged[..i + 1] == staged[..i] + [staged[i]];
      SelectConcat(staged[..i], [staged[i]], lo, hi, deleted);
      if staged[i].docId in deleted {
        continue;
      }
      if staged[i].value >= lo && staged[i].value <= hi {
        result := result + [staged[i].docId];
      }
    }
    assert staged[..|staged|] == staged;
  }

  // --- The index as the program keeps it ---------------------------------------

  class Index {
    var roots: map<string, Node>
    var buffer: map<string, Entries>
    var deleted: set<DocId>
    var fieldTypes: map<string, Kind>
    var store: Disk
    /** Every operation so far. */
    ghost var history: seq<Op>

    ghost function Now(): State
      reads this
    {
      State(roots, buffer, deleted, store)
    }

    ghost predicate Valid()
      reads this
    {
      TreesValid(Now()) && Represents(Now(), history)
    }

    constructor ()
      ensures Valid() && history == [] && fieldTypes == map[]
    {
      roots, buffer, deleted, fieldTypes, store, history := map[], map[], {}, map[], map[], [];
    }

    method AddFloat(field: string, docId: DocId, bits: u64)
      requires Valid()
      modifies this
      ensures Valid() && history == old(history) + [OpAdd(field, NumericEntry(EncodeFloat64(bits), docId))]
      ensures fieldTypes == old(fieldTypes)[field := FloatField] && roots == old(roots) && deleted == old(deleted)
    {
      var entry := NumericEntry(EncodeFloat64(bits), docId);
      ghost var before := Now();
      fieldTypes := fieldTypes[field := FloatField];
      buffer := buffer[field := BufferOf(buffer, field) + [entry]];
      AddRepresents(before, history, field, entry, Now());
      history := history + [OpAdd(field, entry)];
    }

    method AddInt(field: string, docId: DocId, v: i64)
      requires Valid()
      modifies this
      ensures Valid() && history == old(history) + [OpAdd(field, NumericEntry(EncodeInt64(v), docId))]
      ensures fieldTypes == old(fieldTypes)[field := IntField] && roots == old(roots) && deleted == old(deleted)
    {
      var entry := NumericEntry(EncodeInt64(v), docId);
      ghost var before := Now();
      fieldTypes := fieldTypes[field := IntField];
      buffer := buffer[field := BufferOf(buffer, field) + [entry]];
      AddRepresents(before, history, field, entry, Now());
      history := history + [OpAdd(field, entry)];
    }

    method Delete(docId: DocId)
      requires Valid()
      modifies this
      ensures Valid() && history == old(history) + [OpDelete(docId)] && fieldTypes == old(fieldTypes)
    {
      DeleteRepresents(Now(), history, docId);
      deleted := deleted + {docId};
      history := history + [OpDelete(docId)];
    }

    method Flush()
      requires Valid()
      modifies this
      ensures Valid() && FlushedTo(old(Now()), Now())
      ensures history == old(history) + [OpFlush] && fieldTypes == old(fieldTypes) && buffer == map[] && deleted == {}
    {
      var fields := buffer.Keys;
      if |deleted| > 0 {
        fields := fields + roots.Keys;
      }
      ghost var s := Now();
      hide Represents, TreesValid, PartlyFlushed, FlushedTo;
      FlushFields(fields);
      FlushEnds(s, Now(), fields);
      buffer := map[];
      deleted := {};
      FlushRepresents(s, history, Now());
      history := history + [OpFlush];
    }

    method FlushFields(fields: set<string>)
      requires TreesValid(Now())
      modifies this`roots, this`store
      ensures TreesValid(Now()) && PartlyFlushed(old(Now()), Now(), fields)
    {
      ghost var s := Now();
      ghost var done: set<string> := {};
      FlushStarts(s);
      hide TreesValid, PartlyFlushed;
      var todo := fields;
      while todo != {}
        invariant TreesValid(Now()) && PartlyFlushed(s, Now(), done)
        invariant done + todo == fields && done !! todo
        decreases todo
      {
        var field :| field in todo;
        todo := todo - {field};
        FlushField(field, s, done);
        done := done + {field};
      }
    }

    /** One field of a flush: load, append the buffer, filter, sort, cut into blocks, rebuild the tree. */
    method FlushField(field: string, ghost s: State, ghost done: set<string>)
      requires TreesValid(Now()) && PartlyFlushed(s, Now(), done) && field !in done
      requires buffer == s.buffer && deleted == s.deleted
      modifies this`roots, this`store
      ensures TreesValid(Now()) && PartlyFlushed(s, Now(), done + {field})
    {
      ghost var before := Now();
      var all := LoadEntries(store, RootOf(roots, field)) + BufferOf(buffer, field);
      var live := LiveSorted(all, deleted);
      var newStore, leaves := WriteBlocks(store, field, live);
      store := newStore;
      BuildTreeValid(store, field, leaves);
      var root := BuildTree(leaves);
      roots := roots[field := root];
      FieldFlushed(s, before, Now(), done, field, root);
    }

    method Range(field: string, gte: Option<Bound>, lte: Option<Bound>, gt: Option<Bound>, lt: Option<Bound>)
      returns (result: seq<DocId>)
      requires Valid()
      ensures var kind := if field in fieldTypes then fieldTypes[field] else FloatField;
              multiset(result)
              == multiset(Select(Visible(history, field), LowerCode(kind, gte, gt), UpperCode(kind, lte, lt), {}))
    {
      var kind := if field in fieldTypes then fieldTypes[field] else FloatField;
      var lo: u64 := 0;
      var hi: u64 := MAX_CODE;
      if gte.Some? { lo := EncodeBound(kind, gte.value); }
      if gt.Some? { lo := Increment(EncodeBound(kind, gt.value)); }
      if lte.Some? { hi := EncodeBound(kind, lte.value); }
      if lt.Some? { hi := Decrement(EncodeBound(kind, lt.value)); }
      hide Represents, Visible, TreeValid, Select;
      var inTree := SearchTree(store, field, RootOf(roots, field), lo, hi, deleted);
      var inBuffer := ScanBuffer(BufferOf(buffer, field), lo, hi, deleted);
      result := inTree + inBuffer;
      RangeMeans(Now(), history, field, lo, hi, result);
    }
  }

  /** Where the history staged the entries that are visible and in range. */
  ghost function Places(ops: seq<Op>, field: string, lo: u64, hi: u64, n: nat): seq<nat>
    requires n <= |ops|
  {
    if n == 0 then []
    else Places(ops, field, lo, hi, n - 1) + (if SelectedAt(ops, field, lo, hi, n - 1) then [n - 1] else [])
  }

  ghost predicate SelectedAt(ops: seq<Op>, field: string, lo: u64, hi: u64, i: nat)
    requires i < |ops|
  {
    ops[i].OpAdd? && ops[i].field == field && !Hidden(ops, i) && InCodeRange(ops[i].entry.value, lo, hi)
  }

  /** The documents staged at the given places. */
  function DocsAt(ops: seq<Op>, places: seq<nat>): (docs: seq<DocId>)
    requires forall i <- places :: i < |ops| && ops[i].OpAdd?
    ensures |docs| == |places|
  {
    seq(|places|, k requires 0 <= k < |places| => assert places[k] in places; ops[places[k]].entry.docId)
  }

  lemma {:induction false} PlacesMean(ops: seq<Op>, field: string, lo: u64, hi: u64, n: nat)
    requires n <= |ops|
    ensures var places := Places(ops, field, lo, hi, n);
            && (forall i: nat :: i in places <==> i < n && SelectedAt(ops, field, lo, hi, i))
            && (forall i <- places :: ops[i].OpAdd?)
            && (forall j, k :: 0 <= j < k < |places| ==> places[j] < places[k])
            && DocsAt(ops, places) == Select(VisibleUpTo(ops, field, n), lo, hi, {})
    decreases n
  {
    hide SelectedAt, Select, VisibleAt;
    SelectEmpty(lo, hi);
    if n > 0 {
      PlacesMean(ops, field, lo, hi, n - 1);
      var before := Places(ops, field, lo, hi, n - 1);
      assert forall k :: 0 <= k < |before| ==> before[k] in before;
      SelectConcat(VisibleUpTo(ops, field, n - 1), VisibleAt(ops, field, n - 1), lo, hi, {});
      SelectedOne(ops, field, lo, hi, n - 1);
      if SelectedAt(ops, field, lo, hi, n - 1) {
        MoreDocs(ops, before, n - 1);
      } else {
        assert before + [] == before;
      }
    }
  }

  lemma SelectedOne(ops: seq<Op>, field: string, lo: u64, hi: u64, i: nat)
    requires i < |ops|
    ensures SelectedAt(ops, field, lo, hi, i) ==> ops[i].OpAdd?
    ensures Select(VisibleAt(ops, field, i), lo, hi, {})
            == if SelectedAt(ops, field, lo, hi, i) then [ops[i].entry.docId] else []
  {
    SelectEmpty(lo, hi);
    if ops[i].OpAdd? {
      SelectOne(ops[i].entry, lo, hi, {});
    }
  }

  lemma MoreDocs(ops: seq<Op>, places: seq<nat>, i: nat)
    requires (forall j <- places :: j < |ops| && ops[j].OpAdd?) && i < |ops| && ops[i].OpAdd?
    ensures DocsAt(ops, places + [i]) == DocsAt(ops, places) + [ops[i].entry.docId]
  {
    assert forall k :: 0 <= k < |places| ==> (places + [i])[k] == places[k];
  }

  lemma SelectEmpty(lo: u64, hi: u64)
    ensures Select([], lo, hi, {}) == []
  {
  }

  /**
   * What a range answer is, operation by operation: one document for each entry added to the field that
   * no delete of its document hides, be it later or within the same flush, and whose code meets the
   * bounds. Of two bounds on a side the exclusive one counts, and at the extreme code it lets all pass.
   */
  lemma RangeAnswer(ops: seq<Op>, field: string, kind: Kind, gte: Option<Bound>, lte: Option<Bound>, gt: Option<Bound>,
                    lt: Option<Bound>, result: seq<DocId>)
    returns (places: seq<nat>)
    requires multiset(result)
             == multiset(Select(Visible(ops, field), LowerCode(kind, gte, gt), UpperCode(kind, lte, lt), {}))
    ensures forall j, k :: 0 <= j < k < |places| ==> places[j] < places[k]
    ensures forall i: nat :: i in places <==>
              && i < |ops| && ops[i].OpAdd? && ops[i].field == field
              && (forall j | 0 <= j < |ops| && ops[j] == OpDelete(ops[i].entry.docId) ::
                    exists k :: j < k < i && ops[k] == OpFlush)
              && var c := ops[i].entry.value;
                 && (if gt.Some?
                     then EncodeBound(kind, gt.value) == 0xffff_ffff_ffff_ffff || c > EncodeBound(kind, gt.value)
                     else gte.Some? ==> c >= EncodeBound(kind, gte.value))
                 && (if lt.Some? then EncodeBound(kind, lt.value) == 0 || c < EncodeBound(kind, lt.value)
                     else lte.Some? ==> c <= EncodeBound(kind, lte.value))
    ensures multiset(result) == multiset(DocsAt(ops, places))
  {
    var lo, hi := LowerCode(kind, gte, gt), UpperCode(kind, lte, lt);
    places := Places(ops, field, lo, hi, |ops|);
    PlacesMean(ops, field, lo, hi, |ops|);
    hide Places, Select, SelectedAt, Visible, LowerCode, UpperCode, EncodeBound;
    forall i: nat | i < |ops| {
      SelectedMeans(ops, field, kind, gte, lte, gt, lt, i);
    }
  }

  lemma SelectedMeans(ops: seq<Op>, field: string, kind: Kind, gte: Option<Bound>, lte: Option<Bound>,
                      gt: Option<Bound>, lt: Option<Bound>, i: nat)
    requires i < |ops|
    ensures SelectedAt(ops, field, LowerCode(kind, gte, gt), UpperCode(kind, lte, lt), i) <==>
              && ops[i].OpAdd? && ops[i].field == field
              && (forall j | 0 <= j < |ops| && ops[j] == OpDelete(ops[i].entry.docId) ::
                    exists k :: j < k < i && ops[k] == OpFlush)
              && var c := ops[i].entry.value;
                 && (if gt.Some?
                     then EncodeBound(kind, gt.value) == 0xffff_ffff_ffff_ffff || c > EncodeBound(kind, gt.value)
                     else gte.Some? ==> c >= EncodeBound(kind, gte.value))
                 && (if lt.Some? then EncodeBound(kind, lt.value) == 0 || c < EncodeBound(kind, lt.value)
                     else lte.Some? ==> c <= EncodeBound(kind, lte.value))
  {
    hide Hidden, EncodeInt64, EncodeFloat64, LowerCode, UpperCode, EncodeBound;
    if ops[i].OpAdd? {
      HiddenMeans(ops, i);
      WithinBounds(kind, gte, lte, gt, lt, ops[i].entry.value);
    }
  }

  lemma WithinBounds(kind: Kind, gte: Option<Bound>, lte: Option<Bound>, gt: Option<Bound>, lt: Option<Bound>, c: u64)
    ensures InCodeRange(c, LowerCode(kind, gte, gt), UpperCode(kind, lte, lt)) <==>
              && (if gt.Some?
                  then EncodeBound(kind, gt.value) == 0xffff_ffff_ffff_ffff || c > EncodeBound(kind, gt.value)
                  else gte.Some? ==> c >= EncodeBound(kind, gte.value))
              && (if lt.Some? then EncodeBound(kind, lt.value) == 0 || c < EncodeBound(kind, lt.value)
                  else lte.Some? ==> c <= EncodeBound(kind, lte.value))
  {
    hide EncodeInt64, EncodeFloat64;
  }

  lemma HiddenMeans(ops: seq<Op>, i: nat)
    requires i < |ops| && ops[i].OpAdd?
    ensures !Hidden(ops, i) <==> forall j | 0 <= j < |ops| && ops[j] == OpDelete(ops[i].entry.docId) ::
                                   exists k :: j < k < i && ops[k] == OpFlush
  {
    if !Hidden(ops, i) {
      forall j | 0 <= j < |ops| && ops[j] == OpDelete(ops[i].entry.docId)
        ensures exists k :: j < k < i && ops[k] == OpFlush
      {
        assert !Hides(ops, j, i);
      }
    }
  }

  lemma RangeMeans(s: State, ops: seq<Op>, field: string, lo: u64, hi: u64, result: seq<DocId>)
    requires Represents(s, ops)
    requires result == Select(LoadEntries(s.store, RootOf(s.roots, field)), lo, hi, s.deleted)
                       + Select(BufferOf(s.buffer, field), lo, hi, s.deleted)
    ensures multiset(result) == multiset(Select(Visible(ops, field), lo, hi, {}))
  {
    SelectConcat(LoadEntries(s.store, RootOf(s.roots, field)), BufferOf(s.buffer, field), lo, hi, s.deleted);
    SelectOfLive(Content(s, field), lo, hi, s.deleted);
    SelectPermutes(Live(Content(s, field), s.deleted), Visible(ops, field), lo, hi, {});
  }

  /** The fields in `done` are rebuilt from their live entries; the others are as they were. */
  ghost predicate PartlyFlushed(s: State, now: State, done: set<string>) {
    forall field ::
      var entries := LoadEntries(now.store, RootOf(now.roots, field));
      if field in done then multiset(entries) == multiset(Live(Content(s, field), s.deleted))
      else entries == LoadEntries(s.store, RootOf(s.roots, field)) && RootOf(now.roots, field) == RootOf(s.roots, field)
  }

  lemma OtherTreesKept(before: State, now: State, field: string, f: string)
    requires f != field && TreeValid(before.store, f, RootOf(before.roots, f))
    requires forall key :: (forall i: nat :: key != BlockKey(field, i)) ==>
               LoadBlock(now.store, key) == LoadBlock(before.store, key)
    ensures TreeValid(now.store, f, RootOf(before.roots, f))
    ensures LoadEntries(now.store, RootOf(before.roots, f)) == LoadEntries(before.store, RootOf(before.roots, f))
  {
    hide BlockKey, TreeValid, LoadEntries, LoadBlock;
    forall i: nat ensures LoadBlock(now.store, BlockKey(f, i)) == LoadBlock(before.store, BlockKey(f, i)) {
      if j: nat :| BlockKey(f, i) == BlockKey(field, j) {
        BlockKeyInjective(f, i, field, j);
      }
    }
    TreeFrame(before.store, now.store, f, RootOf(before.roots, f));
  }

  lemma FieldFlushed(s: State, before: State, now: State, done: set<string>, field: string, root: Node)
    requires TreesValid(before) && PartlyFlushed(s, before, done) && field !in done
    requires before.buffer == s.buffer && before.deleted == s.deleted
    requires now.roots == before.roots[field := root]
    requires forall key :: (forall i: nat :: key != BlockKey(field, i)) ==>
               LoadBlock(now.store, key) == LoadBlock(before.store, key)
    requires TreeValid(now.store, field, RootOf(now.roots, field))
    requires multiset(LoadEntries(now.store, RootOf(now.roots, field)))
             == multiset(Live(Content(before, field), s.deleted))
    ensures TreesValid(now) && PartlyFlushed(s, now, done + {field})
  {
    hide BlockKey, TreeValid, LoadEntries, LoadBlock, Live;
    forall f | f != field
      ensures TreeValid(now.store, f, RootOf(now.roots, f))
      ensures LoadEntries(now.store, RootOf(now.roots, f)) == LoadEntries(before.store, RootOf(before.roots, f))
    {
      OtherTreesKept(before, now, field, f);
    }
  }

  lemma FlushStarts(s: State)
    ensures PartlyFlushed(s, s, {})
  {
  }

  lemma FlushEnds(s: State, now: State, done: set<string>)
    requires TreesValid(now) && PartlyFlushed(s, now, done)
    requires forall f :: f in done <==> f in s.buffer || (s.deleted != {} && f in s.roots)
    ensures FlushedTo(s, now.(buffer := map[], deleted := {}))
    ensures TreesValid(now.(buffer := map[], deleted := {}))
  {
    hide TreeValid, Live;
    LiveNothing(s.deleted);
    var s' := now.(buffer := map[], deleted := {});
    forall field ensures multiset(Content(s', field)) == multiset(Live(Content(s, field), s.deleted)) {
      if field !in done {
        LiveKeepsAll(Content(s, field));
      }
    }
  }
}
