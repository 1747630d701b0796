/** Result pages of engine/search.go and the cursors between them. */
module Paging {
  import opened Wrappers

  type DocId = string

  datatype Hit = Hit(id: DocId, sortValue: string, score: real)

  datatype Cursor = Cursor(sortValue: string, docId: DocId)

  datatype Options = Options(sorted: bool, from: nat, size: int, after: Option<Cursor>)

  datatype Page = Page(hits: seq<Hit>, next: Option<Cursor>)

  // --- Pages -------------------------------------------------------------------

  /** The first `n` elements, or all of them. */
  function Clip<T>(s: seq<T>, n: int): seq<T> {
    if 0 < n < |s| then s[..n] else s
  }

  /** The index behind the first hit of a document. */
  function CutAfter(result: seq<Hit>, id: DocId): (n: Option<nat>)
    ensures n.Some? ==> n.value <= |result|
  {
    if result == [] then None
    else if result[0].id == id then Some(1)
    else
      match CutAfter(result[1..], id)
      case None => None
      case Some(n) => Some(n + 1)
  }

  function Selected(result: seq<Hit>, opts: Option<Options>): seq<Hit> {
    match opts
    case None => result
    case Some(o) =>
      match o.after
      case Some(cursor) =>
        (match CutAfter(result, cursor.docId)
         case None => []
         case Some(n) => Clip(result[n..], o.size))
      case None => if o.from > |result| then [] else Clip(result[o.from..], o.size)
  }

  /** An active sort gives every page a cursor to its last hit, unless the page is empty. */
  function PageOf(result: seq<Hit>, topK: int, opts: Option<Options>): Page {
    var hits := Clip(Selected(result, opts), topK);
    var next := if opts.Some? && opts.value.sorted && hits != []
                then Some(Cursor(hits[|hits| - 1].sortValue, hits[|hits| - 1].id)) else None;
    Page(hits, next)
  }

  method FindCut(result: seq<Hit>, id: DocId) returns (cutIdx: int)
    ensures CutAfter(result, id) == if cutIdx < 0 then None else Some(cutIdx)
  {
    for i := 0 to |result|
      invariant CutAfter(result, id) == Shifted(CutAfter(result[i..], id), i)
    {
      assert result[i..][1..] == result[i + 1..];
      if result[i].id == id {
        return i + 1;
      }
    }
    return -1;
  }

  function Shifted(n: Option<nat>, offset: nat): Option<nat> {
    if n.None? then None else Some(n.value + offset)
  }

  method SelectHits(result: seq<Hit>, opts: Option<Options>) returns (hits: seq<Hit>, pastEnd: bool)
    ensures hits == Selected(result, opts) && (pastEnd ==> hits == [])
  {
    hits, pastEnd := result, false;
    if opts.Some? && opts.value.after.Some? {
      var cutIdx := FindCut(result, opts.value.after.value.docId);
      if cutIdx < 0 {
        hits := [];
      } else {
        hits := result[cutIdx..];
      }
      if opts.value.size > 0 && |hits| > opts.value.size {
        hits := hits[..opts.value.size];
      }
    } else if opts.Some? && (opts.value.from > 0 || opts.value.size > 0) {
      var start := opts.value.from;
      if start > |result| {
        return [], true;
      }
      var end := |result|;
      if opts.value.size > 0 && start + opts.value.size < end {
        end := start + opts.value.size;
      }
      hits := result[start..end];
      assert hits == Clip(result[start..], opts.value.size);
    }
  }

  lemma {:induction false} CutAfterMeans(result: seq<Hit>, id: DocId)
    ensures match CutAfter(result, id)
            case None => forall h <- result :: h.id != id
            case Some(n) => 0 < n && result[n - 1].id == id && forall k :: 0 <= k < n - 1 ==> result[k].id != id
    decreases |result|
  {
    if result != [] && result[0].id != id {
      var rest := result[1..];
      CutAfterMeans(rest, id);
      assert result == [result[0]] + rest;
      match CutAfter(rest, id)
      case None =>
      case Some(n) => assert forall k :: 0 < k <= n ==> result[k] == rest[k - 1];
    }
  }

  /** Where a page starts: behind the cursor's document, or at the offset; past the end there is nothing. */
  function Start(result: seq<Hit>, opts: Option<Options>): nat {
    match opts
    case None => 0
    case Some(o) =>
      match o.after
      case Some(cursor) => (match CutAfter(result, cursor.docId) case None => |result| case Some(n) => n)
      case None => if o.from > |result| then |result| else o.from
  }

  lemma StartMeans(result: seq<Hit>, opts: Option<Options>)
    ensures var start := Start(result, opts);
            && (opts.None? ==> start == 0)
            && (opts.Some? && opts.value.after.None? ==>
                  start == if opts.value.from <= |result| then opts.value.from else |result|)
            && (opts.Some? && opts.value.after.Some? ==>
                  var id := opts.value.after.value.docId;
                  if exists h <- result :: h.id == id
                  then 0 < start <= |result| && result[start - 1].id == id
                       && forall k :: 0 <= k < start - 1 ==> result[k].id != id
                  else start == |result|)
  {
    if opts.Some? && opts.value.after.Some? {
      CutAfterMeans(result, opts.value.after.value.docId);
    }
  }

  lemma SelectedFromStart(result: seq<Hit>, opts: Option<Options>)
    ensures Start(result, opts) <= |result|
    ensures Selected(result, opts) == Clip(result[Start(result, opts)..], if opts.Some? then opts.value.size else 0)
  {
    assert result[0..] == result;
  }

  lemma ClippedTwice(rest: seq<Hit>, size: int, topK: int)
    ensures var hits := Clip(Clip(rest, size), topK);
            && hits <= rest && (size > 0 ==> |hits| <= size) && (topK > 0 ==> |hits| <= topK)
            && (|hits| == |rest| || |hits| == size > 0 || |hits| == topK > 0)
  {
  }

  /**
   * The page holds the hits from `start` on, as many as there are and as the size and the limit allow.
   * A cursor to a document that is not in the result leaves nothing.
   */
  method ApplyPagination(result: seq<Hit>, topK: int, opts: Option<Options>) returns (page: Page, ghost start: nat)
    ensures page == PageOf(result, topK, opts)
    ensures start <= |result| && page.hits <= result[start..]
    ensures topK > 0 ==> |page.hits| <= topK
    ensures opts.Some? && opts.value.size > 0 ==> |page.hits| <= opts.value.size
    ensures || start + |page.hits| == |result| || |page.hits| == topK > 0
            || (opts.Some? && |page.hits| == opts.value.size > 0)
    ensures opts.None? ==> start == 0 && page.next == None
    ensures opts.Some? && opts.value.after.None? ==>
              start == if opts.value.from <= |result| then opts.value.from else |result|
    ensures opts.Some? && opts.value.after.Some? ==>
              var id := opts.value.after.value.docId;
              if exists h <- result :: h.id == id
              then 0 < start && result[start - 1].id == id && forall k :: 0 <= k < start - 1 ==> result[k].id != id
              else start == |result| && page == Page([], None)
    ensures opts.Some? ==>
              page.next == if opts.value.sorted && page.hits != []
                           then Some(Cursor(page.hits[|page.hits| - 1].sortValue, page.hits[|page.hits| - 1].id))
                           else None
  {
    start := Start(result, opts);
    SelectedFromStart(result, opts);
    ClippedTwice(result[start..], if opts.Some? then opts.value.size else 0, topK);
    StartMeans(result, opts);
    hide Selected, CutAfter, Start, Clip;
    var hits, pastEnd := SelectHits(result, opts);
    if pastEnd {
      return Page([], None), start;
    }
    if topK > 0 && |hits| > topK {
      hits := hits[..topK];
    }
    page := Page(hits, None);
    if opts.Some? && opts.value.sorted && |hits| > 0 {
      var last := hits[|hits| - 1];
      page := Page(hits, Some(Cursor(last.sortValue, last.id)));
    }
  }

  // --- Following cursors -------------------------------------------------------

  predicate DistinctIds(result: seq<Hit>) {
    forall i, j :: 0 <= i < j < |result| ==> result[i].id != result[j].id
  }

  /** At most `n` pages, each asked for with the cursor of the one before, until a page has none. */
  function Follow(result: seq<Hit>, size: int, after: Option<Cursor>, n: nat): seq<Page>
    decreases n
  {
    if n == 0 then []
    else
      var page := PageOf(result, 0, Some(Options(true, 0, size, after)));
      [page] + (if page.next.None? then [] else Follow(result, size, page.next, n - 1))
  }

  function Hits(pages: seq<Page>): seq<Hit> {
    if pages == [] then [] else pages[0].hits + Hits(pages[1..])
  }

  lemma {:induction false} CutAfterFinds(result: seq<Hit>, i: nat)
    requires DistinctIds(result) && i < |result|
    ensures CutAfter(result, result[i].id) == Some(i + 1)
    decreases |result|
  {
    if i > 0 {
      assert DistinctIds(result[1..]);
      CutAfterFinds(result[1..], i - 1);
    }
  }

  /** The cursor that stands behind the first `j` hits. */
  predicate Behind(result: seq<Hit>, after: Option<Cursor>, j: nat) {
    if after.None? then j == 0 else 0 < j <= |result| && after.value.docId == result[j - 1].id
  }

  lemma PageBehind(result: seq<Hit>, size: int, after: Option<Cursor>, j: nat)
    requires DistinctIds(result) && size > 0 && j <= |result| && Behind(result, after, j)
    ensures var page := PageOf(result, 0, Some(Options(true, 0, size, after)));
            && page.hits == Clip(result[j..], size)
            && (j == |result| ==> page == Page([], None))
            && (j < |result| ==> Behind(result, page.next, j + |page.hits|) && page.next.Some?)
  {
    hide CutAfter, DistinctIds;
    if after.Some? {
      CutAfterFinds(result, j - 1);
    }
    var opts := Some(Options(true, 0, size, after));
    assert Selected(result, opts) == Clip(result[j..], size);
    hide Selected;
  }

  /** The pages cover `hits`, none but the last is empty or too long, and the last has no cursor. */
  predicate Covers(pages: seq<Page>, hits: seq<Hit>, size: nat) {
    && Hits(pages) == hits
    && pages != [] && pages[|pages| - 1] == Page([], None)
    && forall i :: 0 <= i < |pages| - 1 ==> 0 < |pages[i].hits| <= size && pages[i].next.Some?
  }

  lemma CoversMore(page: Page, rest: seq<Page>, hits: seq<Hit>, size: nat)
    requires Covers(rest, hits, size) && 0 < |page.hits| <= size && page.next.Some?
    ensures Covers([page] + rest, page.hits + hits, size)
  {
    assert ([page] + rest)[1..] == rest;
    hide Hits;
  }

  lemma CoversNothing(size: nat)
    ensures Covers([Page([], None)], [], size)
  {
    assert [Page([], None)][1..] == [];
  }

  lemma FollowUnfolds(result: seq<Hit>, size: int, after: Option<Cursor>, n: nat)
    requires n > 0
    ensures var page := PageOf(result, 0, Some(Options(true, 0, size, after)));
            Follow(result, size, after, n)
            == [page] + (if page.next.None? then [] else Follow(result, size, page.next, n - 1))
  {
    hide PageOf;
  }

  lemma {:induction false} FollowFrom(result: seq<Hit>, size: nat, after: Option<Cursor>, j: nat, n: nat)
    requires DistinctIds(result) && size > 0 && j <= |result| && Behind(result, after, j) && |result| - j < n
    ensures Covers(Follow(result, size, after, n), result[j..], size)
    decreases n
  {
    hide PageOf, DistinctIds, Behind, Covers, Clip, Follow;
    var page := PageOf(result, 0, Some(Options(true, 0, size, after)));
    PageBehind(result, size, after, j);
    FollowUnfolds(result, size, after, n);
    if j == |result| {
      CoversNothing(size);
      assert result[j..] == [];
      assert Follow(result, size, after, n) == [page];
    } else {
      ClipRest(result, j, size);
      var k := j + |page.hits|;
      FollowFrom(result, size, page.next, k, n - 1);
      CoversMore(page, Follow(result, size, page.next, n - 1), result[k..], size);
    }
  }

  lemma ClipRest(result: seq<Hit>, j: nat, size: nat)
    requires j <= |result| && size > 0
    ensures var hits := Clip(result[j..], size);
            j + |hits| <= |result| && result[j..] == hits + result[j + |hits|..] && |hits| <= size
    ensures j < |result| ==> Clip(result[j..], size) != []
  {
  }

  /** On a fixed list of distinct documents, the pages cover every hit once, in order, and end with an empty page. */
  lemma CursorsCoverEverything(result: seq<Hit>, size: nat, n: nat)
    requires forall i, j :: 0 <= i < j < |result| ==> result[i].id != result[j].id
    requires size > 0 && |result| < n
    ensures var pages := Follow(result, size, None, n);
            && Hits(pages) == result && pages != [] && pages[|pages| - 1] == Page([], None)
            && forall i :: 0 <= i < |pages| - 1 ==> 0 < |pages[i].hits| <= size && pages[i].next.Some?
  {
    FollowFrom(result, size, None, 0, n);
    assert result[0..] == result;
  }
}
