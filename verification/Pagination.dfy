/** Paging through a quiescent store. One cursor drives two streams: notes keyed by
    updated_at and tombstones keyed by deleted_at. The streams are given here as the
    key sets N and T of the rows in the window of the traversal. */
module Pagination {
  import opened Wrappers
  import opened Keyset

  datatype KeyPage = KeyPage(notes: seq<Key>, moreNotes: bool, tombs: seq<Key>, moreTombs: bool)

  /** The keys of one page, with the outcome of the limit+1 probe of each stream. */
  function FetchKeys(N: set<Key>, T: set<Key>, c: Key, limit: nat): KeyPage {
    KeyPage(Page(N, c, limit), |After(N, c)| > limit, Page(T, c, limit), |After(T, c)| > limit)
  }

  function Last(q: seq<Key>): Key
    requires q != []
  {
    q[|q| - 1]
  }

  /** next_cursor: from the last note, or from the last tombstone when there is no note. */
  function NextKey(p: KeyPage): Option<Key> {
    if !p.moreNotes && !p.moreTombs then None
    else if p.notes != [] then Some(Last(p.notes))
    else if p.tombs != [] then Some(Last(p.tombs))
    else None
  }

  ghost predicate Windows(N: set<Key>, T: set<Key>, limit: nat) {
    Positive(N) && Positive(T) && limit >= 1
  }

  function Remaining(N: set<Key>, T: set<Key>, c: Key): nat {
    |After(N, c)| + |After(T, c)|
  }

  /** The limit+1 probe finds the first `limit` rows and whether there are more. */
  lemma ProbeIsPage(w: set<Key>, c: Key, limit: nat)
    ensures var rows := Page(w, c, limit + 1);
            && (|rows| > limit <==> |After(w, c)| > limit)
            && (if |rows| > limit then rows[..limit] else rows) == Page(w, c, limit)
  {
    var q := OrderBy(After(w, c));
    if |q| > limit {
      assert q[..limit + 1][..limit] == q[..limit];
    }
  }

  /** hasMore comes with a cursor, the cursor moves strictly forward, and fewer rows
      remain beyond it. */
  lemma NextAdvances(N: set<Key>, T: set<Key>, c: Key, limit: nat)
    requires Windows(N, T, limit)
    ensures var p := FetchKeys(N, T, c, limit); var next := NextKey(p);
            && (next.Some? <==> p.moreNotes || p.moreTombs)
            && (next.Some? ==>
              && next.value.t > 0 && (c.t == 0 || Lt(c, next.value))
              && next.value in N + T
              && Remaining(N, T, next.value) < Remaining(N, T, c))
  {
    var p := FetchKeys(N, T, c, limit);
    if NextKey(p).Some? {
      var k := NextKey(p).value;
      if p.notes != [] {
        PageRest(N, c, limit);
        AfterMonotone(T, c, k);
      } else {
        PageRest(T, c, limit);
        AfterMonotone(N, c, k);
      }
    }
  }

  /** A client following next_cursor until it is null. */
  function Traverse(N: set<Key>, T: set<Key>, c: Key, limit: nat): (pages: seq<KeyPage>)
    requires Windows(N, T, limit)
    ensures pages != [] && pages[0] == FetchKeys(N, T, c, limit)
    decreases Remaining(N, T, c)
  {
    var p := FetchKeys(N, T, c, limit);
    NextAdvances(N, T, c, limit);
    match NextKey(p)
    case None => [p]
    case Some(k) => [p] + Traverse(N, T, k, limit)
  }

  function NotesOf(pages: seq<KeyPage>): seq<Key> {
    if pages == [] then [] else pages[0].notes + NotesOf(pages[1..])
  }

  /** After a page the note stream has lost exactly that page's notes. */
  lemma NotesLeft(N: set<Key>, T: set<Key>, c: Key, limit: nat)
    requires Windows(N, T, limit) && NextKey(FetchKeys(N, T, c, limit)).Some?
    ensures var p := FetchKeys(N, T, c, limit); var k := NextKey(p).value;
            && OrderBy(After(N, c)) == p.notes + OrderBy(After(N, k))
            && |After(N, c)| == |p.notes| + |After(N, k)|
            && |After(T, k)| <= |After(T, c)|
            && (p.notes == [] ==> p.moreTombs && |After(T, k)| == |After(T, c)| - limit)
  {
    hide After, Page, OrderBy, Positive;
    var p := FetchKeys(N, T, c, limit);
    var k := NextKey(p).value;
    if p.notes != [] {
      NextAdvances(N, T, c, limit);
      PageRest(N, c, limit);
      PageCut(N, c, limit);
      AfterMonotone(T, c, k);
      CutJoins(OrderBy(After(N, c)), p.notes);
    } else {
      NextAdvances(N, T, c, limit);
      PageRest(T, c, limit);
      AfterMonotone(N, c, k);
      assert OrderBy(After(N, c)) == [] && OrderBy(After(N, k)) == [];
    }
  }

  lemma CutJoins(q: seq<Key>, p: seq<Key>)
    requires p <= q
    ensures q == p + q[|p|..]
  {
  }

  /** The paged form refines the simple one: whatever the limit, and however tombstones
      interfere with the cursor, the note pages concatenate to the sorted window. */
  lemma {:induction false} NotesComplete(N: set<Key>, T: set<Key>, c: Key, limit: nat)
    requires Windows(N, T, limit)
    ensures NotesOf(Traverse(N, T, c, limit)) == OrderBy(After(N, c))
    decreases Remaining(N, T, c)
  {
    var p := FetchKeys(N, T, c, limit);
    NextAdvances(N, T, c, limit);
    var pages := Traverse(N, T, c, limit);
    match NextKey(p) {
      case None =>
        assert NotesOf(pages) == p.notes + NotesOf([]);
      case Some(k) =>
        NotesLeft(N, T, c, limit);
        NotesComplete(N, T, k, limit);
        assert pages[1..] == Traverse(N, T, k, limit);
    }
  }

  // ---------- number of pages ----------

  function Ceil(n: nat, limit: nat): nat
    requires limit >= 1
  {
    (n + limit - 1) / limit
  }

  lemma MulGap(x: nat, y: nat, d: nat)
    requires x < y
    ensures x * d + d <= y * d
  {
    assert (x + 1) * d <= y * d;
  }

  lemma DivUnique(m: nat, d: nat, q: nat, r: nat)
    requires d >= 1 && m == q * d + r && r < d
    ensures m / d == q
  {
    var q' := m / d;
    assert q' * d <= m < q' * d + d;
    if q' < q { MulGap(q', q, d); }
    if q < q' { MulGap(q, q', d); }
  }

  lemma CeilFacts(n: nat, limit: nat)
    requires limit >= 1
    ensures n == 0 ==> Ceil(n, limit) == 0
    ensures 0 < n <= limit ==> Ceil(n, limit) == 1
    ensures n > limit ==> Ceil(n, limit) == 1 + Ceil(n - limit, limit) >= 2
  {
    if n == 0 {
      DivUnique(limit - 1, limit, 0, limit - 1);
    } else if n <= limit {
      DivUnique(n + limit - 1, limit, 1, n - 1);
    } else {
      var q, r := (n - 1) / limit, (n - 1) % limit;
      assert n - 1 + limit == (q + 1) * limit + r;
      DivUnique(n - 1 + limit, limit, q + 1, r);
      assert q != 0;
    }
  }

  lemma {:induction false} CeilMonotone(m: nat, n: nat, limit: nat)
    requires limit >= 1 && m <= n
    ensures Ceil(m, limit) <= Ceil(n, limit)
    decreases n
  {
    CeilFacts(m, limit);
    CeilFacts(n, limit);
    if m <= limit {
    } else {
      CeilMonotone(m - limit, n - limit, limit);
    }
  }

  /** A delta traversal takes at most max(1, ceil(N/limit) + ceil(T/limit)) pages. */
  lemma {:induction false} PageCountBound(N: set<Key>, T: set<Key>, c: Key, limit: nat)
    requires Windows(N, T, limit)
    ensures |Traverse(N, T, c, limit)|
         <= Max(1, Ceil(|After(N, c)|, limit) + Ceil(|After(T, c)|, limit))
    decreases Remaining(N, T, c)
  {
    var p := FetchKeys(N, T, c, limit);
    NextAdvances(N, T, c, limit);
    if NextKey(p).None? {
    } else {
      var k := NextKey(p).value;
      NotesLeft(N, T, c, limit);
      PageCountBound(N, T, k, limit);
      PageCost(|After(N, c)|, |After(T, c)|, |After(N, k)|, |After(T, k)|, limit, |Traverse(N, T, k, limit)|);
    }
  }

  /** The arithmetic of a page that has a successor. */
  lemma PageCost(n: nat, t: nat, n': nat, t': nat, limit: nat, rest: nat)
    requires limit >= 1 && (n > limit || t > limit)
    requires n' == n - (if n <= limit then n else limit)
    requires t' <= t && (n == 0 ==> t' == t - limit)
    requires rest <= Max(1, Ceil(n', limit) + Ceil(t', limit))
    ensures 1 + rest <= Max(1, Ceil(n, limit) + Ceil(t, limit))
  {
    CeilFacts(n, limit);
    CeilFacts(t, limit);
    CeilMonotone(t', t, limit);
    CeilFacts(t', limit);
    CeilFacts(n', limit);
  }

  /** A full traversal, whose later pages carry no tombstones, takes exactly
      max(1, ceil(N/limit)) pages. */
  lemma {:induction false} FullPageCount(N: set<Key>, c: Key, limit: nat)
    requires Windows(N, {}, limit)
    ensures |Traverse(N, {}, c, limit)| == Max(1, Ceil(|After(N, c)|, limit))
    decreases |After(N, c)|
  {
    var p := FetchKeys(N, {}, c, limit);
    NextAdvances(N, {}, c, limit);
    if NextKey(p).None? {
    } else {
      NotesLeft(N, {}, c, limit);
      FullPageCount(N, NextKey(p).value, limit);
      CeilFacts(|After(N, NextKey(p).value)|, limit);
    }
    CeilFacts(|After(N, c)|, limit);
  }

  /** The bound is tight: it is attained whenever more than a page of tombstones all
      postdate the notes of the window. */
  lemma {:induction false} PageCountAttained(N: set<Key>, T: set<Key>, c: Key, limit: nat)
    requires Windows(N, T, limit)
    requires After(T, c) == T && |T| > limit
    requires forall n, k | n in N && k in T :: Lt(n, k)
    ensures |Traverse(N, T, c, limit)|
         == Ceil(|After(N, c)|, limit) + Ceil(|T|, limit)
    decreases Remaining(N, T, c)
  {
    CeilFacts(|After(N, c)|, limit);
    if After(N, c) == {} {
      NoteFreePageCount(N, T, c, limit);
      return;
    }
    NextAdvances(N, T, c, limit);
    var k := NextKey(FetchKeys(N, T, c, limit)).value;
    assert Page(N, c, limit) != [] by { assert |After(N, c)| != 0; }
    assert After(T, k) == T by { AllTombsRemain(N, T, c, limit); }
    assert |Traverse(N, T, c, limit)| == 1 + |Traverse(N, T, k, limit)|;
    NotePageLess(N, T, c, limit);
    PageCountAttained(N, T, k, limit);
  }

  lemma NotePageLess(N: set<Key>, T: set<Key>, c: Key, limit: nat)
    requires Windows(N, T, limit) && Page(N, c, limit) != []
    requires NextKey(FetchKeys(N, T, c, limit)).Some?
    ensures var k := NextKey(FetchKeys(N, T, c, limit)).value;
            Ceil(|After(N, c)|, limit) == 1 + Ceil(|After(N, k)|, limit)
  {
    var k := NextKey(FetchKeys(N, T, c, limit)).value;
    NotesLeft(N, T, c, limit);
    CeilFacts(|After(N, c)|, limit);
    CeilFacts(|After(N, k)|, limit);
  }

  lemma AllTombsRemain(N: set<Key>, T: set<Key>, c: Key, limit: nat)
    requires Windows(N, T, limit)
    requires forall n, k | n in N && k in T :: Lt(n, k)
    requires Page(N, c, limit) != []
    ensures After(T, Last(Page(N, c, limit))) == T
  {
    PageRest(N, c, limit);
  }

  lemma {:induction false} NoteFreePageCount(N: set<Key>, T: set<Key>, c: Key, limit: nat)
    requires Windows(N, T, limit)
    requires After(N, c) == {} && After(T, c) != {}
    ensures |Traverse(N, T, c, limit)| == Ceil(|After(T, c)|, limit)
    decreases Remaining(N, T, c)
  {
    var p := FetchKeys(N, T, c, limit);
    NextAdvances(N, T, c, limit);
    assert |After(T, c)| != 0;
    CeilFacts(|After(T, c)|, limit);
    if NextKey(p).None? {
    } else {
      NotesLeft(N, T, c, limit);
      NoteFreePageCount(N, T, NextKey(p).value, limit);
    }
  }
}
