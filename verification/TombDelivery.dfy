/** Which tombstones a delta traversal of a quiescent store delivers. The cursor of a page
    comes from its last note, so tombstones between the end of a truncated tombstone list
    and that note are never seen again. */
module TombDelivery {
  import opened Wrappers
  import opened Keyset
  import opened Pagination

  ghost predicate Delivered(pages: seq<KeyPage>, k: Key) {
    exists i | 0 <= i < |pages| :: k in pages[i].tombs
  }

  /** The page truncates its tombstone list before k but moves the cursor to k or past it. */
  ghost predicate Skips(p: KeyPage, k: Key) {
    p.moreTombs && p.notes != [] && p.tombs != [] && Lt(Last(p.tombs), k) && Le(k, Last(p.notes))
  }

  ghost predicate Skipped(pages: seq<KeyPage>, k: Key) {
    exists i | 0 <= i < |pages| :: Skips(pages[i], k)
  }

  lemma OnFirstOrLater(p: KeyPage, rest: seq<KeyPage>, k: Key)
    ensures Delivered([p] + rest, k) <==> k in p.tombs || Delivered(rest, k)
    ensures Skipped([p] + rest, k) <==> Skips(p, k) || Skipped(rest, k)
  {
    var pages := [p] + rest;
    assert pages[0] == p && forall i | 0 <= i < |rest| :: pages[i + 1] == rest[i];
    if Delivered(pages, k) {
      var i :| 0 <= i < |pages| && k in pages[i].tombs;
      if i > 0 { assert k in rest[i - 1].tombs; }
    }
    if Skipped(pages, k) {
      var i :| 0 <= i < |pages| && Skips(pages[i], k);
      if i > 0 { assert Skips(rest[i - 1], k); }
    }
    if Delivered(rest, k) {
      var i :| 0 <= i < |rest| && k in rest[i].tombs;
      assert k in pages[i + 1].tombs;
    }
    if Skipped(rest, k) {
      var i :| 0 <= i < |rest| && Skips(rest[i], k);
      assert Skips(pages[i + 1], k);
    }
  }

  // ---------- the rank of a key beyond a cursor ----------

  function UpTo(w: set<Key>, c: Key, k: Key): set<Key> {
    set x | x in After(w, c) && Le(x, k)
  }

  /** A row is on the page exactly when at most n rows, itself included, come up to it. */
  lemma PageRank(w: set<Key>, c: Key, n: nat, k: Key)
    requires k in After(w, c)
    ensures k in Page(w, c, n) <==> |UpTo(w, c, k)| <= n
  {
    var q := OrderBy(After(w, c));
    OrderBySorts(After(w, c));
    var i :| 0 <= i < |q| && q[i] == k;
    RankInList(w, c, i);
    var p := Page(w, c, n);
    assert p == q[..|p|];
    if i < n { assert p[i] == k; }
    if k in p {
      var j :| 0 <= j < |p| && p[j] == k;
      assert q[j] == k;
    }
  }

  lemma RankInList(w: set<Key>, c: Key, i: nat)
    requires i < |OrderBy(After(w, c))|
    ensures |UpTo(w, c, OrderBy(After(w, c))[i])| == i + 1
  {
    var q := OrderBy(After(w, c));
    var k := q[i];
    OrderBySorts(After(w, c));
    SortedCut(q, i + 1);
    OrderBySorts(UpTo(w, c, k));
    assert forall x :: x in q[..i + 1] ==> x in q;
    SortedUnique(OrderBy(UpTo(w, c, k)), q[..i + 1]);
  }

  /** A row on a page stays on the page of any later cursor that does not pass it. */
  lemma PageForward(w: set<Key>, c: Key, d: Key, n: nat, k: Key)
    requires Positive(w) && (c.t == 0 || Le(c, d))
    requires k in Page(w, c, n) && k in After(w, d)
    ensures k in Page(w, d, n)
  {
    AfterMonotone(w, c, d);
    PageRank(w, c, n, k);
    PageRank(w, d, n, k);
    SubsetSize(UpTo(w, d, k), UpTo(w, c, k));
  }

  // ---------- exact delivery ----------

  lemma {:induction false} NeverBack(N: set<Key>, T: set<Key>, c: Key, limit: nat, k: Key)
    requires Windows(N, T, limit)
    requires c.t > 0 && !Lt(c, k)
    ensures !Delivered(Traverse(N, T, c, limit), k)
    decreases Remaining(N, T, c)
  {
    var p := FetchKeys(N, T, c, limit);
    PageCut(T, c, limit);
    NextAdvances(N, T, c, limit);
    if NextKey(p).None? {
    } else {
      var d := NextKey(p).value;
      NeverBack(N, T, d, limit, k);
      OnFirstOrLater(p, Traverse(N, T, d, limit), k);
    }
  }

  lemma {:induction false} NeverSkipped(N: set<Key>, T: set<Key>, c: Key, limit: nat, k: Key)
    requires Windows(N, T, limit)
    requires k in Page(T, c, limit) || (c.t > 0 && !Lt(c, k))
    ensures !Skipped(Traverse(N, T, c, limit), k)
    decreases Remaining(N, T, c)
  {
    hide Page, OrderBy;
    var p := FetchKeys(N, T, c, limit);
    PageCut(T, c, limit);
    PageCut(N, c, limit);
    NextAdvances(N, T, c, limit);
    assert !Skips(p, k) by {
      if p.tombs != [] { LastIsBeyond(T, c, limit); }
    }
    if NextKey(p).None? {
    } else {
      var d := NextKey(p).value;
      if k in p.tombs && Lt(d, k) {
        PageForward(T, c, d, limit, k);
      }
      NeverSkipped(N, T, d, limit, k);
      OnFirstOrLater(p, Traverse(N, T, d, limit), k);
    }
  }

  lemma LastIsBeyond(w: set<Key>, c: Key, n: nat)
    requires Page(w, c, n) != []
    ensures Last(Page(w, c, n)) in After(w, c)
  {
    PageCut(w, c, n);
    assert Last(Page(w, c, n)) in Page(w, c, n);
  }

  /** A traversal omits a tombstone iff one of its pages skips it. */
  lemma {:induction false} OmittedIffSkipped(N: set<Key>, T: set<Key>, c: Key, limit: nat, k: Key)
    requires Windows(N, T, limit) && k in After(T, c)
    ensures !Delivered(Traverse(N, T, c, limit), k) <==> Skipped(Traverse(N, T, c, limit), k)
    decreases Remaining(N, T, c)
  {
    var p := FetchKeys(N, T, c, limit);
    PageCut(T, c, limit);
    NextAdvances(N, T, c, limit);
    if k in p.tombs {
      OnFirstOrLater(p, Traverse(N, T, c, limit)[1..], k);
      assert [p] + Traverse(N, T, c, limit)[1..] == Traverse(N, T, c, limit);
      NeverSkipped(N, T, c, limit, k);
    } else {
      assert p.moreTombs && p.tombs != [];
      var d := NextKey(p).value;
      OnFirstOrLater(p, Traverse(N, T, d, limit), k);
      if Lt(d, k) {
        assert !Skips(p, k);
        OmittedIffSkipped(N, T, d, limit, k);
      } else {
        assert Skips(p, k);
        NeverBack(N, T, d, limit, k);
      }
    }
  }

  ghost predicate Complete(N: set<Key>, T: set<Key>, c: Key, limit: nat)
    requires Windows(N, T, limit)
  {
    forall k | k in After(T, c) :: Delivered(Traverse(N, T, c, limit), k)
  }

  /** No page of notes spans more than `limit` tombstones. Only the notes are paged here,
      so this can be told from the two tables before the traversal. */
  ghost predicate Room(N: set<Key>, T: set<Key>, c: Key, limit: nat)
    requires Windows(N, T, limit)
    decreases |After(N, c)|
  {
    var p := Page(N, c, limit);
    p != [] ==>
      && |UpTo(T, c, Last(p))| <= limit
      && (PageRest(N, c, limit); Room(N, T, Last(p), limit))
  }

  /** Delivery is complete exactly when every page of notes leaves room for the
      tombstones it spans. */
  lemma {:induction false} CompleteIffRoom(N: set<Key>, T: set<Key>, c: Key, limit: nat)
    requires Windows(N, T, limit)
    ensures Complete(N, T, c, limit) <==> Room(N, T, c, limit)
    decreases Remaining(N, T, c)
  {
    var p := FetchKeys(N, T, c, limit);
    NextAdvances(N, T, c, limit);
    if p.notes == [] {
      assert After(N, c) == {} by { assert |After(N, c)| == 0; }
      NoNotesComplete(N, T, c, limit);
    } else if NextKey(p).None? {
      FewTombsComplete(N, T, c, limit);
      var d := Last(p.notes);
      PageRest(N, c, limit);
      assert Page(N, d, limit) == [];
      SubsetSize(UpTo(T, c, d), After(T, c));
    } else {
      var d := Last(p.notes);
      PageRest(N, c, limit);
      CompleteIffRoom(N, T, d, limit);
      SplitAtCursor(N, T, c, limit);
      FitsIffOnPage(T, c, limit, d);
    }
  }

  /** At most a page of tombstones since the cursor: the first page carries them all. */
  lemma FewTombsComplete(N: set<Key>, T: set<Key>, c: Key, limit: nat)
    requires Windows(N, T, limit) && |After(T, c)| <= limit
    ensures Complete(N, T, c, limit)
  {
    PageCut(T, c, limit);
    var pages := Traverse(N, T, c, limit);
    forall k | k in After(T, c) ensures Delivered(pages, k) {
      assert k in pages[0].tombs;
    }
  }

  lemma {:induction false} NoNotesNoSkip(N: set<Key>, T: set<Key>, c: Key, limit: nat, k: Key)
    requires Windows(N, T, limit) && After(N, c) == {}
    ensures !Skipped(Traverse(N, T, c, limit), k)
    decreases Remaining(N, T, c)
  {
    var p := FetchKeys(N, T, c, limit);
    NextAdvances(N, T, c, limit);
    assert p.notes == [];
    if NextKey(p).None? {
    } else {
      var d := NextKey(p).value;
      AfterMonotone(N, c, d);
      NoNotesNoSkip(N, T, d, limit, k);
      OnFirstOrLater(p, Traverse(N, T, d, limit), k);
    }
  }

  lemma NoNotesComplete(N: set<Key>, T: set<Key>, c: Key, limit: nat)
    requires Windows(N, T, limit) && After(N, c) == {}
    ensures Complete(N, T, c, limit)
  {
    forall k | k in After(T, c) ensures Delivered(Traverse(N, T, c, limit), k) {
      NoNotesNoSkip(N, T, c, limit, k);
      OmittedIffSkipped(N, T, c, limit, k);
    }
  }

  lemma GreatestOf(s: set<Key>) returns (k: Key)
    requires s != {}
    ensures k in s && forall x | x in s :: Le(x, k)
  {
    hide OrderBy;
    OrderBySorts(s);
    assert |s| != 0;
    k := Last(OrderBy(s));
    assert k in OrderBy(s);
    forall x | x in s ensures Le(x, k) {
      var j :| 0 <= j < |s| && OrderBy(s)[j] == x;
    }
  }

  lemma FitsIffOnPage(w: set<Key>, c: Key, n: nat, d: Key)
    ensures |UpTo(w, c, d)| <= n <==> forall k | k in UpTo(w, c, d) :: k in Page(w, c, n)
  {
    var s := UpTo(w, c, d);
    if |s| <= n {
      forall k | k in s ensures k in Page(w, c, n) {
        PageRank(w, c, n, k);
        SubsetSize(UpTo(w, c, k), s);
      }
      return;
    }
    assert s != {} by { assert |s| != 0; }
    var k := GreatestOf(s);
    assert UpTo(w, c, k) == s;
    PageRank(w, c, n, k);
  }

  /** Completeness from a cursor is: what the page spans is on the page, and completeness
      from the next cursor. */
  lemma SplitAtCursor(N: set<Key>, T: set<Key>, c: Key, limit: nat)
    requires Windows(N, T, limit)
    requires var p := FetchKeys(N, T, c, limit); p.notes != [] && NextKey(p).Some?
    ensures var d := Last(Page(N, c, limit));
            Complete(N, T, c, limit) <==>
              && (forall k | k in UpTo(T, c, d) :: k in Page(T, c, limit))
              && Complete(N, T, d, limit)
  {
    hide Traverse, Page, OrderBy, Delivered;
    var p := FetchKeys(N, T, c, limit);
    var d := Last(p.notes);
    PageRest(N, c, limit);
    forall k | k in After(T, c)
      ensures Delivered(Traverse(N, T, c, limit), k) <==>
              if Lt(d, k) then Delivered(Traverse(N, T, d, limit), k) else k in p.tombs
    {
      OneSplit(N, T, c, limit, k);
    }
    AfterMonotone(T, c, d);
    if Complete(N, T, c, limit) {
      forall k | k in UpTo(T, c, d) ensures k in p.tombs { assert k in After(T, c); }
      forall k | k in After(T, d) ensures Delivered(Traverse(N, T, d, limit), k) { assert k in After(T, c); }
      return;
    }
    var k :| k in After(T, c) && !Delivered(Traverse(N, T, c, limit), k);
    assert if Lt(d, k) then k in After(T, d) else k in UpTo(T, c, d);
  }

  lemma OneSplit(N: set<Key>, T: set<Key>, c: Key, limit: nat, k: Key)
    requires Windows(N, T, limit) && k in After(T, c)
    requires var p := FetchKeys(N, T, c, limit); p.notes != [] && NextKey(p).Some?
    ensures var p := FetchKeys(N, T, c, limit); var d := Last(p.notes);
            Delivered(Traverse(N, T, c, limit), k) <==>
            if Lt(d, k) then Delivered(Traverse(N, T, d, limit), k) else k in p.tombs
  {
    var p := FetchKeys(N, T, c, limit);
    var d := Last(p.notes);
    NextAdvances(N, T, c, limit);
    var rest := Traverse(N, T, d, limit);
    OnFirstOrLater(p, rest, k);
    if !Lt(d, k) {
      NeverBack(N, T, d, limit, k);
    } else if k in p.tombs {
      PageForward(T, c, d, limit, k);
      assert k in rest[0].tombs;
    }
  }
}
