/** Keyset pagination: rows are identified by a key (timestamp, note id) under the
    lexicographic order of `ORDER BY updated_at ASC, note_id ASC`. A query is a filter
    on a finite set of keys, followed by sort and take. */
module Keyset {

  datatype Key = Key(t: nat, id: nat)

  predicate Lt(a: Key, b: Key) {
    a.t < b.t || (a.t == b.t && a.id < b.id)
  }

  predicate Le(a: Key, b: Key) {
    a == b || Lt(a, b)
  }

  ghost predicate Sorted(q: seq<Key>) {
    forall i, j | 0 <= i < j < |q| :: Lt(q[i], q[j])
  }

  /** Every stored timestamp is after the zero time, which stands for "no cursor". */
  ghost predicate Positive(w: set<Key>) {
    forall k | k in w :: k.t > 0
  }

  lemma LeastExists(s: set<Key>)
    requires s != {}
    ensures exists m :: m in s && forall k | k in s :: Le(m, k)
  {
    var x :| x in s;
    if s == {x} {
      assert forall k | k in s :: Le(x, k);
    } else {
      LeastExists(s - {x});
      var m :| m in s - {x} && forall k | k in s - {x} :: Le(m, k);
      var least := if Lt(x, m) then x else m;
      forall k | k in s ensures Le(least, k) {
        assert k == x || k in s - {x};
      }
    }
  }

  function Least(s: set<Key>): (m: Key)
    requires s != {}
    ensures m in s && forall k | k in s :: Le(m, k)
  {
    LeastExists(s);
    var m :| m in s && forall k | k in s :: Le(m, k);
    m
  }

  /** ORDER BY: the keys of a set in strictly ascending order. */
  function OrderBy(s: set<Key>): (r: seq<Key>)
    ensures |r| == |s|
    decreases |s|
  {
    if s == {} then []
    else
      var m := Least(s);
      [m] + OrderBy(s - {m})
  }

  lemma {:induction false} OrderBySorts(s: set<Key>)
    ensures Sorted(OrderBy(s))
    ensures forall k :: k in OrderBy(s) <==> k in s
    decreases |s|
  {
    if s == {} {
    } else {
      var m := Least(s);
      OrderBySorts(s - {m});
      assert forall k | k in s - {m} :: Le(m, k);
      PrependSorted(m, OrderBy(s - {m}));
    }
  }

  lemma PrependSorted(m: Key, q: seq<Key>)
    requires Sorted(q) && forall k | k in q :: Lt(m, k)
    ensures Sorted([m] + q)
    ensures forall k :: k in [m] + q <==> k == m || k in q
  {
    var r := [m] + q;
    forall i, j | 0 <= i < j < |r| ensures Lt(r[i], r[j]) {
      assert r[j] == q[j - 1];
      if i > 0 { assert r[i] == q[i - 1]; }
    }
  }

  lemma {:induction false} SortedUnique(a: seq<Key>, b: seq<Key>)
    requires Sorted(a) && Sorted(b)
    requires forall k :: k in a <==> k in b
    ensures a == b
  {
    assert b != [] ==> b[0] in b;
    if a == [] {
    } else {
      assert a[0] in b && b != [];
      assert b[0] in a;
      assert a[0] == b[0];
      forall k ensures k in a[1..] <==> k in b[1..] {
        assert k in a[1..] <==> (k in a && k != a[0]) by {
          if k in a && k != a[0] { var i :| 0 <= i < |a| && a[i] == k; assert a[1..][i - 1] == k; }
        }
        assert k in b[1..] <==> (k in b && k != b[0]) by {
          if k in b && k != b[0] { var i :| 0 <= i < |b| && b[i] == k; assert b[1..][i - 1] == k; }
        }
      }
      SortedUnique(a[1..], b[1..]);
    }
  }

  /** The WHERE clause of a continuation page. A zero cursor time adds no clause. */
  function After(w: set<Key>, c: Key): set<Key> {
    set k | k in w && (c.t == 0 || Lt(c, k))
  }

  /** Filter, sort, take: one keyset query. */
  function Page(w: set<Key>, c: Key, n: nat): (p: seq<Key>)
    ensures |p| == if |After(w, c)| <= n then |After(w, c)| else n
  {
    var q := OrderBy(After(w, c));
    if |q| <= n then q else q[..n]
  }

  /** Cutting a sorted list splits its elements at the last element kept. */
  lemma SortedCut(q: seq<Key>, n: nat)
    requires Sorted(q) && 0 < n <= |q|
    ensures forall k | k in q :: k in q[..n] <==> Le(k, q[n - 1])
    ensures forall k :: k in q[n..] <==> k in q && Lt(q[n - 1], k)
  {
    forall k | k in q ensures k in q[..n] <==> Le(k, q[n - 1]) {
      var j :| 0 <= j < |q| && q[j] == k;
      if j < n { assert q[..n][j] == k; }
      if k in q[..n] { var i :| 0 <= i < n && q[i] == k; }
    }
    forall k ensures k in q[n..] <==> k in q && Lt(q[n - 1], k) {
      if k in q && Lt(q[n - 1], k) {
        var j :| 0 <= j < |q| && q[j] == k;
        assert j >= n && q[n..][j - n] == k;
      }
    }
  }

  /** A page is exactly the least rows beyond the cursor. */
  lemma PageCut(w: set<Key>, c: Key, n: nat)
    ensures var p := Page(w, c, n); Sorted(p) && p <= OrderBy(After(w, c))
    ensures forall k | k in Page(w, c, n) :: k in After(w, c) && k in w
    ensures |After(w, c)| <= n ==> forall k | k in After(w, c) :: k in Page(w, c, n)
    ensures var p := Page(w, c, n);
            p != [] ==> forall k | k in After(w, c) :: k in p <==> Le(k, p[|p| - 1])
  {
    hide OrderBy;
    var q := OrderBy(After(w, c));
    var p := Page(w, c, n);
    OrderBySorts(After(w, c));
    assert p == q[..|p|];
    if p != [] {
      SortedCut(q, |p|);
    }
  }

  /** That describes a page completely: an ascending list of at most n rows beyond the cursor
      is the page when any row it misses comes after all of it and it is full. */
  lemma PageUnique(w: set<Key>, c: Key, n: nat, ks: seq<Key>)
    requires Sorted(ks) && |ks| <= n && forall k | k in ks :: k in After(w, c)
    requires forall k | k in After(w, c) && k !in ks :: |ks| == n && forall j | j in ks :: Lt(j, k)
    ensures ks == Page(w, c, n)
  {
    hide OrderBy, After;
    var q := OrderBy(After(w, c));
    var missing := set k | k in After(w, c) && k !in ks;
    var rest := OrderBy(missing);
    OrderBySorts(After(w, c));
    OrderBySorts(missing);
    var all := ks + rest;
    forall i, j | 0 <= i < j < |all| ensures Lt(all[i], all[j]) {
      if i < |ks| <= j { assert all[i] == ks[i] && all[j] == rest[j - |ks|] && rest[j - |ks|] in rest && ks[i] in ks; }
    }
    forall k ensures k in all <==> k in q {
      assert k in all <==> k in ks || k in rest;
    }
    SortedUnique(all, q);
    assert q[..|ks|] == ks;
    if rest != [] { assert rest[0] in missing; }
  }

  /** Resuming after the last row of a page leaves exactly the other rows, in the same order. */
  lemma PageRest(w: set<Key>, c: Key, n: nat)
    requires Positive(w) && Page(w, c, n) != []
    ensures var p := Page(w, c, n); var last := p[|p| - 1];
            && last in w && (c.t == 0 || Lt(c, last)) && last.t > 0
            && After(w, last) <= After(w, c)
            && OrderBy(After(w, last)) == OrderBy(After(w, c))[|p|..]
            && |After(w, last)| == |After(w, c)| - |p|
  {
    hide OrderBy;
    var q := OrderBy(After(w, c));
    var p := Page(w, c, n);
    var last := p[|p| - 1];
    OrderBySorts(After(w, c));
    OrderBySorts(After(w, last));
    assert p == q[..|p|] && last == q[|p| - 1] && last in p;
    assert last in q;
    AfterLast(w, c, last, q, |p|);
    SortedUnique(OrderBy(After(w, last)), q[|p|..]);
  }

  lemma AfterLast(w: set<Key>, c: Key, last: Key, q: seq<Key>, n: nat)
    requires Sorted(q) && 0 < n <= |q| && last == q[n - 1] && last.t > 0
    requires c.t == 0 || Lt(c, last)
    requires forall k :: k in q <==> k in After(w, c)
    ensures Sorted(q[n..]) && After(w, last) <= After(w, c)
    ensures forall k :: k in q[n..] <==> k in After(w, last)
  {
    SortedCut(q, n);
  }

  /** A later cursor filters a smaller set. */
  lemma AfterMonotone(w: set<Key>, c: Key, d: Key)
    requires Positive(w) && (c.t == 0 || Le(c, d))
    ensures After(w, d) <= After(w, c)
    ensures |After(w, d)| <= |After(w, c)|
  {
    SubsetSize(After(w, d), After(w, c));
  }

  lemma {:induction false} SubsetSize<T>(a: set<T>, b: set<T>)
    requires a <= b
    ensures |a| <= |b|
    decreases a
  {
    if a == {} {
    } else {
      var x :| x in a;
      SubsetSize(a - {x}, b - {x});
    }
  }
}
