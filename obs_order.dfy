/**
 * Ordering observations by identifier, as the calculation does before it
 * picks the "current" and "previous" viral loads.  The source hands the list
 * to the Java collections library with a comparator on observation ids; that
 * library sort is stable, so observations with equal ids keep their order.
 * SortById is that sort written as an insertion sort, and the lemmas below
 * show it is sorted, a permutation, stable, and the only sequence with all
 * three properties.
 */
module ObsOrder {
  import opened Clinical

  /** Ids never decrease from left to right. */
  predicate SortedById(s: seq<Obs>) {
    forall i, j :: 0 <= i < j < |s| ==> s[i].id <= s[j].id
  }

  /** The observations of s whose id is k, in the order s has them. */
  function WithId(s: seq<Obs>, k: int): seq<Obs> {
    if s == [] then []
    else (if s[0].id == k then [s[0]] else []) + WithId(s[1..], k)
  }

  /**
   * Inserts o into s after every element whose id is at most o's, scanning
   * from the right; an element with the same id as o stays in front of it.
   */
  function Insert(s: seq<Obs>, o: Obs): (r: seq<Obs>)
    ensures |r| == |s| + 1
  {
    if s == [] || s[|s| - 1].id <= o.id then s + [o]
    else Insert(s[..|s| - 1], o) + [s[|s| - 1]]
  }

  /** Stable ascending sort by id (insertion sort over the prefix). */
  function SortById(s: seq<Obs>): (r: seq<Obs>)
    ensures |r| == |s|
  {
    if s == [] then []
    else Insert(SortById(s[..|s| - 1]), s[|s| - 1])
  }

  // ---------------------------------------------------------------------
  // WithId distributes over concatenation.

  lemma {:induction false} WithIdAppend(a: seq<Obs>, b: seq<Obs>, k: int)
    ensures WithId(a + b, k) == WithId(a, k) + WithId(b, k)
  {
    if a != [] {
      assert (a + b)[0] == a[0];
      assert (a + b)[1..] == a[1..] + b;
      WithIdAppend(a[1..], b, k);
    } else {
      assert a + b == b;
    }
  }

  /** Appending one observation adds it to the run of its own id only. */
  lemma WithIdSnoc(s: seq<Obs>, x: Obs, k: int)
    ensures WithId(s + [x], k) == WithId(s, k) + (if x.id == k then [x] else [])
  {
    WithIdAppend(s, [x], k);
  }

  /** Every element of WithId(s, k) is an element of s with id k. */
  lemma {:induction false} WithIdMembers(s: seq<Obs>, k: int, x: Obs)
    ensures x in WithId(s, k) <==> x in s && x.id == k
  {
    if s != [] {
      WithIdMembers(s[1..], k, x);
      assert s == [s[0]] + s[1..];
    }
  }

  // ---------------------------------------------------------------------
  // Insert

  lemma {:induction false} InsertPermutes(s: seq<Obs>, o: Obs)
    ensures multiset(Insert(s, o)) == multiset(s) + multiset{o}
  {
    if s != [] && s[|s| - 1].id > o.id {
      InsertPermutes(s[..|s| - 1], o);
      assert s == s[..|s| - 1] + [s[|s| - 1]];
    }
  }

  lemma {:induction false} InsertKeepsSorted(s: seq<Obs>, o: Obs)
    requires SortedById(s)
    ensures SortedById(Insert(s, o))
  {
    if s != [] && s[|s| - 1].id > o.id {
      var init, last := s[..|s| - 1], s[|s| - 1];
      InsertKeepsSorted(init, o);
      InsertPermutes(init, o);
      var r := Insert(init, o);
      forall i | 0 <= i < |r|
        ensures r[i].id <= last.id
      {
        assert r[i] in multiset(r);
        assert r[i] in multiset(init) || r[i] == o;
        if r[i] != o {
          var j :| 0 <= j < |init| && init[j] == r[i];
        }
      }
    }
  }

  lemma {:induction false} InsertStable(s: seq<Obs>, o: Obs, k: int)
    ensures WithId(Insert(s, o), k) == WithId(s, k) + (if o.id == k then [o] else [])
  {
    if s == [] || s[|s| - 1].id <= o.id {
      WithIdSnoc(s, o, k);
    } else {
      var init, last := s[..|s| - 1], s[|s| - 1];
      InsertStable(init, o, k);
      WithIdSnoc(Insert(init, o), last, k);
      assert s == init + [last];
      WithIdSnoc(init, last, k);
    }
  }

  // ---------------------------------------------------------------------
  // SortById

  lemma {:induction false} SortPermutes(s: seq<Obs>)
    ensures multiset(SortById(s)) == multiset(s)
  {
    if s != [] {
      SortPermutes(s[..|s| - 1]);
      InsertPermutes(SortById(s[..|s| - 1]), s[|s| - 1]);
      assert s == s[..|s| - 1] + [s[|s| - 1]];
    }
  }

  lemma {:induction false} SortIsSorted(s: seq<Obs>)
    ensures SortedById(SortById(s))
  {
    if s != [] {
      SortIsSorted(s[..|s| - 1]);
      InsertKeepsSorted(SortById(s[..|s| - 1]), s[|s| - 1]);
    }
  }

  lemma {:induction false} SortIsStable(s: seq<Obs>, k: int)
    ensures WithId(SortById(s), k) == WithId(s, k)
  {
    if s != [] {
      var init, last := s[..|s| - 1], s[|s| - 1];
      SortIsStable(init, k);
      InsertStable(SortById(init), last, k);
      assert s == init + [last];
      WithIdSnoc(init, last, k);
    }
  }

  // ---------------------------------------------------------------------
  // Uniqueness: a sorted sequence is determined by its runs of equal ids.

  /** The last element of a non-empty sorted sequence has the largest id. */
  lemma SortedLastIsMax(t: seq<Obs>, x: Obs)
    requires SortedById(t) && x in t
    ensures x.id <= t[|t| - 1].id
  {
  }

  /**
   * In a sorted sequence of two or more, the last element has the largest
   * id and the one before it the largest id among the others.
   */
  lemma SortedTopTwo(s: seq<Obs>)
    requires SortedById(s) && |s| > 1
    ensures forall o :: o in s ==> o.id <= s[|s| - 1].id
    ensures forall o :: o in s[..|s| - 1] ==> o.id <= s[|s| - 2].id
  {
  }

  /** The top two of the sort by id, stated on the sorted sequence alone. */
  lemma SortTopTwo(w: seq<Obs>)
    requires |w| > 1
    ensures var s := SortById(w);
            && (forall o :: o in s ==> o.id <= s[|s| - 1].id)
            && (forall o :: o in s[..|s| - 1] ==> o.id <= s[|s| - 2].id)
  {
    SortIsSorted(w);
    SortedTopTwo(SortById(w));
  }

  /** Two sorted sequences with the same runs end in ids that agree. */
  lemma SameRunsSameLastId(t: seq<Obs>, u: seq<Obs>)
    requires SortedById(t) && SortedById(u) && t != [] && u != []
    requires forall k :: WithId(t, k) == WithId(u, k)
    ensures t[|t| - 1].id == u[|u| - 1].id
  {
    var tl, ul := t[|t| - 1], u[|u| - 1];
    WithIdMembers(t, tl.id, tl);
    WithIdMembers(u, tl.id, tl);
    SortedLastIsMax(u, tl);
    WithIdMembers(u, ul.id, ul);
    WithIdMembers(t, ul.id, ul);
    SortedLastIsMax(t, ul);
  }

  /** A sequence with no runs at all is empty. */
  lemma NoRunsEmpty(t: seq<Obs>)
    requires forall k :: WithId(t, k) == []
    ensures t == []
  {
    assert t != [] ==> WithId(t, t[0].id) == [t[0]] + WithId(t[1..], t[0].id);
  }

  /** Dropping the same last element from both keeps the runs equal. */
  lemma SameRunsInit(ti: seq<Obs>, ui: seq<Obs>, x: Obs)
    requires forall k :: WithId(ti + [x], k) == WithId(ui + [x], k)
    ensures forall k :: WithId(ti, k) == WithId(ui, k)
  {
    forall k
      ensures WithId(ti, k) == WithId(ui, k)
    {
      WithIdSnoc(ti, x, k);
      WithIdSnoc(ui, x, k);
      var a, b, tail := WithId(ti, k), WithId(ui, k), if x.id == k then [x] else [];
      assert a + tail == b + tail;
      assert a == (a + tail)[..|a|];
      assert b == (b + tail)[..|b|];
    }
  }

  /** The run of the last element's id ends with that element. */
  lemma LastEndsItsRun(t: seq<Obs>)
    requires t != []
    ensures var run := WithId(t, t[|t| - 1].id); |run| > 0 && run[|run| - 1] == t[|t| - 1]
  {
    var x := t[|t| - 1];
    assert t == t[..|t| - 1] + [x];
    WithIdSnoc(t[..|t| - 1], x, x.id);
  }

  /** Two sequences with the same runs whose last ids agree end in the same element. */
  lemma SameRunsSameLast(t: seq<Obs>, u: seq<Obs>)
    requires t != [] && u != [] && t[|t| - 1].id == u[|u| - 1].id
    requires WithId(t, t[|t| - 1].id) == WithId(u, u[|u| - 1].id)
    ensures t[|t| - 1] == u[|u| - 1]
  {
    LastEndsItsRun(t);
    LastEndsItsRun(u);
  }

  lemma {:induction false} SameRunsSameSorted(t: seq<Obs>, u: seq<Obs>)
    requires SortedById(t) && SortedById(u)
    requires forall k :: WithId(t, k) == WithId(u, k)
    ensures t == u
    decreases |t|
  {
    if t == [] {
      NoRunsEmpty(u);
    } else if u == [] {
      NoRunsEmpty(t);
    } else {
      SameRunsSameLastId(t, u);
      assert WithId(t, t[|t| - 1].id) == WithId(u, u[|u| - 1].id);
      SameRunsSameLast(t, u);
      var x := t[|t| - 1];
      var ti, ui := t[..|t| - 1], u[..|u| - 1];
      assert t == ti + [x] && u == ui + [x];
      SameRunsInit(ti, ui, x);
      SameRunsSameSorted(ti, ui);
    }
  }

  /**
   * Any arrangement of s that is sorted by id and keeps observations with
   * equal ids in their original order is SortById(s): the stable sort is
   * unique, so the model picks the same "current" and "previous" as the
   * library sort.
   */
  lemma StableSortIsUnique(s: seq<Obs>, t: seq<Obs>)
    requires SortedById(t)
    requires forall k :: WithId(t, k) == WithId(s, k)
    ensures t == SortById(s)
  {
    SortIsSorted(s);
    forall k
      ensures WithId(t, k) == WithId(SortById(s), k)
    {
      SortIsStable(s, k);
    }
    SameRunsSameSorted(t, SortById(s));
  }
}
