/** The newest-first sort of the summary table:
    `conversations_data.sort(key=lambda x: x['create_time'], reverse=True)`.
    Python's sort is stable also when reversed, so summaries with equal
    creation times keep the order in which they were appended. The sort is
    a library call, so it is modelled as a function (an insertion sort) and
    its properties are proved as lemmas. */
module Ordering {
  import opened Timestamps
  import opened Export

  /** Python's `<` on strings: the first differing code point decides, and
      a proper prefix comes first. */
  predicate TextLess(a: string, b: string)
  {
    if a == [] then b != []
    else if b == [] then false
    else if a[0] != b[0] then a[0] < b[0]
    else TextLess(a[1..], b[1..])
  }

  /** Python's `<` on two raw creation times of one kind; the sort never
      compares keys of different kinds (see `Sortable`). */
  predicate KeyLess(a: RawTime, b: RawTime)
  {
    if a.Num? && b.Num? then a.x < b.x
    else if a.Str? && b.Str? then TextLess(a.s, b.s)
    else false
  }

  /** The sort of `s` does not raise: Python can compare every pair of its
      keys (all numbers or all strings), or it has fewer than two entries
      and compares nothing. Any correct comparison sort compares each pair
      of neighbours in its output, so keys of two kinds make it compare a
      number with a string, which raises TypeError. */
  predicate Sortable(s: seq<Summary>)
  {
    || |s| <= 1
    || (forall i :: 0 <= i < |s| ==> s[i].createTime.Num?)
    || (forall i :: 0 <= i < |s| ==> s[i].createTime.Str?)
  }

  lemma {:induction false} TextLessIrreflexive(a: string)
    ensures !TextLess(a, a)
  {
    if a != [] {
      TextLessIrreflexive(a[1..]);
    }
  }

  lemma {:induction false} TextLessTransitive(a: string, b: string, c: string)
    requires TextLess(a, b) && TextLess(b, c)
    ensures TextLess(a, c)
  {
    if a != [] && a[0] == b[0] && b[0] == c[0] {
      TextLessTransitive(a[1..], b[1..], c[1..]);
    }
  }

  lemma {:induction false} TextLessTotal(a: string, b: string)
    requires a != b
    ensures TextLess(a, b) || TextLess(b, a)
  {
    if a != [] && b != [] && a[0] == b[0] {
      assert a == [a[0]] + a[1..] && b == [b[0]] + b[1..];
      TextLessTotal(a[1..], b[1..]);
    }
  }

  /** The key order is a strict total order on keys Python can compare:
      irreflexive, transitive, and any two distinct comparable keys are
      ordered one way or the other. */
  lemma KeyOrder(a: RawTime, b: RawTime, c: RawTime)
    ensures !KeyLess(a, a)
    ensures KeyLess(a, b) && KeyLess(b, c) ==> KeyLess(a, c)
    ensures (a.Num? && b.Num?) || (a.Str? && b.Str?) ==> a == b || KeyLess(a, b) || KeyLess(b, a)
  {
    if a.Str? {
      TextLessIrreflexive(a.s);
      if b.Str? && c.Str? && KeyLess(a, b) && KeyLess(b, c) {
        TextLessTransitive(a.s, b.s, c.s);
      }
      if b.Str? && a != b {
        TextLessTotal(a.s, b.s);
      }
    }
  }

  /** Places `x` into the newest-first list `s`: in front of the first
      entry with a smaller key, so behind every entry whose key is equal. */
  function Insert(s: seq<Summary>, x: Summary): (r: seq<Summary>)
    ensures multiset(r) == multiset(s) + multiset{x}
  {
    if s == [] then [x]
    else if KeyLess(s[0].createTime, x.createTime) then [x] + s
    else
      assert s == [s[0]] + s[1..];
      [s[0]] + Insert(s[1..], x)
  }

  /** The sorted copy of `s`, newest first; entries are placed one at a
      time in the order they were appended. */
  function SortNewestFirst(s: seq<Summary>): (r: seq<Summary>)
    ensures multiset(r) == multiset(s)
  {
    if s == [] then []
    else
      assert s == s[..|s| - 1] + [s[|s| - 1]];
      Insert(SortNewestFirst(s[..|s| - 1]), s[|s| - 1])
  }

  /** No entry has a smaller creation time than an entry after it. */
  ghost predicate NewestFirst(s: seq<Summary>)
  {
    forall i, j :: 0 <= i < j < |s| ==> !KeyLess(s[i].createTime, s[j].createTime)
  }

  /** The entries of `s` whose raw creation time is `k`, in order. */
  function WithKey(s: seq<Summary>, k: JsonTime): seq<Summary>
  {
    if s == [] then []
    else (if s[0].createTime == k then [s[0]] else []) + WithKey(s[1..], k)
  }

  lemma {:induction false} WithKeyConcat(a: seq<Summary>, b: seq<Summary>, k: JsonTime)
    ensures WithKey(a + b, k) == WithKey(a, k) + WithKey(b, k)
  {
    if a != [] {
      assert (a + b)[1..] == a[1..] + b;
      WithKeyConcat(a[1..], b, k);
    } else {
      assert a + b == b;
    }
  }

  lemma {:induction false} WithKeyNone(s: seq<Summary>, k: JsonTime)
    requires forall i :: 0 <= i < |s| ==> s[i].createTime != k
    ensures WithKey(s, k) == []
  {
    if s != [] {
      WithKeyNone(s[1..], k);
    }
  }

  /** Inserting into a newest-first list keeps it newest first. */
  lemma {:induction false} InsertKeepsOrder(s: seq<Summary>, x: Summary)
    requires NewestFirst(s)
    ensures NewestFirst(Insert(s, x))
  {
    if s == [] {
    } else if KeyLess(s[0].createTime, x.createTime) {
      var r := Insert(s, x);
      assert r == [x] + s;
      forall i, j | 0 <= i < j < |r|
        ensures !KeyLess(r[i].createTime, r[j].createTime)
      {
        if i == 0 {
          KeyOrder(s[0].createTime, x.createTime, r[j].createTime);
          KeyOrder(x.createTime, r[j].createTime, r[j].createTime);
        }
      }
    } else {
      var tail := Insert(s[1..], x);
      InsertKeepsOrder(s[1..], x);
      var r := [s[0]] + tail;
      assert r == Insert(s, x);
      forall i, j | 0 <= i < j < |r|
        ensures !KeyLess(r[i].createTime, r[j].createTime)
      {
        if i == 0 {
          var y := r[j];
          assert y == tail[j - 1];
          assert y in multiset(tail);
          if y != x {
            assert y in multiset(s[1..]);
            var m :| 0 <= m < |s[1..]| && s[1..][m] == y;
            assert s[m + 1] == y;
          }
        }
      }
    }
  }

  /** Behind an entry with a smaller key than `t`, a newest-first list
      holds no entry with key `t`. */
  lemma NoEqualBehindSmaller(s: seq<Summary>, t: JsonTime)
    requires NewestFirst(s) && s != [] && KeyLess(s[0].createTime, t)
    ensures forall i :: 0 <= i < |s| ==> s[i].createTime != t
  {
    forall i | 0 <= i < |s|
      ensures s[i].createTime != t
    {
      KeyOrder(s[0].createTime, s[0].createTime, s[0].createTime);
      if i > 0 {
        assert !KeyLess(s[0].createTime, s[i].createTime);
      }
    }
  }

  lemma NewestFirstTail(s: seq<Summary>)
    requires NewestFirst(s) && s != []
    ensures NewestFirst(s[1..])
  {
    forall i, j | 0 <= i < j < |s| - 1
      ensures !KeyLess(s[1..][i].createTime, s[1..][j].createTime)
    {
      assert s[1..][i] == s[i + 1] && s[1..][j] == s[j + 1];
    }
  }

  /** Inserting `x` puts it behind every entry with the same key. */
  lemma {:induction false} InsertIsStable(s: seq<Summary>, x: Summary, k: JsonTime)
    requires NewestFirst(s)
    ensures WithKey(Insert(s, x), k) == WithKey(s, k) + WithKey([x], k)
  {
    if s == [] {
      assert Insert(s, x) == [x];
      assert WithKey(s, k) == [];
    } else if KeyLess(s[0].createTime, x.createTime) {
      InsertInFront(s, x, k);
    } else {
      NewestFirstTail(s);
      InsertIsStable(s[1..], x, k);
      assert Insert(s, x) == [s[0]] + Insert(s[1..], x);
      assert s == [s[0]] + s[1..];
      InsertBehind(s[0], s[1..], Insert(s[1..], x), x, k);
    }
  }

  /** The case where `x` goes in front of `s`. */
  lemma InsertInFront(s: seq<Summary>, x: Summary, k: JsonTime)
    requires NewestFirst(s) && s != [] && KeyLess(s[0].createTime, x.createTime)
    ensures WithKey(Insert(s, x), k) == WithKey(s, k) + WithKey([x], k)
  {
    assert Insert(s, x) == [x] + s;
    WithKeyConcat([x], s, k);
    if x.createTime == k {
      NoEqualBehindSmaller(s, x.createTime);
      WithKeyNone(s, k);
    } else {
      assert WithKey([x], k) == [] + WithKey([], k);
    }
  }

  /** The case where `x` goes behind the head `y`, given the result `rest`
      of inserting it into the tail `t`. */
  lemma InsertBehind(y: Summary, t: seq<Summary>, rest: seq<Summary>, x: Summary, k: JsonTime)
    requires WithKey(rest, k) == WithKey(t, k) + WithKey([x], k)
    ensures WithKey([y] + rest, k) == WithKey([y] + t, k) + WithKey([x], k)
  {
    WithKeyConcat([y], rest, k);
    WithKeyConcat([y], t, k);
  }

  /** The sort puts the summaries newest first. */
  lemma {:induction false} SortIsOrdered(s: seq<Summary>)
    ensures NewestFirst(SortNewestFirst(s))
  {
    if s != [] {
      SortIsOrdered(s[..|s| - 1]);
      InsertKeepsOrder(SortNewestFirst(s[..|s| - 1]), s[|s| - 1]);
    }
  }

  /** The sort is stable: for every creation time, the summaries carrying
      it come out in the order they went in. */
  lemma {:induction false} SortIsStable(s: seq<Summary>, k: JsonTime)
    ensures WithKey(SortNewestFirst(s), k) == WithKey(s, k)
  {
    if s != [] {
      var init := s[..|s| - 1];
      var x := s[|s| - 1];
      SortIsStable(init, k);
      SortIsOrdered(init);
      InsertIsStable(SortNewestFirst(init), x, k);
      assert s == init + [x];
      WithKeyConcat(init, [x], k);
    }
  }
}
