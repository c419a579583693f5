/** The pandas table operations the system applies to fetched ERP rows,
    on tables modelled as sequences of records: `merge` on one key column
    (left and inner), `drop_duplicates(subset=..., keep='first')` and
    `Series.unique()`.

    Keys are `Option<string>` and are compared as values, so a null key
    matches a null key. That is what pandas' `merge` does (unlike SQL) and
    what `drop_duplicates` does with NaN keys. */
module Tables {
  import opened Wrappers

  /** No row of `right` has key `k`. */
  ghost predicate NoMatch<R>(k: Option<string>, right: seq<R>, rkey: R -> Option<string>)
  {
    forall r :: r in right ==> rkey(r) != k
  }

  /** The rows of `right` whose key is `k`, in table order. */
  function Matching<R(!new)>(k: Option<string>, right: seq<R>, rkey: R -> Option<string>): (m: seq<R>)
    ensures forall x :: x in m <==> x in right && rkey(x) == k
    ensures m == [] <==> NoMatch(k, right, rkey)
    ensures |m| <= |right|
  {
    if right == [] then []
    else (if rkey(right[0]) == k then [right[0]] else []) + Matching(k, right[1..], rkey)
  }

  /** One output row per matching right row, in the right table's order. */
  function Pairs<L, R(!new), O(!new)>(l: L, m: seq<R>, both: (L, R) -> O): (r: seq<O>)
    ensures |r| == |m|
    ensures forall i :: 0 <= i < |m| ==> r[i] == both(l, m[i])
    ensures forall o :: o in r <==> exists x :: x in m && o == both(l, x)
  {
    if m == [] then [] else [both(l, m[0])] + Pairs(l, m[1..], both)
  }

  /** How output row `o` of a left merge arises from left row `l`: from `l`
      and a right row with the same key, or from `l` alone when no right row
      has its key. */
  ghost predicate JoinedFrom<L, R(!new), O>(o: O, l: L, right: seq<R>, lkey: L -> Option<string>,
                                      rkey: R -> Option<string>, both: (L, R) -> O, alone: L -> O)
  {
    || (exists r :: r in right && rkey(r) == lkey(l) && o == both(l, r))
    || (NoMatch(lkey(l), right, rkey) && o == alone(l))
  }

  /** `pd.merge(left, right, on=key, how='left')`: for each left row in
      order, one row per matching right row, or one row built from the left
      row alone when nothing matches. A right merge is a left merge with the
      tables swapped. */
  function LeftJoin<L(!new), R(!new), O(!new)>(left: seq<L>, right: seq<R>, lkey: L -> Option<string>, rkey: R -> Option<string>,
                             both: (L, R) -> O, alone: L -> O): (out: seq<O>)
    ensures |out| >= |left|
    ensures forall l, r :: l in left && r in right && rkey(r) == lkey(l) ==> both(l, r) in out
    ensures forall l :: l in left && NoMatch(lkey(l), right, rkey) ==> alone(l) in out
    ensures forall o :: o in out ==> exists l :: l in left && JoinedFrom(o, l, right, lkey, rkey, both, alone)
  {
    if left == [] then []
    else
      var l := left[0];
      var m := Matching(lkey(l), right, rkey);
      var head := if m == [] then [alone(l)] else Pairs(l, m, both);
      var rest := LeftJoin(left[1..], right, lkey, rkey, both, alone);
      assert forall o :: o in head ==> JoinedFrom(o, l, right, lkey, rkey, both, alone);
      assert forall x :: x in left[1..] ==> x in left;
      head + rest
  }

  /** `pd.merge(left, right, on=key, how='inner')`: one row per pair of rows
      with equal keys, left rows in order, and for each the matching right
      rows in order. */
  function InnerJoin<L(!new), R(!new), O(!new)>(left: seq<L>, right: seq<R>, lkey: L -> Option<string>, rkey: R -> Option<string>,
                              both: (L, R) -> O): (out: seq<O>)
    ensures forall l, r :: l in left && r in right && rkey(r) == lkey(l) ==> both(l, r) in out
    ensures forall o :: o in out ==> exists l, r :: l in left && r in right && rkey(r) == lkey(l) && o == both(l, r)
  {
    if left == [] then []
    else
      var rest := InnerJoin(left[1..], right, lkey, rkey, both);
      assert forall x :: x in left[1..] ==> x in left;
      Pairs(left[0], Matching(lkey(left[0]), right, rkey), both) + rest
  }

  /** The matches in two tables one after the other are those in the
      first followed by those in the second. */
  lemma {:induction false} MatchingAppend<R(!new)>(k: Option<string>, a: seq<R>, b: seq<R>, rkey: R -> Option<string>)
    ensures Matching(k, a + b, rkey) == Matching(k, a, rkey) + Matching(k, b, rkey)
  {
    if a == [] {
      assert a + b == b;
    } else {
      var h := if rkey(a[0]) == k then [a[0]] else [];
      var t := a[1..];
      assert (a + b)[0] == a[0] && (a + b)[1..] == t + b;
      MatchingAppend(k, t, b, rkey);
      ConcatAssoc(h, Matching(k, t, rkey), Matching(k, b, rkey));
    }
  }

  /** The rows one left row contributes to a left merge: one per matching
      right row, in the right table's order, or the row alone. */
  lemma LeftJoinOne<L(!new), R(!new), O(!new)>(l: L, right: seq<R>, lkey: L -> Option<string>, rkey: R -> Option<string>,
                                               both: (L, R) -> O, alone: L -> O)
    ensures var m := Matching(lkey(l), right, rkey);
            LeftJoin([l], right, lkey, rkey, both, alone) == if m == [] then [alone(l)] else Pairs(l, m, both)
  {
    assert [l][1..] == [];
  }

  /** A left merge keeps the left table's order: merging two tables one
      after the other gives the rows of the first, then those of the second. */
  lemma {:induction false} LeftJoinAppend<L(!new), R(!new), O(!new)>(a: seq<L>, b: seq<L>, right: seq<R>,
                                    lkey: L -> Option<string>, rkey: R -> Option<string>,
                                    both: (L, R) -> O, alone: L -> O)
    ensures LeftJoin(a + b, right, lkey, rkey, both, alone)
            == LeftJoin(a, right, lkey, rkey, both, alone) + LeftJoin(b, right, lkey, rkey, both, alone)
  {
    if a == [] {
      assert a + b == b;
    } else {
      var l := a[0];
      var m := Matching(lkey(l), right, rkey);
      var head := if m == [] then [alone(l)] else Pairs(l, m, both);
      assert (a + b)[0] == l && (a + b)[1..] == a[1..] + b;
      LeftJoinAppend(a[1..], b, right, lkey, rkey, both, alone);
      ConcatAssoc(head, LeftJoin(a[1..], right, lkey, rkey, both, alone), LeftJoin(b, right, lkey, rkey, both, alone));
    }
  }

  /** An inner merge keeps the left table's order in the same way. */
  lemma {:induction false} InnerJoinAppend<L(!new), R(!new), O(!new)>(a: seq<L>, b: seq<L>, right: seq<R>,
                                     lkey: L -> Option<string>, rkey: R -> Option<string>, both: (L, R) -> O)
    ensures InnerJoin(a + b, right, lkey, rkey, both)
            == InnerJoin(a, right, lkey, rkey, both) + InnerJoin(b, right, lkey, rkey, both)
  {
    if a == [] {
      assert a + b == b;
    } else {
      var head := Pairs(a[0], Matching(lkey(a[0]), right, rkey), both);
      assert (a + b)[0] == a[0] && (a + b)[1..] == a[1..] + b;
      InnerJoinAppend(a[1..], b, right, lkey, rkey, both);
      ConcatAssoc(head, InnerJoin(a[1..], right, lkey, rkey, both), InnerJoin(b, right, lkey, rkey, both));
    }
  }

  /** The rows one left row contributes to an inner merge. */
  lemma InnerJoinOne<L(!new), R(!new), O(!new)>(l: L, right: seq<R>, lkey: L -> Option<string>, rkey: R -> Option<string>,
                                                both: (L, R) -> O)
    ensures InnerJoin([l], right, lkey, rkey, both) == Pairs(l, Matching(lkey(l), right, rkey), both)
  {
    assert [l][1..] == [];
  }

  lemma ConcatAssoc<T>(x: seq<T>, y: seq<T>, z: seq<T>)
    ensures x + (y + z) == (x + y) + z
  {
  }

  /** A position at which a row known to be in `s` sits. */
  lemma PositionOf<T>(s: seq<T>, x: T) returns (k: nat)
    requires x in s
    ensures k < |s| && s[k] == x
  {
    k :| 0 <= k < |s| && s[k] == x;
  }

  /** Whether some row of `s` has key `k`. */
  predicate HasKey<T>(s: seq<T>, key: T -> Option<string>, k: Option<string>)
  {
    exists i :: 0 <= i < |s| && key(s[i]) == k
  }

  /** Row `n` of `s` is the first row with its key. */
  ghost predicate FirstOfKey<T>(s: seq<T>, key: T -> Option<string>, n: int)
    requires 0 <= n < |s|
  {
    !HasKey(s[..n], key, key(s[n]))
  }

  /** `y` is a row of `s` that is the first row with its key. */
  ghost predicate IsFirstOfKey<T>(s: seq<T>, key: T -> Option<string>, y: T)
  {
    exists n :: 0 <= n < |s| && s[n] == y && FirstOfKey(s, key, n)
  }

  /** `drop_duplicates(subset=key, keep='first')`: keeps, in order, each row
      whose key no earlier row has. */
  function DropDuplicates<T(!new)>(s: seq<T>, key: T -> Option<string>): (r: seq<T>)
    ensures forall x :: x in r ==> x in s
    ensures forall k :: HasKey(s, key, k) <==> HasKey(r, key, k)
    ensures forall i, j :: 0 <= i < j < |r| ==> key(r[i]) != key(r[j])
    ensures forall i :: 0 <= i < |r| ==> IsFirstOfKey(s, key, r[i])
  {
    if s == [] then []
    else
      var init, last := s[..|s| - 1], s[|s| - 1];
      var d := DropDuplicates(init, key);
      assert s == init + [last];
      HasKeySnoc(init, last, key);
      if HasKey(init, key, key(last)) then
        FirstOfKeyExtends(init, last, key, d);
        d
      else
        HasKeySnoc(d, last, key);
        DistinctSnoc(d, last, key);
        FirstSnoc(init, last, key, d);
        d + [last]
  }

  /** `drop_duplicates` keeps the rows in order: a row appended to a table
      is appended to its deduplication exactly when no earlier row has its
      key. */
  lemma DropDuplicatesSnoc<T(!new)>(s: seq<T>, x: T, key: T -> Option<string>)
    ensures DropDuplicates(s + [x], key)
            == DropDuplicates(s, key) + (if HasKey(s, key, key(x)) then [] else [x])
  {
    assert (s + [x])[..|s + [x]| - 1] == s;
  }

  lemma HasKeySnoc<T>(s: seq<T>, x: T, key: T -> Option<string>)
    ensures forall k :: HasKey(s + [x], key, k) <==> HasKey(s, key, k) || key(x) == k
  {
    forall k ensures HasKey(s + [x], key, k) <==> HasKey(s, key, k) || key(x) == k {
      if HasKey(s + [x], key, k) {
        var i :| 0 <= i < |s| + 1 && key((s + [x])[i]) == k;
        if i < |s| { assert key(s[i]) == k; }
      }
      if HasKey(s, key, k) {
        var i :| 0 <= i < |s| && key(s[i]) == k;
        assert key((s + [x])[i]) == k;
      }
      if key(x) == k {
        assert key((s + [x])[|s|]) == k;
      }
    }
  }

  lemma DistinctSnoc<T>(d: seq<T>, x: T, key: T -> Option<string>)
    requires forall i, j :: 0 <= i < j < |d| ==> key(d[i]) != key(d[j])
    requires !HasKey(d, key, key(x))
    ensures forall i, j :: 0 <= i < j < |d + [x]| ==> key((d + [x])[i]) != key((d + [x])[j])
  {
  }

  /** Appending a row keeps every first-of-its-key row first. */
  lemma FirstOfKeyExtends<T>(init: seq<T>, x: T, key: T -> Option<string>, d: seq<T>)
    requires forall i :: 0 <= i < |d| ==> IsFirstOfKey(init, key, d[i])
    ensures forall i :: 0 <= i < |d| ==> IsFirstOfKey(init + [x], key, d[i])
  {
    var s := init + [x];
    forall i | 0 <= i < |d| ensures IsFirstOfKey(s, key, d[i]) {
      var n :| 0 <= n < |init| && init[n] == d[i] && FirstOfKey(init, key, n);
      assert s[n] == init[n];
      assert s[..n] == init[..n];
      assert FirstOfKey(s, key, n);
    }
  }

  lemma FirstSnoc<T>(init: seq<T>, x: T, key: T -> Option<string>, d: seq<T>)
    requires forall i :: 0 <= i < |d| ==> IsFirstOfKey(init, key, d[i])
    requires !HasKey(init, key, key(x))
    ensures forall i :: 0 <= i < |d + [x]| ==> IsFirstOfKey(init + [x], key, (d + [x])[i])
  {
    var s, r := init + [x], d + [x];
    FirstOfKeyExtends(init, x, key, d);
    forall i | 0 <= i < |r| ensures IsFirstOfKey(s, key, r[i]) {
      if i < |d| {
        assert r[i] == d[i];
      } else {
        assert s[..|init|] == init;
        assert FirstOfKey(s, key, |init|);
      }
    }
  }

  /** `Series.unique()`: the distinct values, in order of first appearance. */
  function Unique<T(==,!new)>(s: seq<T>): (r: seq<T>)
    ensures forall x :: x in r <==> x in s
    ensures forall i, j :: 0 <= i < j < |r| ==> r[i] != r[j]
  {
    if s == [] then []
    else
      var u := Unique(s[..|s| - 1]);
      assert s == s[..|s| - 1] + [s[|s| - 1]];
      if s[|s| - 1] in u then u else u + [s[|s| - 1]]
  }
}
