/**
 * The date-sorted view every availability timeline of the source is read through:
 * Python's `sorted()` over records that compare by their date only (a stable sort by a key),
 * and the comprehensions `[r.date for r in sorted(records) if keep(r)]` built on it.
 */
module Timeline {

  /** Non-decreasing by `key`. */
  predicate SortedBy<T>(s: seq<T>, key: T -> int) {
    forall i, j :: 0 <= i < j < |s| ==> key(s[i]) <= key(s[j])
  }

  /** Non-decreasing integers. */
  predicate Ascending(s: seq<int>) {
    forall i, j :: 0 <= i < j < |s| ==> s[i] <= s[j]
  }

  /** `a` is `b` with some elements dropped (order kept). */
  predicate IsSubsequence<T(==)>(a: seq<T>, b: seq<T>)
    decreases |b|
  {
    if a == [] then true
    else if b == [] then false
    else if a[0] == b[0] then IsSubsequence(a[1..], b[1..])
    else IsSubsequence(a, b[1..])
  }

  // ---------------------------------------------------------------------------
  // sorted(): a stable insertion sort on the key
  // ---------------------------------------------------------------------------

  /** Puts `x` in front of the first element whose key is not smaller. */
  function Insert<T>(x: T, s: seq<T>, key: T -> int): (r: seq<T>)
    ensures |r| == |s| + 1
    decreases |s|
  {
    if s == [] || key(x) <= key(s[0]) then [x] + s
    else [s[0]] + Insert(x, s[1..], key)
  }

  /** Python's `sorted(s)` for records ordered by `key` alone. */
  function SortBy<T>(s: seq<T>, key: T -> int): (r: seq<T>)
    ensures |r| == |s|
    decreases |s|
  {
    if s == [] then [] else Insert(s[0], SortBy(s[1..], key), key)
  }

  /** The elements of `s` with key `k`, in order. */
  function WithKey<T>(s: seq<T>, key: T -> int, k: int): seq<T>
    decreases |s|
  {
    if s == [] then []
    else (if key(s[0]) == k then [s[0]] else []) + WithKey(s[1..], key, k)
  }

  lemma {:induction false} InsertSorted<T>(x: T, s: seq<T>, key: T -> int)
    requires SortedBy(s, key)
    ensures SortedBy(Insert(x, s, key), key)
    ensures forall i :: 0 <= i < |s| + 1 ==>
      key(Insert(x, s, key)[i]) == key(x) || (exists j :: 0 <= j < |s| && key(Insert(x, s, key)[i]) == key(s[j]))
    decreases |s|
  {
    if s != [] && key(x) > key(s[0]) {
      InsertSorted(x, s[1..], key);
      var r := Insert(x, s, key);
      forall i | 0 <= i < |s| + 1
        ensures key(r[i]) == key(x) || (exists j :: 0 <= j < |s| && key(r[i]) == key(s[j]))
      {
        if i == 0 {
          assert key(r[i]) == key(s[0]);
        } else {
          var rest := Insert(x, s[1..], key);
          assert r[i] == rest[i - 1];
          if key(rest[i - 1]) != key(x) {
            var j :| 0 <= j < |s| - 1 && key(rest[i - 1]) == key(s[1..][j]);
            assert key(r[i]) == key(s[j + 1]);
          }
        }
      }
      forall i, j | 0 <= i < j < |r| ensures key(r[i]) <= key(r[j]) {
        if i == 0 {
          var rest := Insert(x, s[1..], key);
          assert r[j] == rest[j - 1];
          if key(rest[j - 1]) != key(x) {
            var m :| 0 <= m < |s| - 1 && key(rest[j - 1]) == key(s[1..][m]);
            assert key(s[0]) <= key(s[m + 1]);
          }
        }
      }
    }
  }

  /** The sorted view is non-decreasing by date. */
  lemma {:induction false} SortBySorted<T>(s: seq<T>, key: T -> int)
    ensures SortedBy(SortBy(s, key), key)
    decreases |s|
  {
    if s != [] {
      SortBySorted(s[1..], key);
      InsertSorted(s[0], SortBy(s[1..], key), key);
    }
  }

  lemma {:induction false} InsertPermutation<T>(x: T, s: seq<T>, key: T -> int)
    ensures multiset(Insert(x, s, key)) == multiset(s) + multiset{x}
    decreases |s|
  {
    if s != [] && key(x) > key(s[0]) {
      InsertPermutation(x, s[1..], key);
      assert s == [s[0]] + s[1..];
    }
  }

  /** The sorted view holds exactly the appended records. */
  lemma {:induction false} SortByPermutation<T>(s: seq<T>, key: T -> int)
    ensures multiset(SortBy(s, key)) == multiset(s)
    decreases |s|
  {
    if s != [] {
      SortByPermutation(s[1..], key);
      InsertPermutation(s[0], SortBy(s[1..], key), key);
      assert s == [s[0]] + s[1..];
    }
  }

  lemma WithKeyCons<T>(y: T, t: seq<T>, key: T -> int, k: int)
    ensures WithKey([y] + t, key, k) == (if key(y) == k then [y] else []) + WithKey(t, key, k)
  {
    assert ([y] + t)[0] == y && ([y] + t)[1..] == t;
  }

  lemma {:induction false} InsertWithKey<T>(x: T, s: seq<T>, key: T -> int, k: int)
    ensures WithKey(Insert(x, s, key), key, k) == (if key(x) == k then [x] else []) + WithKey(s, key, k)
    decreases |s|
  {
    if s == [] || key(x) <= key(s[0]) {
      WithKeyCons(x, s, key, k);
    } else {
      var hx := if key(x) == k then [x] else [];
      var hs := if key(s[0]) == k then [s[0]] else [];
      InsertWithKey(x, s[1..], key, k);
      WithKeyCons(s[0], Insert(x, s[1..], key), key, k);
      WithKeyCons(s[0], s[1..], key, k);
      assert s == [s[0]] + s[1..];
      assert hs == [] || hx == [];
    }
  }

  /** Stability: records with equal dates keep their insertion order. */
  lemma {:induction false} SortByStable<T>(s: seq<T>, key: T -> int, k: int)
    ensures WithKey(SortBy(s, key), key, k) == WithKey(s, key, k)
    decreases |s|
  {
    if s != [] {
      SortByStable(s[1..], key, k);
      InsertWithKey(s[0], SortBy(s[1..], key), key, k);
    }
  }

  // ---------------------------------------------------------------------------
  // [key(r) for r in s if keep(r)]
  // ---------------------------------------------------------------------------

  function Select<T>(s: seq<T>, keep: T -> bool): (r: seq<T>)
    ensures |r| <= |s|
    decreases |s|
  {
    if s == [] then [] else (if keep(s[0]) then [s[0]] else []) + Select(s[1..], keep)
  }

  function Keys<T>(s: seq<T>, key: T -> int): (r: seq<int>)
    ensures |r| == |s|
    ensures forall i :: 0 <= i < |s| ==> r[i] == key(s[i])
  {
    seq(|s|, i requires 0 <= i < |s| => key(s[i]))
  }

  /** The date list of a timeline: `[key(r) for r in sorted(s) if keep(r)]`. */
  function DatesWhere<T>(s: seq<T>, key: T -> int, keep: T -> bool): seq<int> {
    Keys(Select(SortBy(s, key), keep), key)
  }

  lemma {:induction false} SelectConcat<T>(a: seq<T>, b: seq<T>, keep: T -> bool)
    ensures Select(a + b, keep) == Select(a, keep) + Select(b, keep)
    decreases |a|
  {
    if a == [] {
      assert a + b == b;
    } else {
      var head := if keep(a[0]) then [a[0]] else [];
      assert (a + b)[0] == a[0] && (a + b)[1..] == a[1..] + b;
      assert Select(a + b, keep) == head + Select(a[1..] + b, keep);
      SelectConcat(a[1..], b, keep);
      assert Select(a, keep) == head + Select(a[1..], keep);
    }
  }

  lemma {:induction false} SelectMembers<T>(s: seq<T>, keep: T -> bool)
    ensures forall x :: x in Select(s, keep) ==> x in s && keep(x)
    ensures forall x :: x in s && keep(x) ==> x in Select(s, keep)
    decreases |s|
  {
    if s != [] {
      SelectMembers(s[1..], keep);
      assert s == [s[0]] + s[1..];
    }
  }

  /** A filter keeps order: its result is a sub-list. */
  lemma {:induction false} SelectSubsequence<T>(s: seq<T>, keep: T -> bool)
    ensures IsSubsequence(Select(s, keep), s)
    decreases |s|
  {
    if s != [] {
      SelectSubsequence(s[1..], keep);
      var r := Select(s, keep);
      if keep(s[0]) {
        assert r[0] == s[0] && r[1..] == Select(s[1..], keep);
      } else {
        assert r == Select(s[1..], keep);
        SubsequenceDropHead(r, s);
      }
    }
  }

  /** A kept element occurs as often as in the input, a dropped one not at all. */
  lemma {:induction false} SelectCount<T>(s: seq<T>, keep: T -> bool, x: T)
    ensures multiset(Select(s, keep))[x] == if keep(x) then multiset(s)[x] else 0
    decreases |s|
  {
    if s != [] {
      SelectCount(s[1..], keep, x);
      var head := if keep(s[0]) then [s[0]] else [];
      assert multiset(Select(s, keep)) == multiset(head) + multiset(Select(s[1..], keep));
      assert s == [s[0]] + s[1..];
      assert multiset(s) == multiset([s[0]]) + multiset(s[1..]);
    }
  }

  /** A filter every element passes keeps everything. */
  lemma {:induction false} SelectAll<T>(s: seq<T>, keep: T -> bool)
    requires forall i :: 0 <= i < |s| ==> keep(s[i])
    ensures Select(s, keep) == s
    decreases |s|
  {
    if s != [] {
      SelectAll(s[1..], keep);
    }
  }

  /** The first element passing the filter heads its result. */
  lemma {:induction false} SelectFirst<T>(s: seq<T>, keep: T -> bool, i: nat)
    requires i < |s| && keep(s[i])
    requires forall j :: 0 <= j < i ==> !keep(s[j])
    ensures |Select(s, keep)| > 0 && Select(s, keep)[0] == s[i]
    decreases i
  {
    if i > 0 {
      SelectFirst(s[1..], keep, i - 1);
    }
  }

  /** Filtering by a weaker test first and then by a stronger one is filtering by the stronger. */
  lemma {:induction false} SelectSelect<T>(s: seq<T>, weak: T -> bool, strong: T -> bool)
    requires forall x :: strong(x) ==> weak(x)
    ensures Select(Select(s, weak), strong) == Select(s, strong)
    decreases |s|
  {
    if s != [] {
      SelectSelect(s[1..], weak, strong);
      var w := Select(s, weak);
      if weak(s[0]) {
        assert w[0] == s[0] && w[1..] == Select(s[1..], weak);
        assert Select(w, strong) == (if strong(s[0]) then [s[0]] else []) + Select(w[1..], strong);
      } else {
        assert !strong(s[0]) && w == Select(s[1..], weak);
      }
    }
  }

  lemma {:induction false} SelectSorted<T>(s: seq<T>, key: T -> int, keep: T -> bool)
    requires SortedBy(s, key)
    ensures SortedBy(Select(s, keep), key)
    decreases |s|
  {
    if s != [] {
      SelectSorted(s[1..], key, keep);
      SelectMembers(s[1..], keep);
      var r := Select(s, keep);
      if keep(s[0]) {
        forall j | 0 < j < |r| ensures key(r[0]) <= key(r[j]) {
          assert r[j] == Select(s[1..], keep)[j - 1];
          assert r[j] in Select(s[1..], keep);
          assert r[j] in s[1..];
          var m :| 0 <= m < |s[1..]| && s[1..][m] == r[j];
          assert s[m + 1] == r[j];
        }
      }
    }
  }

  /** A timeline's date list is ascending. */
  lemma DatesWhereAscending<T>(s: seq<T>, key: T -> int, keep: T -> bool)
    ensures Ascending(DatesWhere(s, key, keep))
  {
    SortBySorted(s, key);
    SelectSorted(SortBy(s, key), key, keep);
  }

  /** A date is listed iff some record with that date passes the filter. */
  lemma DatesWhereMembers<T>(s: seq<T>, key: T -> int, keep: T -> bool, d: int)
    ensures d in DatesWhere(s, key, keep) <==> exists r :: r in s && keep(r) && key(r) == d
  {
    var sorted := SortBy(s, key);
    SortByPermutation(s, key);
    SelectMembers(sorted, keep);
    var sel := Select(sorted, keep);
    if d in DatesWhere(s, key, keep) {
      var i :| 0 <= i < |sel| && key(sel[i]) == d;
      assert sel[i] in sel;
      assert sel[i] in sorted;
      assert sel[i] in multiset(sorted);
      assert sel[i] in multiset(s);
    }
    if exists r :: r in s && keep(r) && key(r) == d {
      var r :| r in s && keep(r) && key(r) == d;
      assert r in multiset(sorted);
      assert r in sel;
      var i :| 0 <= i < |sel| && sel[i] == r;
      assert DatesWhere(s, key, keep)[i] == d;
    }
  }

  function SelectedKeys<T>(s: seq<T>, key: T -> int, keep: T -> bool): multiset<int> {
    multiset(Keys(Select(s, keep), key))
  }

  lemma SelectedKeysConcat<T>(a: seq<T>, b: seq<T>, key: T -> int, keep: T -> bool)
    ensures SelectedKeys(a + b, key, keep) == SelectedKeys(a, key, keep) + SelectedKeys(b, key, keep)
  {
    SelectConcat(a, b, keep);
    assert Keys(Select(a, keep) + Select(b, keep), key) == Keys(Select(a, keep), key) + Keys(Select(b, keep), key);
  }

  /** The multiset of selected dates depends only on the multiset of records. */
  lemma {:induction false} SelectedKeysPermutation<T>(a: seq<T>, b: seq<T>, key: T -> int, keep: T -> bool)
    requires multiset(a) == multiset(b)
    ensures SelectedKeys(a, key, keep) == SelectedKeys(b, key, keep)
    decreases |a|
  {
    assert |a| == |multiset(a)| == |multiset(b)| == |b|;
    if a != [] {
      var x := a[0];
      assert x in multiset(b);
      var j :| 0 <= j < |b| && b[j] == x;
      var rest := b[..j] + b[j + 1..];
      assert b == b[..j] + [x] + b[j + 1..];
      assert a == [x] + a[1..];
      assert multiset(b) == multiset(b[..j]) + multiset{x} + multiset(b[j + 1..]);
      assert multiset(rest) == multiset(b[..j]) + multiset(b[j + 1..]);
      assert multiset(a) == multiset{x} + multiset(a[1..]);
      MultisetCancel(x, multiset(a[1..]), multiset(rest));
      SelectedKeysPermutation(a[1..], rest, key, keep);
      SelectedKeysConcat([x], a[1..], key, keep);
      SelectedKeysConcat(b[..j] + [x], b[j + 1..], key, keep);
      SelectedKeysConcat(b[..j], [x], key, keep);
      SelectedKeysConcat(b[..j], b[j + 1..], key, keep);
    }
  }

  lemma MultisetCancel<T>(x: T, p: multiset<T>, q: multiset<T>)
    requires multiset{x} + p == multiset{x} + q
    ensures p == q
  {
    forall o ensures p[o] == q[o] {
      assert (multiset{x} + p)[o] == (multiset{x} + q)[o];
    }
  }

  /** Two ascending lists with the same elements are equal. */
  lemma {:induction false} AscendingUnique(a: seq<int>, b: seq<int>)
    requires Ascending(a) && Ascending(b) && multiset(a) == multiset(b)
    ensures a == b
    decreases |a|
  {
    assert |a| == |multiset(a)| == |multiset(b)| == |b|;
    if a != [] {
      assert a[0] == b[0] by {
        assert a[0] in multiset(b);
        assert a[0] in b;
        assert b[0] in multiset(a);
        assert b[0] in a;
      }
      assert multiset(a[1..]) == multiset(b[1..]) by {
        assert a == [a[0]] + a[1..];
        assert b == [b[0]] + b[1..];
        MultisetCancel(a[0], multiset(a[1..]), multiset(b[1..]));
      }
      assert Ascending(a[1..]) && Ascending(b[1..]) by {
        forall i, j | 0 <= i < j < |a| - 1 ensures a[1..][i] <= a[1..][j] {
          assert a[i + 1] <= a[j + 1];
        }
        forall i, j | 0 <= i < j < |b| - 1 ensures b[1..][i] <= b[1..][j] {
          assert b[i + 1] <= b[j + 1];
        }
      }
      AscendingUnique(a[1..], b[1..]);
      assert a == [a[0]] + a[1..];
      assert b == [b[0]] + b[1..];
    }
  }

  /** A date list does not depend on the order the records were appended in. */
  lemma DatesWhereOrderFree<T>(a: seq<T>, b: seq<T>, key: T -> int, keep: T -> bool)
    requires multiset(a) == multiset(b)
    ensures DatesWhere(a, key, keep) == DatesWhere(b, key, keep)
  {
    SortByPermutation(a, key);
    SortByPermutation(b, key);
    SelectedKeysPermutation(SortBy(a, key), SortBy(b, key), key, keep);
    DatesWhereAscending(a, key, keep);
    DatesWhereAscending(b, key, keep);
    AscendingUnique(DatesWhere(a, key, keep), DatesWhere(b, key, keep));
  }

  /** Each record that passes the filter contributes its date once: duplicates are kept. */
  lemma DatesWhereMultiplicity<T>(s: seq<T>, key: T -> int, keep: T -> bool)
    ensures multiset(DatesWhere(s, key, keep)) == SelectedKeys(s, key, keep)
  {
    SortByPermutation(s, key);
    SelectedKeysPermutation(SortBy(s, key), s, key, keep);
  }

  lemma {:induction false} SelectStronger<T>(s: seq<T>, key: T -> int, strong: T -> bool, weak: T -> bool)
    requires forall x :: strong(x) ==> weak(x)
    ensures IsSubsequence(Keys(Select(s, strong), key), Keys(Select(s, weak), key))
    decreases |s|
  {
    if s != [] {
      SelectStronger(s[1..], key, strong, weak);
      var a := Keys(Select(s, strong), key);
      var b := Keys(Select(s, weak), key);
      if strong(s[0]) {
        assert a[1..] == Keys(Select(s[1..], strong), key);
        assert b[1..] == Keys(Select(s[1..], weak), key);
      } else if weak(s[0]) {
        assert b[1..] == Keys(Select(s[1..], weak), key);
        assert a == Keys(Select(s[1..], strong), key);
        SubsequenceDropHead(a, b);
      } else {
        assert a == Keys(Select(s[1..], strong), key);
        assert b == Keys(Select(s[1..], weak), key);
      }
    }
  }

  lemma {:induction false} SubsequenceCons<T>(x: T, a: seq<T>, b: seq<T>)
    requires IsSubsequence(a, b)
    ensures IsSubsequence(a, [x] + b)
    decreases |b|, 1
  {
    var xb := [x] + b;
    assert xb[1..] == b;
    if a != [] && a[0] == x {
      SubsequenceTail(a, b);
    }
  }

  lemma {:induction false} SubsequenceTail<T>(a: seq<T>, b: seq<T>)
    requires a != [] && IsSubsequence(a, b)
    ensures IsSubsequence(a[1..], b)
    decreases |b|, 0
  {
    if a[0] == b[0] {
      SubsequenceCons(b[0], a[1..], b[1..]);
      assert [b[0]] + b[1..] == b;
    } else {
      SubsequenceTail(a, b[1..]);
      SubsequenceCons(b[0], a[1..], b[1..]);
      assert [b[0]] + b[1..] == b;
    }
  }

  lemma SubsequenceDropHead<T>(a: seq<T>, b: seq<T>)
    requires b != [] && IsSubsequence(a, b[1..])
    ensures IsSubsequence(a, b)
  {
    SubsequenceCons(b[0], a, b[1..]);
    assert [b[0]] + b[1..] == b;
  }

  lemma {:induction false} SubsequenceRefl<T>(a: seq<T>)
    ensures IsSubsequence(a, a)
    decreases |a|
  {
    if a != [] {
      SubsequenceRefl(a[1..]);
    }
  }

  /** Sub-lists of sub-lists are sub-lists. */
  lemma {:induction false} SubsequenceTrans<T>(a: seq<T>, b: seq<T>, c: seq<T>)
    requires IsSubsequence(a, b) && IsSubsequence(b, c)
    ensures IsSubsequence(a, c)
    decreases |c|
  {
    if a != [] {
      if b[0] == c[0] && a[0] == b[0] {
        SubsequenceTrans(a[1..], b[1..], c[1..]);
      } else {
        if b[0] == c[0] {
          SubsequenceTrans(a, b[1..], c[1..]);
        } else {
          SubsequenceTrans(a, b, c[1..]);
        }
        SubsequenceDropHead(a, c);
      }
    }
  }

  /** A stricter filter lists a sub-list of the dates. */
  lemma DatesWhereStronger<T>(s: seq<T>, key: T -> int, strong: T -> bool, weak: T -> bool)
    requires forall x :: strong(x) ==> weak(x)
    ensures IsSubsequence(DatesWhere(s, key, strong), DatesWhere(s, key, weak))
  {
    SelectStronger(SortBy(s, key), key, strong, weak);
  }
}
