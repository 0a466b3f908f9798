/**
 * The repository records returned by the listing call and the step
 * `sorted(repos, key=itemgetter('created_at'), reverse=True)`: a new list,
 * most recently created first, in which records with equal `created_at`
 * keep the order in which they were fetched.
 */
module Repos {
  import opened StringOrder

  /** A decoded repository record: the two fields the script reads. */
  datatype Repo = Repo(name: string, createdAt: string)

  /** `a` may be listed before `b`: it was created at the same time or later. */
  predicate NewerOrSame(a: Repo, b: Repo)
  {
    LexLe(b.createdAt, a.createdAt)
  }

  /** Non-increasing by `created_at` over every pair of positions. */
  predicate SortedDesc(s: seq<Repo>)
  {
    forall i, j | 0 <= i < j < |s| :: NewerOrSame(s[i], s[j])
  }

  /** The records of `s` whose `created_at` is `key`, in the order of `s`. */
  function WithCreatedAt(s: seq<Repo>, key: string): (r: seq<Repo>)
    ensures |r| <= |s|
    ensures forall i | 0 <= i < |r| :: r[i].createdAt == key
  {
    if s == [] then []
    else
      (if s[0].createdAt == key then [s[0]] else []) + WithCreatedAt(s[1..], key)
  }

  /**
   * Places `x` in front of the first record that is not newer than it.
   * `x` therefore precedes every record of `t` with the same key.
   */
  function Insert(x: Repo, t: seq<Repo>): (r: seq<Repo>)
    ensures |r| == |t| + 1
    ensures multiset(r) == multiset(t) + multiset{x}
  {
    if t == [] then [x]
    else if NewerOrSame(x, t[0]) then [x] + t
    else
      assert t == [t[0]] + t[1..];
      [t[0]] + Insert(x, t[1..])
  }

  /** The sorted list of `repo_sort.py`, built by stable insertion from the back. */
  function SortByCreatedDesc(s: seq<Repo>): (r: seq<Repo>)
    ensures |r| == |s|
    ensures multiset(r) == multiset(s)
  {
    if s == [] then []
    else
      assert s == [s[0]] + s[1..];
      Insert(s[0], SortByCreatedDesc(s[1..]))
  }

  /** What Python promises of `sorted(..., reverse=True)` on these keys. */
  ghost predicate IsStableDescSort(s: seq<Repo>, r: seq<Repo>)
  {
    && multiset(r) == multiset(s)
    && SortedDesc(r)
    && forall key :: WithCreatedAt(r, key) == WithCreatedAt(s, key)
  }

  lemma {:induction false} InsertSorted(x: Repo, t: seq<Repo>)
    requires SortedDesc(t)
    ensures SortedDesc(Insert(x, t))
  {
    if t == [] {
    } else if NewerOrSame(x, t[0]) {
      var r := [x] + t;
      forall i, j | 0 <= i < j < |r| ensures NewerOrSame(r[i], r[j]) {
        if i == 0 && j > 1 {
          LexLeTransitive(r[j].createdAt, t[0].createdAt, x.createdAt);
        }
      }
    } else {
      var tail := Insert(x, t[1..]);
      InsertSorted(x, t[1..]);
      var r := [t[0]] + tail;
      LexLeTotal(x.createdAt, t[0].createdAt);
      assert multiset(tail) == multiset(t[1..]) + multiset{x};
      forall i, j | 0 <= i < j < |r| ensures NewerOrSame(r[i], r[j]) {
        if i == 0 {
          var y := r[j];
          assert y in multiset(tail);
          if y != x {
            assert y in t[1..];
          }
        }
      }
    }
  }

  lemma {:induction false} SortIsSorted(s: seq<Repo>)
    ensures SortedDesc(SortByCreatedDesc(s))
  {
    if s != [] {
      SortIsSorted(s[1..]);
      InsertSorted(s[0], SortByCreatedDesc(s[1..]));
    }
  }

  lemma WithCreatedAtCons(y: Repo, s: seq<Repo>, key: string)
    ensures WithCreatedAt([y] + s, key)
         == (if y.createdAt == key then [y] else []) + WithCreatedAt(s, key)
  {
    assert ([y] + s)[1..] == s;
  }

  /** `x` goes past a strictly newer head; a record of its own key is never strictly newer. */
  lemma InsertPastNewer(x: Repo, t: seq<Repo>)
    requires t != [] && !NewerOrSame(x, t[0])
    ensures Insert(x, t) == [t[0]] + Insert(x, t[1..])
    ensures t[0].createdAt != x.createdAt
  {
    LexLeReflexive(x.createdAt);
  }

  /** The key group of a non-empty list: its head, if it has the key, then the group of its tail. */
  lemma WithCreatedAtHead(t: seq<Repo>, key: string)
    requires t != []
    ensures WithCreatedAt(t, key)
         == (if t[0].createdAt == key then [t[0]] else []) + WithCreatedAt(t[1..], key)
  {
  }

  /** Two prefixes of which one is empty can be swapped. */
  lemma SwapEmptyPrefix(p: seq<Repo>, q: seq<Repo>, w: seq<Repo>)
    requires p == [] || q == []
    ensures p + (q + w) == q + (p + w)
  {
  }

  /** One step of InsertKeepsKeyOrder: `x` moves past a strictly newer head. */
  lemma InsertPastNewerKeepsKeyOrder(x: Repo, t: seq<Repo>, key: string)
    requires t != [] && !NewerOrSame(x, t[0])
    requires WithCreatedAt(Insert(x, t[1..]), key)
          == (if x.createdAt == key then [x] else []) + WithCreatedAt(t[1..], key)
    ensures WithCreatedAt(Insert(x, t), key)
         == (if x.createdAt == key then [x] else []) + WithCreatedAt(t, key)
  {
    var rest := Insert(x, t[1..]);
    var head: seq<Repo> := if t[0].createdAt == key then [t[0]] else [];
    var mid: seq<Repo> := if x.createdAt == key then [x] else [];
    InsertPastNewer(x, t);
    WithCreatedAtCons(t[0], rest, key);
    WithCreatedAtHead(t, key);
    SwapEmptyPrefix(head, mid, WithCreatedAt(t[1..], key));
  }

  lemma {:induction false} InsertKeepsKeyOrder(x: Repo, t: seq<Repo>, key: string)
    ensures WithCreatedAt(Insert(x, t), key)
         == (if x.createdAt == key then [x] else []) + WithCreatedAt(t, key)
  {
    if t == [] || NewerOrSame(x, t[0]) {
      WithCreatedAtCons(x, t, key);
    } else {
      InsertKeepsKeyOrder(x, t[1..], key);
      InsertPastNewerKeepsKeyOrder(x, t, key);
    }
  }

  /** Records with equal `created_at` keep their fetched relative order. */
  lemma {:induction false} SortIsStable(s: seq<Repo>, key: string)
    ensures WithCreatedAt(SortByCreatedDesc(s), key) == WithCreatedAt(s, key)
  {
    if s != [] {
      SortIsStable(s[1..], key);
      InsertKeepsKeyOrder(s[0], SortByCreatedDesc(s[1..]), key);
    }
  }

  /** The model's sort has every property Python promises of `sorted`. */
  lemma SortMeetsSpec(s: seq<Repo>)
    ensures IsStableDescSort(s, SortByCreatedDesc(s))
  {
    SortIsSorted(s);
    forall key ensures WithCreatedAt(SortByCreatedDesc(s), key) == WithCreatedAt(s, key) {
      SortIsStable(s, key);
    }
  }

  lemma {:induction false} WithCreatedAtFrom(s: seq<Repo>, key: string, x: Repo)
    requires x in WithCreatedAt(s, key)
    ensures x in s
  {
    if s[0] != x {
      WithCreatedAtFrom(s[1..], key, x);
    }
  }

  lemma HeadNewest(b: seq<Repo>, y: Repo)
    requires SortedDesc(b) && y in b
    ensures NewerOrSame(b[0], y)
  {
    var j :| 0 <= j < |b| && b[j] == y;
    if j == 0 { LexLeReflexive(y.createdAt); }
  }

  lemma SortedTail(s: seq<Repo>)
    requires SortedDesc(s) && s != []
    ensures SortedDesc(s[1..])
  {
    forall i, j | 0 <= i < j < |s| - 1 ensures NewerOrSame(s[1..][i], s[1..][j]) {
      assert s[1..][i] == s[i + 1] && s[1..][j] == s[j + 1];
    }
  }

  /**
   * Two sorted lists that agree on the order of every group of equal keys are
   * the same list: a stable descending sort has exactly one possible result.
   */
  lemma {:induction false} StableDescSortUnique(a: seq<Repo>, b: seq<Repo>)
    requires SortedDesc(a) && SortedDesc(b)
    requires forall key :: WithCreatedAt(a, key) == WithCreatedAt(b, key)
    ensures a == b
  {
    if a != [] {
      assert WithCreatedAt(a, a[0].createdAt) == WithCreatedAt(b, a[0].createdAt);
    }
    if b != [] {
      assert WithCreatedAt(a, b[0].createdAt) == WithCreatedAt(b, b[0].createdAt);
    }
    if a != [] {
      var k, k' := a[0].createdAt, b[0].createdAt;
      var y := WithCreatedAt(b, k)[0];
      WithCreatedAtFrom(b, k, y);
      HeadNewest(b, y);
      var z := WithCreatedAt(a, k')[0];
      WithCreatedAtFrom(a, k', z);
      HeadNewest(a, z);
      LexLeAntisymmetric(k, k');
      assert k == k';
      assert a[0] == b[0];
      forall key ensures WithCreatedAt(a[1..], key) == WithCreatedAt(b[1..], key) {
        assert WithCreatedAt(a, key) == WithCreatedAt(b, key);
        if key == k {
          assert WithCreatedAt(a[1..], key) == WithCreatedAt(a, key)[1..];
          assert WithCreatedAt(b[1..], key) == WithCreatedAt(b, key)[1..];
        } else {
          assert WithCreatedAt(a[1..], key) == WithCreatedAt(a, key);
          assert WithCreatedAt(b[1..], key) == WithCreatedAt(b, key);
        }
      }
      SortedTail(a);
      SortedTail(b);
      StableDescSortUnique(a[1..], b[1..]);
      assert a == [a[0]] + a[1..];
      assert b == [b[0]] + b[1..];
    }
  }

  /** Any list meeting Python's promise for `sorted` is the model's sorted list. */
  lemma StableDescSortIsSort(s: seq<Repo>, r: seq<Repo>)
    requires IsStableDescSort(s, r)
    ensures r == SortByCreatedDesc(s)
  {
    SortMeetsSpec(s);
    StableDescSortUnique(r, SortByCreatedDesc(s));
  }

  /** Sorting an already sorted list returns it unchanged. */
  lemma SortOfSortedIsIdentity(s: seq<Repo>)
    requires SortedDesc(s)
    ensures SortByCreatedDesc(s) == s
  {
    StableDescSortIsSort(s, s);
  }

  /** Sorting twice is sorting once. */
  lemma SortIdempotent(s: seq<Repo>)
    ensures SortByCreatedDesc(SortByCreatedDesc(s)) == SortByCreatedDesc(s)
  {
    SortIsSorted(s);
    SortOfSortedIsIdentity(SortByCreatedDesc(s));
  }
}
