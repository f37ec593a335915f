/**
 * The part of the SQL query builder the procedures use, as pure functions
 * over a table held as a sequence of rows in storage order:
 * `orderBy(key)` is a sort by an integer key, `.limit(l).offset(o)` is
 * `LIMIT l OFFSET o`.
 */
module Query {

  function Min(a: int, b: int): (m: int) { if a <= b then a else b }

  /** Rows in ascending order of `key`, ties allowed. */
  predicate SortedBy<T>(s: seq<T>, key: T -> int) {
    forall i, j {:trigger key(s[i]), key(s[j])} :: 0 <= i < j < |s| ==> key(s[i]) <= key(s[j])
  }

  /** Rows in strictly ascending order of `key`. */
  predicate StrictlySortedBy<T>(s: seq<T>, key: T -> int) {
    forall i, j {:trigger key(s[i]), key(s[j])} :: 0 <= i < j < |s| ==> key(s[i]) < key(s[j])
  }

  /** No two rows share a key (a primary key). */
  predicate UniqueKeys<T>(s: seq<T>, key: T -> int) {
    forall i, j {:trigger key(s[i]), key(s[j])} :: 0 <= i < j < |s| ==> key(s[i]) != key(s[j])
  }

  /** Inserts `x` into the sorted `s` before the first row with a key not below its own. */
  function InsertBy<T(==)>(x: T, s: seq<T>, key: T -> int): (r: seq<T>)
    requires SortedBy(s, key)
    ensures SortedBy(r, key)
    ensures multiset(r) == multiset(s) + multiset{x}
    ensures |r| == |s| + 1 && (r[0] == x || (s != [] && r[0] == s[0]))
  {
    if s == [] || key(x) <= key(s[0]) then [x] + s
    else
      assert s == [s[0]] + s[1..];
      [s[0]] + InsertBy(x, s[1..], key)
  }

  /** `ORDER BY key`: the rows of `s`, rearranged into ascending key order. */
  function OrderBy<T(==)>(s: seq<T>, key: T -> int): (r: seq<T>)
    ensures SortedBy(r, key)
    ensures multiset(r) == multiset(s)
    ensures |r| == |s|
  {
    if s == [] then []
    else
      assert s == [s[0]] + s[1..];
      InsertBy(s[0], OrderBy(s[1..], key), key)
  }

  /**
   * `LIMIT limit OFFSET offset`: skip `offset` rows, then take rows until
   * `limit` are taken or the rows run out.
   */
  function LimitOffset<T>(s: seq<T>, limit: nat, offset: nat): (r: seq<T>)
    ensures |r| <= limit
    ensures forall i :: 0 <= i < |r| ==> offset + i < |s| && r[i] == s[offset + i]
    ensures |r| == limit || offset + |r| >= |s|
  {
    if offset >= |s| then [] else s[offset .. offset + Min(limit, |s| - offset)]
  }

  /** The result of `LimitOffset` is the clipped slice, empty past the end. */
  lemma LimitOffsetIsSlice<T>(s: seq<T>, limit: nat, offset: nat)
    ensures LimitOffset(s, limit, offset) == s[Min(offset, |s|) .. Min(offset + limit, |s|)]
    ensures offset >= |s| ==> LimitOffset(s, limit, offset) == []
  {
  }

  /** A `LIMIT`/`OFFSET` window keeps the ascending order of the rows it is cut from. */
  lemma LimitOffsetKeepsOrder<T>(s: seq<T>, limit: nat, offset: nat, key: T -> int)
    requires SortedBy(s, key)
    ensures SortedBy(LimitOffset(s, limit, offset), key)
  {
    var r := LimitOffset(s, limit, offset);
    forall i, j | 0 <= i < j < |r| ensures key(r[i]) <= key(r[j]) {
      assert r[i] == s[offset + i] && r[j] == s[offset + j];
    }
  }

  /** A `LIMIT`/`OFFSET` window keeps strictly ascending order. */
  lemma LimitOffsetKeepsStrictOrder<T>(s: seq<T>, limit: nat, offset: nat, key: T -> int)
    requires StrictlySortedBy(s, key)
    ensures StrictlySortedBy(LimitOffset(s, limit, offset), key)
  {
    var r := LimitOffset(s, limit, offset);
    forall i, j | 0 <= i < j < |r| ensures key(r[i]) < key(r[j]) {
      assert r[i] == s[offset + i] && r[j] == s[offset + j];
    }
  }

  /** A `LIMIT`/`OFFSET` window holds only rows it is cut from, none more often than they occur. */
  lemma LimitOffsetRows<T>(s: seq<T>, limit: nat, offset: nat)
    ensures multiset(LimitOffset(s, limit, offset)) <= multiset(s)
  {
    LimitOffsetIsSlice(s, limit, offset);
    var lo, hi := Min(offset, |s|), Min(offset + limit, |s|);
    assert s == s[..lo] + s[lo..hi] + s[hi..];
    assert multiset(s) == multiset(s[..lo]) + multiset(s[lo..hi]) + multiset(s[hi..]);
  }

  /** A prefix followed by the rows after it up to `j` is the longer prefix. */
  lemma PrefixThenSlice<T>(s: seq<T>, i: nat, j: nat)
    requires i <= j <= |s|
    ensures s[..i] + s[i..j] == s[..j]
  {
  }

  /** The first row of a sorted sequence has the least key of all of its rows. */
  lemma SortedHeadIsLeast<T>(s: seq<T>, key: T -> int)
    requires SortedBy(s, key) && s != []
    ensures forall y :: y in s ==> key(s[0]) <= key(y)
  {
    forall y | y in s ensures key(s[0]) <= key(y) {
      var k :| 0 <= k < |s| && s[k] == y;
      assert k == 0 || key(s[0]) <= key(s[k]);
    }
  }

  /** Inserting a row whose key is new into a strictly sorted sequence keeps it strict. */
  lemma {:induction false} InsertByStrict<T>(x: T, s: seq<T>, key: T -> int)
    requires StrictlySortedBy(s, key)
    requires forall y :: y in s ==> key(y) != key(x)
    ensures StrictlySortedBy(InsertBy(x, s, key), key)
  {
    if s == [] || key(x) <= key(s[0]) {
      assert s != [] ==> key(x) < key(s[0]) by {
        if s != [] { assert s[0] in s; }
      }
    } else {
      var rest := InsertBy(x, s[1..], key);
      forall y | y in s[1..] ensures key(y) != key(x) {
        assert y in s;
      }
      InsertByStrict(x, s[1..], key);
      assert InsertBy(x, s, key) == [s[0]] + rest;
      assert rest[0] == x || rest[0] == s[1];
      assert key(s[0]) < key(rest[0]);
    }
  }

  /** Sorting rows whose keys are unique gives strictly ascending keys. */
  lemma {:induction false} OrderByStrict<T>(s: seq<T>, key: T -> int)
    requires UniqueKeys(s, key)
    ensures StrictlySortedBy(OrderBy(s, key), key)
  {
    if s != [] {
      var tail := s[1..];
      assert UniqueKeys(tail, key) by {
        forall i, j | 0 <= i < j < |tail| ensures key(tail[i]) != key(tail[j]) {
          assert tail[i] == s[i + 1] && tail[j] == s[j + 1];
        }
      }
      OrderByStrict(tail, key);
      var sorted := OrderBy(tail, key);
      forall y | y in sorted ensures key(y) != key(s[0]) {
        assert y in multiset(sorted);
        assert y in tail;
        var k :| 0 <= k < |tail| && tail[k] == y;
        assert s[k + 1] == y;
      }
      InsertByStrict(s[0], sorted, key);
    }
  }

  /** Where the first row of `b` sits in `a`, when both hold the same rows. */
  lemma HeadIndex<T>(a: seq<T>, b: seq<T>) returns (i: nat)
    requires multiset(a) == multiset(b) && b != []
    ensures i < |a| && a[i] == b[0]
  {
    assert b[0] in multiset(a);
    i :| 0 <= i < |a| && a[i] == b[0];
  }

  /** Two sorted arrangements of the same rows, one strict, start with the same row. */
  lemma SameHead<T>(a: seq<T>, b: seq<T>, key: T -> int)
    requires StrictlySortedBy(a, key) && SortedBy(b, key)
    requires multiset(a) == multiset(b) && a != []
    ensures b != [] && a[0] == b[0]
  {
    assert |b| == |multiset(b)| == |multiset(a)| == |a|;
    var i := HeadIndex(a, b);
    var j := HeadIndex(b, a);
    assert key(a[i]) == key(b[0]) <= key(b[j]) == key(a[0]);
    assert i == 0;
  }

  /** Removing the same first row from two arrangements of the same rows leaves the same rows. */
  lemma SameTailRows<T>(a: seq<T>, b: seq<T>)
    requires multiset(a) == multiset(b) && a != [] && b != [] && a[0] == b[0]
    ensures multiset(a[1..]) == multiset(b[1..])
  {
    assert a == [a[0]] + a[1..] && b == [b[0]] + b[1..];
    assert multiset(a[1..]) == multiset(a) - multiset{a[0]};
    assert multiset(b[1..]) == multiset(b) - multiset{b[0]};
  }

  /**
   * Sorting is determined by the rows alone: a strictly sorted sequence is
   * the only sorted rearrangement of its rows.
   */
  lemma {:induction false} SortedPermutationUnique<T>(a: seq<T>, b: seq<T>, key: T -> int)
    requires StrictlySortedBy(a, key) && SortedBy(b, key)
    requires multiset(a) == multiset(b)
    ensures a == b
  {
    if a == [] {
      assert |b| == |multiset(b)| == 0;
    } else {
      SameHead(a, b, key);
      SameTailRows(a, b);
      assert StrictlySortedBy(a[1..], key) && SortedBy(b[1..], key);
      SortedPermutationUnique(a[1..], b[1..], key);
      assert a == [a[0]] + a[1..] && b == [b[0]] + b[1..];
    }
  }
}
