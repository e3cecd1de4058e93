/** Seeding: the stable sort of registrations by average, highest first. */
module Seeding {
  import opened Roster
  import opened JsArray

  /** The comparison key: `bowlingAverage || 0`. A missing average sorts as 0, not 160. */
  function SeedKey(r: Registration): int {
    r.average.ValueOr(0)
  }

  /** Non-increasing by seed key. */
  predicate SortedDesc(s: seq<Registration>) {
    forall i, j :: 0 <= i < j < |s| ==> SeedKey(s[i]) >= SeedKey(s[j])
  }

  /** The registrations of `s` whose key is `k`, in their order in `s`. */
  function WithKey(s: seq<Registration>, k: int): (t: seq<Registration>)
    ensures |t| <= |s|
  {
    Filter(s, KeyIs(k))
  }

  /** The test `r => key(r) === k`. */
  function KeyIs(k: int): Registration -> bool {
    (r: Registration) => SeedKey(r) == k
  }

  /** What an ES2019 stable sort with comparator `(a, b) => key(b) - key(a)` promises:
      the output is ordered by key, and registrations with equal keys keep their relative order. */
  ghost predicate IsStableSeeding(s: seq<Registration>, t: seq<Registration>) {
    && SortedDesc(t)
    && forall k :: WithKey(t, k) == WithKey(s, k)
  }

  lemma WithKeyAppend(a: seq<Registration>, b: seq<Registration>, k: int)
    ensures WithKey(a + b, k) == WithKey(a, k) + WithKey(b, k)
  {
    FilterAppend(a, b, KeyIs(k));
  }

  lemma WithKeySingle(x: Registration, k: int)
    ensures WithKey([x], k) == if SeedKey(x) == k then [x] else []
  {
    FilterSingle(x, KeyIs(k));
  }

  /** Inserts `x` after every element of `t` whose key is at least its own. */
  function Insert(t: seq<Registration>, x: Registration): (r: seq<Registration>)
    ensures multiset(r) == multiset(t) + multiset{x}
    ensures |r| == |t| + 1
  {
    if |t| == 0 || SeedKey(t[|t| - 1]) >= SeedKey(x) then t + [x]
    else
      var last := t[|t| - 1];
      assert t == t[..|t| - 1] + [last];
      Insert(t[..|t| - 1], x) + [last]
  }

  /** Every element of `t` and `x` itself end up in `Insert(t, x)`, and nothing else. */
  lemma InsertMembers(t: seq<Registration>, x: Registration, y: Registration)
    requires y in Insert(t, x)
    ensures y == x || y in t
  {
    assert y in multiset(Insert(t, x));
  }

  lemma {:induction false} InsertSorted(t: seq<Registration>, x: Registration)
    requires SortedDesc(t)
    ensures SortedDesc(Insert(t, x))
  {
    if |t| > 0 && SeedKey(t[|t| - 1]) < SeedKey(x) {
      var init, last := t[..|t| - 1], t[|t| - 1];
      InsertSorted(init, x);
      var r' := Insert(init, x);
      var r := r' + [last];
      assert Insert(t, x) == r;
      forall i, j | 0 <= i < j < |r| ensures SeedKey(r[i]) >= SeedKey(r[j]) {
        if j == |r'| {
          var y := r[i];
          assert y in r';
          InsertMembers(init, x, y);
          if y != x {
            var m :| 0 <= m < |init| && init[m] == y;
            assert t[m] == y;
          }
        }
      }
    }
  }

  lemma {:induction false} InsertWithKey(t: seq<Registration>, x: Registration, k: int)
    ensures WithKey(Insert(t, x), k) == WithKey(t, k) + WithKey([x], k)
  {
    if |t| == 0 || SeedKey(t[|t| - 1]) >= SeedKey(x) {
      WithKeyAppend(t, [x], k);
    } else {
      var init, last := t[..|t| - 1], t[|t| - 1];
      assert t == init + [last];
      InsertWithKey(init, x, k);
      assert Insert(t, x) == Insert(init, x) + [last];
      KeysPastLast(Insert(init, x), init, last, x, k);
    }
  }

  /** The inductive step of `InsertWithKey`: `x` went into `a`, and a last element with a
      lower key follows it. */
  lemma KeysPastLast(a: seq<Registration>, init: seq<Registration>, last: Registration, x: Registration, k: int)
    requires SeedKey(last) < SeedKey(x)
    requires WithKey(a, k) == WithKey(init, k) + WithKey([x], k)
    ensures WithKey(a + [last], k) == WithKey(init + [last], k) + WithKey([x], k)
  {
    var ki, kx, kl := WithKey(init, k), WithKey([x], k), WithKey([last], k);
    WithKeyAppend(a, [last], k);
    WithKeyAppend(init, [last], k);
    // last's key is below x's, so at most one of the two is kept and their order is moot
    WithKeySingle(x, k);
    WithKeySingle(last, k);
    assert kx == [] || kl == [];
  }

  /** The model of `[...registrations].sort((a, b) => key(b) - key(a))`: insertion sort,
      each element inserted after the equal keys already placed. */
  function StableSeed(s: seq<Registration>): (t: seq<Registration>)
    ensures multiset(t) == multiset(s)
    ensures |t| == |s|
  {
    if |s| == 0 then []
    else
      assert s == s[..|s| - 1] + [s[|s| - 1]];
      Insert(StableSeed(s[..|s| - 1]), s[|s| - 1])
  }

  /** The seeding is a stable descending sort. */
  lemma {:induction false} StableSeedIsStable(s: seq<Registration>)
    ensures IsStableSeeding(s, StableSeed(s))
  {
    if |s| > 0 {
      var init, x := s[..|s| - 1], s[|s| - 1];
      assert s == init + [x];
      StableSeedIsStable(init);
      InsertSorted(StableSeed(init), x);
      forall k ensures WithKey(StableSeed(s), k) == WithKey(s, k) {
        InsertWithKey(StableSeed(init), x, k);
        WithKeyAppend(init, [x], k);
      }
    }
  }

  lemma WithKeyNonEmpty(s: seq<Registration>, k: int)
    ensures |WithKey(s, k)| > 0 <==> exists i :: 0 <= i < |s| && SeedKey(s[i]) == k
  {
    if |s| > 0 {
      WithKeyNonEmpty(s[1..], k);
      if exists i :: 0 <= i < |s| && SeedKey(s[i]) == k {
        var i :| 0 <= i < |s| && SeedKey(s[i]) == k;
        if i > 0 {
          assert s[1..][i - 1] == s[i];
        }
      }
      if exists i :: 0 <= i < |s[1..]| && SeedKey(s[1..][i]) == k {
        var i :| 0 <= i < |s[1..]| && SeedKey(s[1..][i]) == k;
        assert s[i + 1] == s[1..][i];
      }
    }
  }

  /** A stable descending sort is unique: any two outputs agree. So every conforming
      `Array.prototype.sort` gives exactly `StableSeed`'s order. */
  lemma {:induction false} StableSeedingUnique(s: seq<Registration>, t1: seq<Registration>, t2: seq<Registration>)
    requires IsStableSeeding(s, t1) && IsStableSeeding(s, t2)
    ensures t1 == t2
  {
    SortedKeysUnique(t1, t2);
  }

  lemma {:induction false} SortedKeysUnique(a: seq<Registration>, b: seq<Registration>)
    requires SortedDesc(a) && SortedDesc(b)
    requires forall k :: WithKey(a, k) == WithKey(b, k)
    ensures a == b
    decreases |a|
  {
    // The first element's key selects something on the other side, so neither side is empty alone.
    if |b| > 0 {
      WithKeyNonEmpty(a, SeedKey(b[0]));
    }
    if |a| > 0 {
      WithKeyNonEmpty(b, SeedKey(a[0]));
    }
    if |a| > 0 && |b| > 0 {
      var ka, kb := SeedKey(a[0]), SeedKey(b[0]);
      assert ka == kb;
      assert WithKey(a, ka)[0] == a[0];
      assert WithKey(b, ka)[0] == b[0];
      forall k ensures WithKey(a[1..], k) == WithKey(b[1..], k) {
        var head := if ka == k then [a[0]] else [];
        assert WithKey(a, k) == head + WithKey(a[1..], k);
        assert WithKey(b, k) == head + WithKey(b[1..], k);
        assert WithKey(a[1..], k) == WithKey(a, k)[|head|..];
      }
      SortedKeysUnique(a[1..], b[1..]);
      assert a == [a[0]] + a[1..];
      assert b == [b[0]] + b[1..];
    }
  }
}
