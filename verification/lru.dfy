/**
  The recency list of a least-recently-used cache: the front of the list is
  the most recently used key, the back the least recently used one.

  `Access` is one use of a key by the cache: the key is taken out of the list
  (as `std::list::remove` does, every occurrence), pushed to the front, and
  when the list then holds more than `cap` keys the back one is dropped.

  `RecencyOrder` is an independent description of the same thing: the distinct
  keys of a usage history, the most recently used first. The theorem
  `ReplayIsMostRecent` states that replaying any history from an empty list
  leaves exactly the `cap` most recently used distinct keys, in recency order.
 */
module Lru {

  /** No key occurs twice. */
  predicate NoDup<K(==,!new)>(s: seq<K>)
  {
    forall i, j :: 0 <= i < j < |s| ==> s[i] != s[j]
  }

  /** `s` with every occurrence of `k` removed, order kept. */
  function Without<K(==,!new)>(s: seq<K>, k: K): (r: seq<K>)
    ensures forall x :: x in r <==> x in s && x != k
    ensures |r| <= |s|
  {
    if |s| == 0 then []
    else (if s[0] == k then [] else [s[0]]) + Without(s[1..], k)
  }

  /** The first `n` elements of `s`, or all of them when there are fewer. */
  function Take<K(==,!new)>(s: seq<K>, n: nat): (r: seq<K>)
    ensures |r| == if n <= |s| then n else |s|
    ensures forall i :: 0 <= i < |r| ==> r[i] == s[i]
  {
    if n <= |s| then s[..n] else s
  }

  /** Moves `k` to the front of the recency list. */
  function Touch<K(==,!new)>(items: seq<K>, k: K): (r: seq<K>)
    ensures |r| > 0 && r[0] == k
    ensures forall x :: x in r <==> x in items || x == k
  {
    [k] + Without(items, k)
  }

  /** One use of `k` in a cache of capacity `cap`: touch, then drop the back on overflow. */
  function Access<K(==,!new)>(items: seq<K>, k: K, cap: nat): (r: seq<K>)
    requires NoDup(items) && |items| <= cap
    ensures NoDup(r) && |r| <= cap
    ensures cap > 0 ==> |r| > 0 && r[0] == k
    ensures k in items ==> r == Touch(items, k) && |r| == |items|
    ensures k in items ==> forall x :: x in r <==> x in items
    ensures k !in items && |items| < cap ==> forall x :: x in r <==> x in items || x == k
    ensures k !in items && 0 < |items| == cap ==>
      forall x :: x in r <==> (x in items && x != items[|items| - 1]) || x == k
    ensures cap == 0 ==> r == []
  {
    var t := Touch(items, k);
    TouchNoDup(items, k);
    if |t| <= cap then t
    else
      DropLast(items, k, cap);
      t[..|t| - 1]
  }

  lemma TouchNoDup<K(!new)>(items: seq<K>, k: K)
    requires NoDup(items)
    ensures NoDup(Touch(items, k))
    ensures k in items ==> |Touch(items, k)| == |items|
    ensures k !in items ==> Touch(items, k) == [k] + items
  {
    WithoutNoDup(items, k);
  }

  /** On overflow the key dropped is the back of the old list, never `k`. */
  lemma DropLast<K(!new)>(items: seq<K>, k: K, cap: nat)
    requires NoDup(items) && |items| <= cap && |Touch(items, k)| > cap
    ensures k !in items && |items| == cap
    ensures var t := Touch(items, k);
      NoDup(t[..|t| - 1]) && |t[..|t| - 1]| == cap
    ensures cap == 0 ==> Touch(items, k)[..0] == []
    ensures var t := Touch(items, k);
      cap > 0 ==> forall x :: x in t[..|t| - 1] <==> (x in items && x != items[|items| - 1]) || x == k
    ensures var t := Touch(items, k);
      forall x :: x in t[..|t| - 1] <==> (x in items || x == k) && x != t[|t| - 1]
  {
    TouchNoDup(items, k);
    var t := Touch(items, k);
    assert t == [k] + items;
    assert forall x :: x in t[..|t| - 1] <==> x in t && x != t[|t| - 1];
  }

  /**
    Reference definition: the distinct keys of the usage history `h` (oldest
    use first), ordered from the most recently used to the least recently used.
   */
  function RecencyOrder<K(==,!new)>(h: seq<K>): (r: seq<K>)
    ensures NoDup(r)
    ensures forall x :: x in r <==> x in h
    decreases |h|
  {
    if |h| == 0 then []
    else
      var k := h[|h| - 1];
      var rest := RecencyOrder(Without(h[..|h| - 1], k));
      assert k !in rest;
      assert forall x :: x in h <==> x in h[..|h| - 1] || x == k;
      [k] + rest
  }

  /** Replays the usage history `h`, oldest use first, on the list `items`. */
  function Replay<K(==,!new)>(items: seq<K>, h: seq<K>, cap: nat): (r: seq<K>)
    requires NoDup(items) && |items| <= cap
    ensures NoDup(r) && |r| <= cap
    decreases |h|
  {
    if |h| == 0 then items
    else Access(Replay(items, h[..|h| - 1], cap), h[|h| - 1], cap)
  }

  // ---------------------------------------------------------------------
  // Lemmas about `Without`

  lemma {:induction false} WithoutNoDup<K(!new)>(s: seq<K>, k: K)
    requires NoDup(s)
    ensures NoDup(Without(s, k))
    ensures k in s ==> |Without(s, k)| == |s| - 1
    ensures k !in s ==> Without(s, k) == s
    decreases |s|
  {
    if |s| > 0 {
      assert NoDup(s[1..]);
      WithoutNoDup(s[1..], k);
      assert s == [s[0]] + s[1..];
      if s[0] == k {
        assert k !in s[1..];
        assert Without(s, k) == Without(s[1..], k);
      } else {
        assert s[0] !in s[1..];
        assert Without(s, k) == [s[0]] + Without(s[1..], k);
      }
    }
  }

  lemma {:induction false} WithoutAppend<K(!new)>(a: seq<K>, b: seq<K>, k: K)
    ensures Without(a + b, k) == Without(a, k) + Without(b, k)
    decreases |a|
  {
    if |a| > 0 {
      assert (a + b)[1..] == a[1..] + b;
      WithoutAppend(a[1..], b, k);
    } else {
      assert a + b == b;
    }
  }

  lemma {:induction false} WithoutCommutes<K(!new)>(s: seq<K>, k: K, m: K)
    ensures Without(Without(s, k), m) == Without(Without(s, m), k)
    decreases |s|
  {
    if |s| > 0 {
      WithoutCommutes(s[1..], k, m);
      WithoutAppend(if s[0] == k then [] else [s[0]], Without(s[1..], k), m);
      WithoutAppend(if s[0] == m then [] else [s[0]], Without(s[1..], m), k);
    }
  }

  /** The last element of `s + [m]` is `m`, and the rest is `s`. */
  lemma SnocParts<K(!new)>(s: seq<K>, m: K)
    ensures (s + [m])[|s + [m]| - 1] == m
    ensures (s + [m])[..|s + [m]| - 1] == s
  {
  }

  /** Forgetting every use of `k` from the history forgets `k` in the recency order. */
  lemma {:induction false} RecencyOrderWithout<K(!new)>(h: seq<K>, k: K)
    ensures RecencyOrder(Without(h, k)) == Without(RecencyOrder(h), k)
    decreases |h|
  {
    if |h| > 0 {
      var p := h[..|h| - 1];
      var m := h[|h| - 1];
      assert h == p + [m];
      WithoutAppend(p, [m], k);
      if m == k {
        assert Without(h, k) == Without(p, k);
        WithoutNoDup(RecencyOrder(Without(p, k)), k);
      } else {
        assert Without(h, k) == Without(p, k) + [m];
        SnocParts(Without(p, k), m);
        RecencyOrderWithout(Without(p, m), k);
        WithoutCommutes(p, k, m);
      }
    }
  }

  // ---------------------------------------------------------------------
  // Lemmas about `Take`

  /** Removing a key that is not among the first `n` leaves those `n` in place. */
  lemma {:induction false} TakeWithoutAbsent<K(!new)>(s: seq<K>, k: K, n: nat)
    requires k !in Take(s, n)
    ensures Take(Without(s, k), n) == Take(s, n)
    decreases |s|
  {
    if |s| > 0 && n > 0 {
      assert s[0] in Take(s, n);
      assert Take(s[1..], n - 1) == Take(s, n)[1..];
      TakeWithoutAbsent(s[1..], k, n - 1);
    }
  }

  /** Removing a key that is among the first `n` shortens that prefix by exactly the key. */
  lemma {:induction false} TakeWithoutPresent<K(!new)>(s: seq<K>, k: K, n: nat)
    requires NoDup(s) && k in Take(s, n)
    ensures n > 0
    ensures Without(Take(s, n), k) == Take(Without(s, k), n - 1)
    decreases |s|
  {
    assert n > 0 && |s| > 0;
    var x, tail := s[0], s[1..];
    assert s == [x] + tail;
    TakeCons(x, tail, n);
    WithoutCons(x, tail, k);
    WithoutCons(x, Take(tail, n - 1), k);
    assert NoDup(tail);
    if x == k {
      assert k !in tail;
      WithoutNoDup(tail, k);
      WithoutNoDup(Take(tail, n - 1), k);
    } else {
      TakeWithoutPresent(tail, k, n - 1);
      TakeCons(x, Without(tail, k), n - 1);
    }
  }

  /** Taking from a sequence with a known head keeps the head. */
  lemma TakeCons<K(!new)>(k: K, s: seq<K>, n: nat)
    requires n > 0
    ensures Take([k] + s, n) == [k] + Take(s, n - 1)
  {
    assert ([k] + s)[1..] == s;
  }

  /** Removing a key from a sequence with a known head. */
  lemma WithoutCons<K(!new)>(x: K, s: seq<K>, k: K)
    ensures Without([x] + s, k) == (if x == k then [] else [x]) + Without(s, k)
  {
    assert ([x] + s)[1..] == s;
  }

  /** Dropping the last element of `[k] + s` keeps `k` and drops the last of `s`. */
  lemma ConsPrefix<K(!new)>(k: K, s: seq<K>)
    requires |s| > 0
    ensures ([k] + s)[..|s|] == [k] + s[..|s| - 1]
  {
    assert forall i :: 0 < i < |s| ==> ([k] + s)[..|s|][i] == s[i - 1];
  }

  /** One access to a cache holding a prefix of the recency order keeps it a prefix. */
  lemma AccessTake<K(!new)>(order: seq<K>, k: K, cap: nat)
    requires NoDup(order)
    ensures Access(Take(order, cap), k, cap) == Take([k] + Without(order, k), cap)
  {
    if cap > 0 {
      TakeCons(k, Without(order, k), cap);
      if k in Take(order, cap) {
        AccessTakeHit(order, k, cap);
      } else {
        AccessTakeMiss(order, k, cap);
      }
    }
  }

  lemma AccessTakeHit<K(!new)>(order: seq<K>, k: K, cap: nat)
    requires NoDup(order) && k in Take(order, cap)
    ensures cap > 0
    ensures Access(Take(order, cap), k, cap) == [k] + Take(Without(order, k), cap - 1)
  {
    var t := Take(order, cap);
    assert NoDup(t);
    TouchNoDup(t, k);
    TakeWithoutPresent(order, k, cap);
  }

  lemma AccessTakeMiss<K(!new)>(order: seq<K>, k: K, cap: nat)
    requires NoDup(order) && cap > 0 && k !in Take(order, cap)
    ensures Access(Take(order, cap), k, cap) == [k] + Take(Without(order, k), cap - 1)
  {
    var t := Take(order, cap);
    assert NoDup(t);
    TouchNoDup(t, k);
    TakeWithoutAbsent(order, k, cap);
    if |t| == cap {
      AccessTakeFull(t, Without(order, k), k, cap);
    } else {
      assert t == order;
      WithoutNoDup(order, k);
    }
  }

  /** A miss on a full cache keeps the key and all but the last of the old prefix. */
  lemma AccessTakeFull<K(!new)>(t: seq<K>, w: seq<K>, k: K, cap: nat)
    requires NoDup(t) && |t| == cap > 0 && k !in t && Take(w, cap) == t
    ensures Access(t, k, cap) == [k] + Take(w, cap - 1)
  {
    TouchNoDup(t, k);
    assert Take(w, cap - 1) == t[..cap - 1];
    assert Access(t, k, cap) == ([k] + t)[..cap];
    ConsPrefix(k, t);
  }

  /**
    The LRU theorem: from an empty cache of capacity `cap`, any usage history
    leaves exactly the `cap` most recently used distinct keys, most recent first.
   */
  lemma {:induction false} ReplayIsMostRecent<K(!new)>(h: seq<K>, cap: nat)
    ensures Replay([], h, cap) == Take(RecencyOrder(h), cap)
    decreases |h|
  {
    if |h| > 0 {
      var p := h[..|h| - 1];
      var k := h[|h| - 1];
      ReplayIsMostRecent(p, cap);
      AccessTake(RecencyOrder(p), k, cap);
      RecencyOrderWithout(p, k);
    }
  }
}
