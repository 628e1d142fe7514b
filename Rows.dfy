/**
  Rows of a table addressed by position. Keep(s, drop, base) is what is left of
  s once the rows whose position (counted from base) is in drop are deleted;
  the lemmas say that exactly those rows go and that the others keep their order.
 */
module Rows {

  /** The elements of s whose position, counted from base, is not in drop, in their order. */
  function Keep<T>(s: seq<T>, drop: set<int>, base: int): seq<T>
  {
    if s == [] then [] else (if base in drop then [] else [s[0]]) + Keep(s[1..], drop, base + 1)
  }

  /** The positions lo, lo + 1, ..., lo + n - 1 that are not in drop, in their order. */
  function Kept(lo: int, n: nat, drop: set<int>): seq<int>
    decreases n
  {
    if n == 0 then [] else (if lo in drop then [] else [lo]) + Kept(lo + 1, n - 1, drop)
  }

  lemma {:induction false} KeepAppend<T>(a: seq<T>, b: seq<T>, drop: set<int>, base: int)
    ensures Keep(a + b, drop, base) == Keep(a, drop, base) + Keep(b, drop, base + |a|)
  {
    if a != [] {
      assert (a + b)[1..] == a[1..] + b;
      KeepAppend(a[1..], b, drop, base + 1);
    } else {
      assert a + b == b;
    }
  }

  /** Positions outside the span of s do not matter. */
  lemma {:induction false} KeepOutside<T>(s: seq<T>, drop: set<int>, extra: set<int>, base: int)
    requires forall k :: k in extra ==> k < base || k >= base + |s|
    ensures Keep(s, drop + extra, base) == Keep(s, drop, base)
  {
    if s != [] {
      KeepOutside(s[1..], drop, extra, base + 1);
    }
  }

  /** Deleting nothing in the span of s leaves s as it is. */
  lemma {:induction false} KeepNothing<T>(s: seq<T>, drop: set<int>, base: int)
    requires forall k :: base <= k < base + |s| ==> k !in drop
    ensures Keep(s, drop, base) == s
  {
    if s != [] {
      KeepNothing(s[1..], drop, base + 1);
      assert s == [s[0]] + s[1..];
    }
  }

  /** The step of a deletion loop that goes from the highest position down: what is
      left after deleting idx too is what was left, without its element at idx. */
  lemma DeleteNext<T>(s: seq<T>, drop: set<int>, idx: int)
    requires 0 <= idx < |s|
    requires forall d :: d in drop ==> idx < d
    ensures idx < |Keep(s, drop, 0)|
    ensures Keep(s, drop + {idx}, 0) == Keep(s, drop, 0)[..idx] + Keep(s, drop, 0)[idx + 1..]
  {
    DeleteBelow(s, drop, idx);
  }

  /** Deleting position idx, below every position deleted so far, removes the
      element at idx of what is left and nothing else: this is why deleting from
      the highest position down keeps the remaining positions valid. */
  lemma DeleteBelow<T>(s: seq<T>, drop: set<int>, idx: int)
    requires 0 <= idx < |s|
    requires forall d :: d in drop ==> idx < d
    ensures var r := Keep(s, drop, 0);
            && idx < |r| && r[idx] == s[idx] && r[..idx] == s[..idx]
            && Keep(s, drop + {idx}, 0) == r[..idx] + r[idx + 1..]
  {
    var pre, post := s[..idx], s[idx + 1..];
    assert s == pre + ([s[idx]] + post);
    KeepAppend(pre, [s[idx]] + post, drop, 0);
    KeepAppend(pre, [s[idx]] + post, drop + {idx}, 0);
    KeepNothing(pre, drop, 0);
    KeepNothing(pre, drop + {idx}, 0);
    assert ([s[idx]] + post)[1..] == post;
    KeepOutside(post, drop, {idx}, idx + 1);
    var r := Keep(s, drop, 0);
    assert r == pre + ([s[idx]] + Keep(post, drop, idx + 1));
    assert Keep(s, drop + {idx}, 0) == pre + Keep(post, drop, idx + 1);
    assert r[..idx] == pre;
    assert r[idx + 1..] == Keep(post, drop, idx + 1);
  }

  /** Deleting rows from s leaves as many rows as there are kept positions. */
  lemma {:induction false} KeepLength<T>(s: seq<T>, drop: set<int>, base: int)
    ensures |Keep(s, drop, base)| == |Kept(base, |s|, drop)|
    decreases |s|
  {
    if s != [] {
      KeepLength(s[1..], drop, base + 1);
    }
  }

  /** Element i of what is left is the element of s at the i-th kept position. */
  lemma {:induction false} KeepAt<T>(s: seq<T>, drop: set<int>, base: int, i: int)
    requires 0 <= i < |Kept(base, |s|, drop)|
    ensures var p := Kept(base, |s|, drop);
            && base <= p[i] < base + |s|
            && i < |Keep(s, drop, base)| && Keep(s, drop, base)[i] == s[p[i] - base]
    decreases |s|, 1
  {
    if s != [] {
      if base in drop {
        KeepAtDropped(s, drop, base, i);
      } else {
        KeepAtKept(s, drop, base, i);
      }
    }
  }

  /** KeepAt when the first row is deleted: both sides skip it. */
  lemma {:induction false} KeepAtDropped<T>(s: seq<T>, drop: set<int>, base: int, i: int)
    requires s != [] && base in drop
    requires 0 <= i < |Kept(base, |s|, drop)|
    ensures var p := Kept(base, |s|, drop);
            && base <= p[i] < base + |s|
            && i < |Keep(s, drop, base)| && Keep(s, drop, base)[i] == s[p[i] - base]
    decreases |s|, 0
  {
    var tail := s[1..];
    var p, r := Kept(base + 1, |tail|, drop), Keep(tail, drop, base + 1);
    assert Kept(base, |s|, drop) == [] + p == p;
    assert Keep(s, drop, base) == [] + r == r;
    KeepAt(tail, drop, base + 1, i);
    assert tail[p[i] - (base + 1)] == s[p[i] - base];
  }

  /** KeepAt when the first row stays: it is element 0, and the rest shift by one. */
  lemma {:induction false} KeepAtKept<T>(s: seq<T>, drop: set<int>, base: int, i: int)
    requires s != [] && base !in drop
    requires 0 <= i < |Kept(base, |s|, drop)|
    ensures var p := Kept(base, |s|, drop);
            && base <= p[i] < base + |s|
            && i < |Keep(s, drop, base)| && Keep(s, drop, base)[i] == s[p[i] - base]
    decreases |s|, 0
  {
    var tail := s[1..];
    var p', r' := Kept(base + 1, |tail|, drop), Keep(tail, drop, base + 1);
    assert Kept(base, |s|, drop) == [base] + p';
    assert Keep(s, drop, base) == [s[0]] + r';
    KeepLength(tail, drop, base + 1);
    if i > 0 {
      KeepAt(tail, drop, base + 1, i - 1);
      assert tail[p'[i - 1] - (base + 1)] == s[p'[i - 1] - base];
    }
  }

  /** What is left is, in order, the elements of s at the kept positions. */
  lemma KeepSelects<T>(s: seq<T>, drop: set<int>, base: int)
    ensures var p := Kept(base, |s|, drop);
            && |Keep(s, drop, base)| == |p|
            && forall i :: 0 <= i < |p| ==> base <= p[i] < base + |s| && Keep(s, drop, base)[i] == s[p[i] - base]
  {
    KeepLength(s, drop, base);
    var p := Kept(base, |s|, drop);
    forall i | 0 <= i < |p| ensures base <= p[i] < base + |s| && Keep(s, drop, base)[i] == s[p[i] - base] {
      KeepAt(s, drop, base, i);
    }
  }

  /** The kept positions are exactly the positions in the span not in drop, in increasing order. */
  lemma {:induction false} KeptPositions(lo: int, n: nat, drop: set<int>)
    ensures var p := Kept(lo, n, drop);
            && (forall x :: x in p <==> lo <= x < lo + n && x !in drop)
            && (forall i, j :: 0 <= i < j < |p| ==> p[i] < p[j])
    decreases n
  {
    if n > 0 {
      KeptPositions(lo + 1, n - 1, drop);
      var rest := Kept(lo + 1, n - 1, drop);
      var p := Kept(lo, n, drop);
      if lo !in drop {
        assert p == [lo] + rest;
        forall i, j | 0 <= i < j < |p| ensures p[i] < p[j] {
          assert p[j] == rest[j - 1] && p[j] in rest;
          if i > 0 {
            assert p[i] == rest[i - 1];
          }
        }
      }
    }
  }

  /** Exactly |drop| rows go when every position in drop is a row of s. */
  lemma {:induction false} KeepCount<T>(s: seq<T>, drop: set<int>, base: int)
    requires forall d :: d in drop ==> base <= d < base + |s|
    ensures |Keep(s, drop, base)| == |s| - |drop|
  {
    if s == [] {
      assert forall d :: d !in drop;
    } else if base in drop {
      var rest := drop - {base};
      KeepOutside(s[1..], rest, {base}, base + 1);
      assert rest + {base} == drop;
      KeepCount(s[1..], rest, base + 1);
    } else {
      KeepCount(s[1..], drop, base + 1);
    }
  }

  /** Deleting the rows at the positions in drop, every one a row of s: exactly |drop|
      rows go, and what is left is the other rows in their order. */
  lemma RemoveRows<T>(s: seq<T>, drop: set<int>)
    requires forall d :: d in drop ==> 0 <= d < |s|
    ensures var left := Keep(s, drop, 0);
            var kept := Kept(0, |s|, drop);
            && |left| == |s| - |drop|
            && |left| == |kept|
            && (forall i :: 0 <= i < |left| ==> 0 <= kept[i] < |s| && left[i] == s[kept[i]])
            && (forall p :: p in kept <==> 0 <= p < |s| && p !in drop)
            && (forall i, j :: 0 <= i < j < |kept| ==> kept[i] < kept[j])
  {
    KeepCount(s, drop, 0);
    KeepSelects(s, drop, 0);
    KeptPositions(0, |s|, drop);
  }

  /** The distinct elements of s. */
  function Elements(s: seq<int>): set<int> {
    set x | x in s
  }

  predicate StrictlyDescending(s: seq<int>) {
    forall i, j :: 0 <= i < j < |s| ==> s[i] > s[j]
  }

  /** In a strictly descending sequence, every element before position i is
      greater than the one at i: a loop that goes along it meets each position
      below all those it has already met. */
  lemma DescendingPrefix(s: seq<int>, i: int)
    requires StrictlyDescending(s) && 0 <= i < |s|
    ensures forall d :: d in Elements(s[..i]) ==> s[i] < d
    ensures Elements(s[..i + 1]) == Elements(s[..i]) + {s[i]}
  {
    assert s[..i + 1] == s[..i] + [s[i]];
  }

  function InsertDescending(x: int, s: seq<int>): (r: seq<int>)
    requires StrictlyDescending(s)
    ensures StrictlyDescending(r)
    ensures forall y :: y in r <==> y == x || y in s
  {
    if s == [] || x > s[0] then [x] + s
    else if x == s[0] then s
    else
      var rest := InsertDescending(x, s[1..]);
      assert forall k :: 0 <= k < |rest| ==> rest[k] in rest;
      [s[0]] + rest
  }

  /** sorted(set(s), key=lambda x: -x): the distinct elements of s, largest first. */
  function DescendingDistinct(s: seq<int>): (r: seq<int>)
    ensures StrictlyDescending(r)
    ensures forall y :: y in r <==> y in s
  {
    if s == [] then [] else InsertDescending(s[0], DescendingDistinct(s[1..]))
  }
}
