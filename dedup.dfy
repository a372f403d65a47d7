/**
 * Order-preserving removal of duplicates, shared by the two halves of the
 * model: the second loop of `propose_bundles` (append an item only when it
 * is not yet in the output) and pandas' `drop_duplicates` with its default
 * `keep='first'` used by `duplicate_rows`.
 */
module SeqDedup {

  /** No element occurs twice. */
  predicate Distinct<T(==)>(s: seq<T>) {
    forall i, j :: 0 <= i < j < |s| ==> s[i] != s[j]
  }

  /** Position of the first occurrence of `x` in `s`. */
  function FirstIndex<T(==)>(s: seq<T>, x: T): (i: nat)
    requires x in s
    ensures i < |s| && s[i] == x && x !in s[..i]
  {
    if s[0] == x then 0
    else
      var j := FirstIndex(s[1..], x);
      assert s[..1 + j] == [s[0]] + s[1..][..j];
      1 + j
  }

  /**
   * The dedup loop, one element at a time: the output so far grows by the
   * next element exactly when that element is not in it yet.
   */
  function Dedup<T(==)>(s: seq<T>): seq<T>
  {
    if s == [] then []
    else
      var r := Dedup(s[..|s| - 1]);
      if s[|s| - 1] in r then r else r + [s[|s| - 1]]
  }

  /** One more turn of the dedup loop: the next element is appended unless already output. */
  lemma DedupStep<T>(s: seq<T>, j: nat)
    requires j < |s|
    ensures Dedup(s[..j + 1]) == if s[j] in Dedup(s[..j]) then Dedup(s[..j]) else Dedup(s[..j]) + [s[j]]
  {
    assert s[..j + 1][..j] == s[..j];
  }

  /** The output holds exactly the input's elements, each once. */
  lemma {:induction false} DedupItems<T>(s: seq<T>)
    ensures forall x :: x in Dedup(s) ==> x in s
    ensures forall x :: x in s ==> x in Dedup(s)
    ensures Distinct(Dedup(s))
    ensures |Dedup(s)| <= |s|
  {
    if s != [] {
      var f, last := s[..|s| - 1], s[|s| - 1];
      DedupItems(f);
      assert s == f + [last];
      var d := Dedup(f);
      if last !in d {
        assert forall k :: 0 <= k < |d| ==> (d + [last])[k] == d[k] != last;
      }
    }
  }

  /** The first occurrence is the only position that has `x` and no earlier `x`. */
  lemma FirstIndexUnique<T>(s: seq<T>, x: T, i: nat)
    requires i < |s| && s[i] == x && x !in s[..i]
    ensures FirstIndex(s, x) == i
  {
    var j := FirstIndex(s, x);
    assert forall k :: 0 <= k < i ==> s[..i][k] == s[k];
    assert forall k :: 0 <= k < j ==> s[..j][k] == s[k];
  }

  /** Appending elements does not move the first occurrence of an element already present. */
  lemma FirstIndexAppend<T>(a: seq<T>, b: seq<T>, x: T)
    requires x in a
    ensures FirstIndex(a + b, x) == FirstIndex(a, x)
  {
    var i := FirstIndex(a, x);
    assert (a + b)[..i] == a[..i];
    FirstIndexUnique(a + b, x, i);
  }

  /**
   * First-seen order: the output lists the distinct elements of the input
   * sorted by the position where each first occurs.
   */
  lemma {:induction false} DedupFirstSeenOrder<T>(s: seq<T>, p: nat, q: nat)
    requires p < q < |Dedup(s)|
    ensures Dedup(s)[p] in s && Dedup(s)[q] in s
    ensures FirstIndex(s, Dedup(s)[p]) < FirstIndex(s, Dedup(s)[q])
  {
    var d := Dedup(s);
    DedupItems(s);
    assert d[p] in d && d[q] in d;
    var f := s[..|s| - 1];
    var last := s[|s| - 1];
    assert s == f + [last];
    var d' := Dedup(f);
    DedupItems(f);
    assert d'[..] == d[..|d'|];
    if q < |d'| {
      DedupFirstSeenOrder(f, p, q);
      FirstIndexAppend(f, [last], d[p]);
      FirstIndexAppend(f, [last], d[q]);
    } else {
      // d[q] is the last element, appended because it does not occur in f
      assert d == d' + [last] && d[q] == last && last !in f;
      assert d[p] == d'[p] && d[p] in d';
      FirstIndexAppend(f, [last], d[p]);
      FirstIndexUnique(s, last, |f|);
    }
  }

  /**
   * First-seen order relative to a prefix `a` of the input: an element
   * already seen in `a` is output before one that first occurs after `a`.
   */
  lemma DedupPrefixFirst<T>(a: seq<T>, s: seq<T>, p: nat, q: nat)
    requires a <= s
    requires p < |Dedup(s)| && q < |Dedup(s)|
    requires Dedup(s)[p] in a && Dedup(s)[q] !in a
    ensures p < q
  {
    var d := Dedup(s);
    DedupItems(s);
    assert d[p] in d && d[q] in d;
    assert s == a + s[|a|..];
    FirstIndexAppend(a, s[|a|..], d[p]);
    assert FirstIndex(s, d[q]) >= |a| by {
      assert forall k :: 0 <= k < |a| ==> s[k] == a[k];
    }
    if q < p {
      DedupFirstSeenOrder(s, q, p);
    }
  }

  /** Processing more input never reorders or drops what is already in the output. */
  lemma {:induction false} DedupPrefix<T>(s: seq<T>, t: seq<T>)
    ensures Dedup(s) <= Dedup(s + t)
    decreases |t|
  {
    if t != [] {
      var t' := t[..|t| - 1];
      assert (s + t)[..|s + t| - 1] == s + t';
      DedupPrefix(s, t');
    } else {
      assert s + t == s;
    }
  }

  /** Deduplicating a prefix yields a prefix of the deduplicated whole. */
  lemma DedupMonotone<T>(s: seq<T>, t: seq<T>)
    requires s <= t
    ensures Dedup(s) <= Dedup(t)
  {
    assert t == s + t[|s|..];
    DedupPrefix(s, t[|s|..]);
  }

  /** A sequence that already has no duplicates is left unchanged. */
  lemma {:induction false} DedupOfDistinct<T>(s: seq<T>)
    requires Distinct(s)
    ensures Dedup(s) == s
  {
    if s != [] {
      var f := s[..|s| - 1];
      assert Distinct(f);
      DedupOfDistinct(f);
      assert forall k :: 0 <= k < |f| ==> f[k] == s[k] != s[|s| - 1];
      assert s == f + [s[|s| - 1]];
    }
  }

  /** Deduplicating twice is the same as deduplicating once. */
  lemma DedupIdempotent<T>(s: seq<T>)
    ensures Dedup(Dedup(s)) == Dedup(s)
  {
    DedupItems(s);
    DedupOfDistinct(Dedup(s));
  }

  /** A duplicate-free sequence has as many elements as the set of its elements. */
  lemma {:induction false} DistinctCardinality<T>(s: seq<T>)
    requires Distinct(s)
    ensures |(set x | x in s)| == |s|
  {
    if s != [] {
      var f := s[..|s| - 1];
      var last := s[|s| - 1];
      assert Distinct(f);
      DistinctCardinality(f);
      assert forall k :: 0 <= k < |f| ==> f[k] == s[k] != last;
      assert s == f + [last];
      assert (set x | x in s) == (set x | x in f) + {last};
    }
  }
}
