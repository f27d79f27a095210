/**
 * `ksort` and the client's recursive `deepKsort` (src/client.php:166-175).
 * `ksort` reorders an array by key; `deepKsort` first sorts every nested
 * array, then the array itself. Keys are compared with `strcmp` order.
 */
module KeySort {
  import opened PhpString
  import opened PhpArray

  predicate Sorted(es: seq<Entry>) {
    forall i, j :: 0 <= i < j < |es| ==> LexLe(es[i].0, es[j].0)
  }

  /** Places `e` before the first entry whose key it does not exceed. */
  function Insert(e: Entry, s: seq<Entry>): (r: seq<Entry>)
    ensures multiset(r) == multiset(s) + multiset{e}
  {
    if s == [] then [e]
    else if LexLe(e.0, s[0].0) then [e] + s
    else
      assert s == [s[0]] + s[1..];
      [s[0]] + Insert(e, s[1..])
  }

  /** Inserting into a key-ordered array keeps it key-ordered. */
  lemma {:induction false} InsertSorted(e: Entry, s: seq<Entry>)
    requires Sorted(s)
    ensures Sorted(Insert(e, s))
  {
    if s != [] {
      if LexLe(e.0, s[0].0) {
        forall j | 0 <= j < |s| ensures LexLe(e.0, s[j].0) {
          if j > 0 {
            LexLeTransitive(e.0, s[0].0, s[j].0);
          }
        }
      } else {
        InsertSorted(e, s[1..]);
        LexLeTotal(e.0, s[0].0);
        var tail := Insert(e, s[1..]);
        assert s == [s[0]] + s[1..];
        forall x | x in tail ensures LexLe(s[0].0, x.0) {
          assert x in multiset(tail);
        }
        assert Insert(e, s) == [s[0]] + tail;
      }
    }
  }

  /** `ksort`: the same entries, in ascending key order. */
  function KSort(s: seq<Entry>): (r: seq<Entry>)
    ensures multiset(r) == multiset(s)
    ensures Sorted(r)
  {
    if s == [] then []
    else
      assert s == [s[0]] + s[1..];
      var t := KSort(s[1..]);
      InsertSorted(s[0], t);
      Insert(s[0], t)
  }

  /** Inserting an entry under a new key keeps the keys unique. */
  lemma {:induction false} InsertUnique(e: Entry, s: seq<Entry>)
    requires UniqueKeys(s) && !HasKey(s, e.0)
    ensures UniqueKeys(Insert(e, s))
  {
    if s != [] && !LexLe(e.0, s[0].0) {
      assert !HasKey(s[1..], e.0) by {
        assert forall i :: 0 <= i < |s[1..]| ==> Keys(s[1..])[i] == Keys(s)[i + 1];
      }
      InsertUnique(e, s[1..]);
      var tail := Insert(e, s[1..]);
      forall j | 0 <= j < |tail| ensures s[0].0 != tail[j].0 {
        assert tail[j] in multiset(tail);
        if tail[j] != e {
          assert tail[j] in s[1..];
        } else {
          assert s[0].0 == Keys(s)[0];
        }
      }
    }
  }

  /** `ksort` keeps the keys of an array unique. */
  lemma {:induction false} KSortUnique(s: seq<Entry>)
    requires UniqueKeys(s)
    ensures UniqueKeys(KSort(s))
  {
    if s != [] {
      KSortUnique(s[1..]);
      var t := KSort(s[1..]);
      assert !HasKey(t, s[0].0) by {
        forall j | 0 <= j < |t| ensures t[j].0 != s[0].0 {
          assert t[j] in multiset(s[1..]);
        }
      }
      InsertUnique(s[0], t);
    }
  }

  /** `ksort` leaves an array that is already in key order unchanged. */
  lemma {:induction false} KSortOfSorted(s: seq<Entry>)
    requires Sorted(s)
    ensures KSort(s) == s
  {
    if s != [] {
      KSortOfSorted(s[1..]);
      assert s == [s[0]] + s[1..];
    }
  }

  /**
   * Two key-ordered arrays with unique keys that hold the same entries are
   * the same array: there is only one sorted arrangement.
   */
  lemma {:induction false} SortedArrangementUnique(a: seq<Entry>, b: seq<Entry>)
    requires Sorted(a) && Sorted(b) && UniqueKeys(a) && UniqueKeys(b)
    requires forall e :: e in a <==> e in b
    ensures a == b
  {
    if b != [] {
      assert b[0] in b;
    }
    if a != [] {
      assert a[0] in a;
      var j :| 0 <= j < |b| && b[j] == a[0];
      assert b[0] in b;
      var i :| 0 <= i < |a| && a[i] == b[0];
      if i != 0 && j != 0 {
        LexLeAntisymmetric(a[0].0, b[0].0);
      }
      assert a[0] == b[0];
      forall e ensures e in a[1..] <==> e in b[1..] {
        if e in a[1..] {
          var k :| 0 <= k < |a[1..]| && a[1..][k] == e;
          assert e == a[k + 1] && e in a && e != a[0];
          var m :| 0 <= m < |b| && b[m] == e;
          assert b[1..][m - 1] == e;
        }
        if e in b[1..] {
          var k :| 0 <= k < |b[1..]| && b[1..][k] == e;
          assert e == b[k + 1] && e in b && e != b[0];
          var m :| 0 <= m < |a| && a[m] == e;
          assert a[1..][m - 1] == e;
        }
      }
      SortedArrangementUnique(a[1..], b[1..]);
      assert a == [a[0]] + a[1..];
      assert b == [b[0]] + b[1..];
    }
  }

  /** Every entry with its value deep-sorted, positions unchanged. */
  function SortChildren(es: seq<Entry>): (r: seq<Entry>)
    decreases Arr(es), 0
  {
    seq(|es|, i requires 0 <= i < |es| => (es[i].0, SortValue(es[i].1)))
  }

  /** The result of `deepKsort` on an array. */
  function DeepKsorted(es: seq<Entry>): (r: seq<Entry>)
    ensures multiset(r) == multiset(SortChildren(es))
    ensures Sorted(r)
    decreases Arr(es), 1
  {
    KSort(SortChildren(es))
  }

  /** A value with every array in it deep-sorted; scalars are left alone. */
  function SortValue(v: Value): (r: Value)
    ensures r.Arr? <==> v.Arr?
    ensures !v.Arr? ==> r == v
    ensures v.Arr? ==> |r.entries| == |v.entries|
    decreases v, 2
  {
    match v
    case Arr(es) =>
      var sorted := DeepKsorted(es);
      assert |sorted| == |multiset(sorted)| == |multiset(SortChildren(es))| == |es|;
      Arr(sorted)
    case _ => v
  }

  /**
   * `deepKsort($array)`: the `foreach` replaces each nested array by its
   * deep-sorted form in place, then `ksort` orders the outer array.
   */
  method DeepKsort(input: seq<Entry>) returns (r: seq<Entry>)
    ensures r == DeepKsorted(input)
    decreases Arr(input)
  {
    var a := input;
    var i := 0;
    while i < |a|
      invariant 0 <= i <= |a| == |input|
      invariant forall j :: 0 <= j < i ==> a[j] == (input[j].0, SortValue(input[j].1))
      invariant forall j :: i <= j < |a| ==> a[j] == input[j]
    {
      if a[i].1.Arr? {
        assert a[i].1 == Arr(a[i].1.entries);
        var nested := DeepKsort(a[i].1.entries);
        a := a[i := (a[i].0, Arr(nested))];
      }
      i := i + 1;
    }
    assert a == SortChildren(input);
    r := KSort(a);
  }

  /** In ascending key order at every nesting level. */
  ghost predicate DeepSorted(v: Value)
    decreases v
  {
    match v
    case Arr(es) => Sorted(es) && forall i :: 0 <= i < |es| ==> DeepSorted(es[i].1)
    case _ => true
  }

  /**
   * Holds the same entries up to order, at every nesting level: every entry
   * of one has an entry under the same key in the other whose value is the
   * same up to order, and scalars are equal.
   */
  ghost predicate SameUpToOrder(x: Value, y: Value)
    decreases x, 2
  {
    match x
    case Arr(a) => y.Arr? && SameEntries(a, y.entries)
    case _ => x == y
  }

  ghost predicate SameEntries(a: seq<Entry>, b: seq<Entry>)
    decreases Arr(a), 1
  {
    && (forall i :: 0 <= i < |a| ==> MatchedIn(a[i], b))
    && (forall j :: 0 <= j < |b| ==> MatchedBy(a, b[j]))
  }

  /** Some entry of `b` has the key of `e` and a value the same up to order. */
  ghost predicate MatchedIn(e: Entry, b: seq<Entry>)
    decreases e.1, 3
  {
    exists j :: 0 <= j < |b| && e.0 == b[j].0 && SameUpToOrder(e.1, b[j].1)
  }

  /** Some entry of `a` has the key of `e` and a value the same up to order. */
  ghost predicate MatchedBy(a: seq<Entry>, e: Entry)
    decreases Arr(a), 0
  {
    exists i :: 0 <= i < |a| && a[i].0 == e.0 && SameUpToOrder(a[i].1, e.1)
  }

  /** An entry of the sorted array is a child of the input with its value sorted. */
  lemma DeepKsortedEntry(es: seq<Entry>, e: Entry)
    requires e in DeepKsorted(es)
    ensures exists i :: 0 <= i < |es| && e == (es[i].0, SortValue(es[i].1))
  {
    assert e in multiset(SortChildren(es));
  }

  /** `deepKsort` leaves arrays in ascending key order at every level. */
  lemma {:induction false} SortValueDeepSorted(v: Value)
    ensures DeepSorted(SortValue(v))
    decreases v
  {
    if v.Arr? {
      var es := v.entries;
      var r := DeepKsorted(es);
      forall k | 0 <= k < |r| ensures DeepSorted(r[k].1) {
        DeepKsortedEntry(es, r[k]);
        var i :| 0 <= i < |es| && r[k] == (es[i].0, SortValue(es[i].1));
        SortValueDeepSorted(es[i].1);
      }
    }
  }

  /** `deepKsort` keeps the entries, at every level: only their order changes. */
  lemma {:induction false} SortValueSameEntries(v: Value)
    ensures SameUpToOrder(v, SortValue(v))
    decreases v
  {
    if v.Arr? {
      var es := v.entries;
      var c := SortChildren(es);
      var r := DeepKsorted(es);
      forall i | 0 <= i < |es| ensures MatchedIn(es[i], r) {
        SortValueSameEntries(es[i].1);
        assert c[i] in multiset(r);
        var j :| 0 <= j < |r| && r[j] == c[i];
        assert es[i].0 == r[j].0 && SameUpToOrder(es[i].1, r[j].1);
      }
      forall j | 0 <= j < |r| ensures MatchedBy(es, r[j]) {
        DeepKsortedEntry(es, r[j]);
        var i :| 0 <= i < |es| && r[j] == (es[i].0, SortValue(es[i].1));
        SortValueSameEntries(es[i].1);
        assert es[i].0 == r[j].0 && SameUpToOrder(es[i].1, r[j].1);
      }
      assert SameEntries(es, r);
    }
  }

  /** `deepKsort` keeps a well-formed value well-formed. */
  lemma {:induction false} SortValueWf(v: Value)
    requires Wf(v)
    ensures Wf(SortValue(v))
    decreases v
  {
    if v.Arr? {
      var es := v.entries;
      var c := SortChildren(es);
      assert UniqueKeys(c) by {
        assert forall i :: 0 <= i < |c| ==> c[i].0 == es[i].0;
      }
      KSortUnique(c);
      var r := DeepKsorted(es);
      forall k | 0 <= k < |r| ensures Wf(r[k].1) {
        DeepKsortedEntry(es, r[k]);
        var i :| 0 <= i < |es| && r[k] == (es[i].0, SortValue(es[i].1));
        SortValueWf(es[i].1);
      }
    }
  }

  /** A value already deep-sorted is its own deep-sorted form. */
  lemma {:induction false} DeepSortedFixed(v: Value)
    requires DeepSorted(v)
    ensures SortValue(v) == v
    decreases v
  {
    if v.Arr? {
      var es := v.entries;
      var c := SortChildren(es);
      forall i | 0 <= i < |es| ensures c[i] == es[i] {
        DeepSortedFixed(es[i].1);
      }
      assert c == es;
      KSortOfSorted(es);
    }
  }

  /** `deepKsort` is idempotent. */
  lemma SortValueIdempotent(v: Value)
    ensures SortValue(SortValue(v)) == SortValue(v)
  {
    SortValueDeepSorted(v);
    DeepSortedFixed(SortValue(v));
  }

  /** `ksort` neither adds nor drops an entry. */
  lemma KSortMembers(s: seq<Entry>)
    ensures forall e :: e in KSort(s) <==> e in s
  {
    var r := KSort(s);
    forall e ensures e in r <==> e in s {
      assert e in r <==> e in multiset(r);
      assert e in s <==> e in multiset(s);
    }
  }

  /**
   * Two arrays with unique keys holding the same entries, in whatever
   * order, come out of `ksort` identical.
   */
  lemma KSortCanonical(a: seq<Entry>, b: seq<Entry>)
    requires UniqueKeys(a) && UniqueKeys(b)
    requires forall e :: e in a <==> e in b
    ensures KSort(a) == KSort(b)
  {
    KSortUnique(a);
    KSortUnique(b);
    KSortMembers(a);
    KSortMembers(b);
    SortedArrangementUnique(KSort(a), KSort(b));
  }

  /**
   * Insertion order does not matter: two well-formed values with the same
   * entries at every level, in whatever order, deep-sort to the same value.
   */
  lemma {:induction false} SortValueCanonical(x: Value, y: Value)
    requires Wf(x) && Wf(y) && SameUpToOrder(x, y)
    ensures SortValue(x) == SortValue(y)
    decreases x, 2
  {
    if x.Arr? {
      var a, b := x.entries, y.entries;
      var ca, cb := SortChildren(a), SortChildren(b);
      SortedChildrenSameSet(a, b);
      assert UniqueKeys(ca) by {
        assert forall i :: 0 <= i < |ca| ==> ca[i].0 == a[i].0;
      }
      assert UniqueKeys(cb) by {
        assert forall j :: 0 <= j < |cb| ==> cb[j].0 == b[j].0;
      }
      KSortCanonical(ca, cb);
    }
  }

  /** Matching children deep-sort to the same entries. */
  lemma SortedChildrenSameSet(a: seq<Entry>, b: seq<Entry>)
    requires WfEntries(a) && WfEntries(b) && SameEntries(a, b)
    ensures forall e :: e in SortChildren(a) <==> e in SortChildren(b)
    decreases Arr(a), 1
  {
    var ca, cb := SortChildren(a), SortChildren(b);
    forall e | e in ca ensures e in cb {
      var i :| 0 <= i < |ca| && ca[i] == e;
      SortedChildIn(a, b, i);
    }
    forall e | e in cb ensures e in ca {
      var j :| 0 <= j < |cb| && cb[j] == e;
      SortedChildBy(a, b, j);
    }
  }

  lemma SortedChildIn(a: seq<Entry>, b: seq<Entry>, i: nat)
    requires WfEntries(a) && WfEntries(b) && i < |a| && MatchedIn(a[i], b)
    ensures SortChildren(a)[i] in SortChildren(b)
    decreases Arr(a), 0
  {
    var j :| 0 <= j < |b| && a[i].0 == b[j].0 && SameUpToOrder(a[i].1, b[j].1);
    SortValueCanonical(a[i].1, b[j].1);
    assert SortChildren(a)[i] == SortChildren(b)[j];
  }

  lemma SortedChildBy(a: seq<Entry>, b: seq<Entry>, j: nat)
    requires WfEntries(a) && WfEntries(b) && j < |b| && MatchedBy(a, b[j])
    ensures SortChildren(b)[j] in SortChildren(a)
    decreases Arr(a), 0
  {
    var i :| 0 <= i < |a| && a[i].0 == b[j].0 && SameUpToOrder(a[i].1, b[j].1);
    SortValueCanonical(a[i].1, b[j].1);
    assert SortChildren(a)[i] == SortChildren(b)[j];
  }
}
