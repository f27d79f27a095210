/**
 * PHP arrays as the client uses them: ordered dictionaries from string keys
 * to scalars or nested arrays. An array is an association list whose order
 * is the insertion order; a well-formed array has each key once, at every
 * nesting level.
 */
module PhpArray {
  import opened PhpString

  datatype Option<T> = None | Some(value: T)

  /** A parameter value: a string, an integer, a boolean or a nested array. */
  datatype Value = Str(s: string) | Int(i: int) | Bool(b: bool) | Arr(entries: seq<(string, Value)>)

  type Entry = (string, Value)

  function Keys(es: seq<Entry>): (ks: seq<string>)
    ensures |ks| == |es|
    ensures forall i :: 0 <= i < |es| ==> ks[i] == es[i].0
  {
    seq(|es|, i requires 0 <= i < |es| => es[i].0)
  }

  predicate HasKey(es: seq<Entry>, k: string) {
    k in Keys(es)
  }

  predicate UniqueKeys(es: seq<Entry>) {
    forall i, j :: 0 <= i < j < |es| ==> es[i].0 != es[j].0
  }

  /** Unique keys at every nesting level. */
  ghost predicate Wf(v: Value)
    decreases v
  {
    match v
    case Arr(es) => UniqueKeys(es) && forall i :: 0 <= i < |es| ==> Wf(es[i].1)
    case _ => true
  }

  ghost predicate WfEntries(es: seq<Entry>) {
    Wf(Arr(es))
  }

  /** `$array[$k]`: the value stored under `k`, if any. */
  function Lookup(es: seq<Entry>, k: string): (r: Option<Value>)
    ensures r.None? <==> !HasKey(es, k)
    ensures r.Some? ==> (k, r.value) in es
  {
    if es == [] then None
    else if es[0].0 == k then Some(es[0].1)
    else
      var r := Lookup(es[1..], k);
      assert forall i :: 1 <= i < |es| ==> es[i] == es[1..][i - 1];
      r
  }

  /** With unique keys, looking a key up finds exactly the entry stored under it. */
  lemma {:induction false} LookupExactly(es: seq<Entry>, k: string, v: Value)
    requires UniqueKeys(es)
    ensures Lookup(es, k) == Some(v) <==> (k, v) in es
  {
    if es != [] && es[0].0 != k {
      LookupExactly(es[1..], k, v);
    }
  }

  /**
   * `$array[$k] = $v`: the key now holds `v` and every other key keeps its
   * value (see PutKeys for where the entry goes).
   */
  function Put(es: seq<Entry>, k: string, v: Value): (r: seq<Entry>)
    ensures forall x :: Lookup(r, x) == if x == k then Some(v) else Lookup(es, x)
  {
    if es == [] then [(k, v)]
    else if es[0].0 == k then [(k, v)] + es[1..]
    else [es[0]] + Put(es[1..], k, v)
  }

  /** The keys of an array are its first key followed by the keys of the rest. */
  lemma KeysCons(es: seq<Entry>)
    requires es != []
    ensures Keys(es) == [es[0].0] + Keys(es[1..])
  {
  }

  /** Writing an existing key keeps the key sequence. */
  lemma {:induction false} PutKeysPresent(es: seq<Entry>, k: string, v: Value)
    requires HasKey(es, k)
    ensures Keys(Put(es, k, v)) == Keys(es)
  {
    var r := Put(es, k, v);
    KeysCons(es);
    KeysCons(r);
    if es[0].0 != k {
      PutKeysPresent(es[1..], k, v);
    }
  }

  /** Writing a new key appends it. */
  lemma {:induction false} PutKeysAbsent(es: seq<Entry>, k: string, v: Value)
    requires !HasKey(es, k)
    ensures Keys(Put(es, k, v)) == Keys(es) + [k]
  {
    if es != [] {
      KeysCons(es);
      KeysCons(Put(es, k, v));
      PutKeysAbsent(es[1..], k, v);
    }
  }

  /** An existing key keeps its position; a new key is appended. */
  lemma PutKeys(es: seq<Entry>, k: string, v: Value)
    ensures Keys(Put(es, k, v)) == if HasKey(es, k) then Keys(es) else Keys(es) + [k]
  {
    if HasKey(es, k) {
      PutKeysPresent(es, k, v);
    } else {
      PutKeysAbsent(es, k, v);
    }
  }

  /** Writing a well-formed value into a well-formed array keeps it well-formed. */
  lemma {:induction false} PutWf(es: seq<Entry>, k: string, v: Value)
    requires WfEntries(es) && Wf(v)
    ensures WfEntries(Put(es, k, v))
  {
    var r := Put(es, k, v);
    PutKeys(es, k, v);
    if !HasKey(es, k) {
      assert Keys(r)[..|es|] == Keys(es);
    }
    assert UniqueKeys(r) by {
      forall i, j | 0 <= i < j < |r| ensures r[i].0 != r[j].0 {
        assert r[i].0 == Keys(r)[i] && r[j].0 == Keys(r)[j];
      }
    }
    forall i | 0 <= i < |r| ensures Wf(r[i].1) {
      var x := r[i].0;
      assert r[i].0 == Keys(r)[i];
      LookupExactly(r, x, r[i].1);
      if x != k {
        assert Lookup(es, x) == Some(r[i].1);
        var j :| 0 <= j < |es| && es[j] == (x, r[i].1);
      }
    }
  }

  /** `unset($array[$k])`: drops the entry under `k`, keeping the others in order. */
  function Remove(es: seq<Entry>, k: string): (r: seq<Entry>)
    ensures forall x :: Lookup(r, x) == if x == k then None else Lookup(es, x)
    ensures forall e :: e in r <==> e in es && e.0 != k
    ensures !HasKey(es, k) ==> r == es
  {
    if es == [] then []
    else
      var tail := Remove(es[1..], k);
      if es[0].0 == k then tail else [es[0]] + tail
  }

  /** Putting an entry with a fresh key in front keeps the keys unique. */
  lemma ConsUnique(e: Entry, s: seq<Entry>)
    requires UniqueKeys(s) && forall j :: 0 <= j < |s| ==> e.0 != s[j].0
    ensures UniqueKeys([e] + s)
  {
    var r := [e] + s;
    forall i, j | 0 <= i < j < |r| ensures r[i].0 != r[j].0 {
      assert r[j] == s[j - 1];
      if i > 0 { assert r[i] == s[i - 1]; }
    }
  }

  /**
   * With unique keys, `unset` cuts out exactly the one entry under `k` and
   * keeps the entries before and after it in their order.
   */
  lemma {:induction false} RemoveKeepsOrder(es: seq<Entry>, k: string)
    requires UniqueKeys(es) && HasKey(es, k)
    ensures exists i :: 0 <= i < |es| && es[i].0 == k && Remove(es, k) == es[..i] + es[i + 1..]
  {
    var tail := es[1..];
    KeysCons(es);
    if es[0].0 == k {
      assert !HasKey(tail, k);
      assert es[..0] + es[1..] == tail;
    } else {
      RemoveKeepsOrder(tail, k);
      var i :| 0 <= i < |tail| && tail[i].0 == k && Remove(tail, k) == tail[..i] + tail[i + 1..];
      assert Remove(es, k) == [es[0]] + (tail[..i] + tail[i + 1..]);
      CutAfterHead(es, i);
    }
  }

  /** Cutting index `i + 1` out of `s` is cutting index `i` out of its tail. */
  lemma CutAfterHead<T>(s: seq<T>, i: nat)
    requires i + 1 < |s|
    ensures [s[0]] + (s[1..][..i] + s[1..][i + 1..]) == s[..i + 1] + s[i + 2..]
  {
    assert s[..i + 1] == [s[0]] + s[1..][..i];
    assert s[i + 2..] == s[1..][i + 1..];
  }

  /** Removing an entry keeps the keys unique. */
  lemma {:induction false} RemoveUnique(es: seq<Entry>, k: string)
    requires UniqueKeys(es)
    ensures UniqueKeys(Remove(es, k))
  {
    if es != [] {
      var tail := es[1..];
      RemoveUnique(tail, k);
      var rt := Remove(tail, k);
      if es[0].0 != k {
        forall j | 0 <= j < |rt| ensures es[0].0 != rt[j].0 {
          assert rt[j] in tail;
        }
        ConsUnique(es[0], rt);
      }
    }
  }

  /** Removing an entry keeps an array well-formed. */
  lemma RemoveWf(es: seq<Entry>, k: string)
    requires WfEntries(es)
    ensures WfEntries(Remove(es, k))
  {
    var r := Remove(es, k);
    RemoveUnique(es, k);
    forall i | 0 <= i < |r| ensures Wf(r[i].1) {
      assert r[i] in es;
    }
  }

  /**
   * `array_merge($a, $b)` for string keys: every entry of `b` is written
   * into `a` in order, so `b` wins on shared keys and every other key of
   * `a` keeps its value.
   */
  function Merge(a: seq<Entry>, b: seq<Entry>): (r: seq<Entry>)
    ensures UniqueKeys(b) ==> forall x :: Lookup(r, x) == if HasKey(b, x) then Lookup(b, x) else Lookup(a, x)
    decreases |b|
  {
    if b == [] then a
    else
      assert Keys(b) == [b[0].0] + Keys(b[1..]);
      Merge(Put(a, b[0].0, b[0].1), b[1..])
  }

  /** The keys of `a` keep their positions; new keys follow them. */
  lemma {:induction false} MergeKeys(a: seq<Entry>, b: seq<Entry>)
    ensures |a| <= |Merge(a, b)| && Keys(Merge(a, b))[..|a|] == Keys(a)
    decreases |b|
  {
    if b != [] {
      var p := Put(a, b[0].0, b[0].1);
      PutKeys(a, b[0].0, b[0].1);
      MergeKeys(p, b[1..]);
      assert Keys(p)[..|a|] == Keys(a);
    }
  }

  /** The keys of `b` that are not in `ks`, in the order of `b`. */
  function FreshKeys(ks: seq<string>, b: seq<Entry>): (r: seq<string>)
    ensures forall x :: x in r ==> x !in ks
  {
    if b == [] then []
    else (if b[0].0 in ks then [] else [b[0].0]) + FreshKeys(ks, b[1..])
  }

  /** A key that `b` does not hold makes no difference to its fresh keys. */
  lemma {:induction false} FreshKeysExtend(ks: seq<string>, x: string, b: seq<Entry>)
    requires !HasKey(b, x)
    ensures FreshKeys(ks + [x], b) == FreshKeys(ks, b)
  {
    if b != [] {
      KeysCons(b);
      FreshKeysExtend(ks, x, b[1..]);
    }
  }

  /**
   * `array_merge` of an array with unique keys appends the keys of `b` that
   * `a` lacks, in the order they have in `b`.
   */
  lemma {:induction false} MergeKeysTail(a: seq<Entry>, b: seq<Entry>)
    requires UniqueKeys(b)
    ensures Keys(Merge(a, b)) == Keys(a) + FreshKeys(Keys(a), b)
    decreases |b|
  {
    if b != [] {
      var x := b[0].0;
      var p := Put(a, x, b[0].1);
      var tail := b[1..];
      KeysCons(b);
      assert UniqueKeys(tail);
      assert !HasKey(tail, x);
      assert Merge(a, b) == Merge(p, tail);
      PutKeys(a, x, b[0].1);
      MergeKeysTail(p, tail);
      if x in Keys(a) {
        assert FreshKeys(Keys(a), b) == [] + FreshKeys(Keys(a), tail);
        assert [] + FreshKeys(Keys(a), tail) == FreshKeys(Keys(a), tail);
      } else {
        assert FreshKeys(Keys(a), b) == [x] + FreshKeys(Keys(a), tail);
        FreshKeysExtend(Keys(a), x, tail);
        AppendAssoc(Keys(a), [x], FreshKeys(Keys(a), tail));
      }
    }
  }

  /** Concatenation regroups freely. */
  lemma AppendAssoc<T>(s: seq<T>, t: seq<T>, u: seq<T>)
    ensures (s + t) + u == s + (t + u)
  {
  }

  /** Merging two well-formed arrays gives a well-formed array. */
  lemma {:induction false} MergeWf(a: seq<Entry>, b: seq<Entry>)
    requires WfEntries(a) && WfEntries(b)
    ensures WfEntries(Merge(a, b))
    decreases |b|
  {
    if b != [] {
      assert WfEntries(b[1..]) && Wf(b[0].1) by {
        assert forall i :: 0 <= i < |b[1..]| ==> b[1..][i] == b[i + 1];
      }
      PutWf(a, b[0].0, b[0].1);
      MergeWf(Put(a, b[0].0, b[0].1), b[1..]);
    }
  }

  /**
   * The text PHP produces when a value is concatenated with `.`: `true` is
   * "1", `false` is "", an array is "Array".
   */
  function Stringify(v: Value): (r: string)
    ensures v.Str? ==> r == v.s
    ensures v.Arr? ==> r == "Array"
  {
    match v
    case Str(s) => s
    case Int(i) => IntToString(i)
    case Bool(b) => if b then "1" else ""
    case Arr(_) => "Array"
  }
}
