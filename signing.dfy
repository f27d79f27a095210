/**
 * The request signature of `createSign` (src/client.php:145-158): drop the
 * five reserved keys, deep-sort what is left, query-encode and digest it,
 * then digest `prefix . key . secret . api . ts . digest`.
 *
 * MD5 and `http_build_query` are not modelled; they are carried as two
 * arbitrary deterministic functions in `Hashes`.
 */
module Signing {
  import opened PhpString
  import opened PhpArray
  import opened KeySort

  /** Keys that `createSign` never signs (src/client.php:149). */
  const ReservedKeys: set<string> := {"key", "api", "sign", "ts", "debug"}

  /** The keys `send` writes itself (src/client.php:119-124). */
  const SystemKeys: set<string> := {"key", "sign", "ts", "debug"}

  /** The constructor's `$config`. */
  datatype Config = Config(key: string, prefix: string, secret: string, url: string, debug: bool)

  /** `md5` and `http_build_query`, taken as given. */
  datatype Hashes = Hashes(md5: string -> string, buildQuery: seq<Entry> -> string)

  /** The signable parameters: every entry whose key is not reserved, in order. */
  function Signable(es: seq<Entry>): (r: seq<Entry>)
    ensures forall e :: e in r <==> e in es && e.0 !in ReservedKeys
  {
    if es == [] then []
    else
      var tail := Signable(es[1..]);
      assert es == [es[0]] + es[1..];
      if es[0].0 in ReservedKeys then tail else [es[0]] + tail
  }

  /** Filtering one piece after another is filtering the whole. */
  lemma {:induction false} SignableConcat(a: seq<Entry>, b: seq<Entry>)
    ensures Signable(a + b) == Signable(a) + Signable(b)
  {
    if a == [] {
      assert a + b == b;
    } else {
      var ab := a + b;
      assert ab != [] && ab[0] == a[0] && ab[1..] == a[1..] + b;
      SignableConcat(a[1..], b);
      if a[0].0 !in ReservedKeys {
        calc {
          Signable(ab);
          [a[0]] + Signable(a[1..] + b);
          [a[0]] + (Signable(a[1..]) + Signable(b));
          ([a[0]] + Signable(a[1..])) + Signable(b);
        }
      }
    }
  }

  /** Signable values are the caller's values, looked up under a non-reserved key. */
  lemma SignableLookup(es: seq<Entry>, k: string)
    requires UniqueKeys(es)
    ensures Lookup(Signable(es), k) == if k in ReservedKeys then None else Lookup(es, k)
  {
    var s := Signable(es);
    SignableUnique(es);
    if Lookup(s, k).Some? {
      LookupExactly(s, k, Lookup(s, k).value);
      LookupExactly(es, k, Lookup(s, k).value);
    }
    if Lookup(es, k).Some? {
      LookupExactly(es, k, Lookup(es, k).value);
    }
  }

  /** Filtering keeps the keys unique. */
  lemma {:induction false} SignableUnique(es: seq<Entry>)
    requires UniqueKeys(es)
    ensures UniqueKeys(Signable(es))
  {
    if es != [] {
      var tail := es[1..];
      SignableUnique(tail);
      var st := Signable(tail);
      if es[0].0 !in ReservedKeys {
        forall j | 0 <= j < |st| ensures es[0].0 != st[j].0 {
          assert st[j] in tail;
        }
        ConsUnique(es[0], st);
      }
    }
  }

  /** Filtering keeps an array well-formed. */
  lemma SignableWf(es: seq<Entry>)
    requires WfEntries(es)
    ensures WfEntries(Signable(es))
  {
    var r := Signable(es);
    SignableUnique(es);
    forall i | 0 <= i < |r| ensures Wf(r[i].1) {
      assert r[i] in es;
    }
  }

  /** Writing a reserved key changes nothing that is signed. */
  lemma {:induction false} SignablePutReserved(es: seq<Entry>, k: string, v: Value)
    requires k in ReservedKeys
    ensures Signable(Put(es, k, v)) == Signable(es)
  {
    if es != [] && es[0].0 != k {
      SignablePutReserved(es[1..], k, v);
      assert Put(es, k, v)[1..] == Put(es[1..], k, v);
    } else if es != [] {
      assert Put(es, k, v)[1..] == es[1..];
    }
  }

  /** The `api` parameter as `.` renders it; a missing `api` reads as null, i.e. "". */
  function ApiText(params: seq<Entry>): (r: string)
    ensures Lookup(params, "api").None? ==> r == ""
  {
    match Lookup(params, "api")
    case None => ""
    case Some(v) => Stringify(v)
  }

  /** The signature `createSign` returns for `params` at time `ts`. */
  function Sign(h: Hashes, c: Config, params: seq<Entry>, ts: nat): string {
    var digest := h.md5(h.buildQuery(DeepKsorted(Signable(params))));
    h.md5(c.prefix + c.key + c.secret + ApiText(params) + NatToString(ts) + digest)
  }

  /**
   * Pre-setting any of `key`, `sign`, `ts` or `debug` (for one, by a value
   * an earlier `send` left behind) does not change the signature.
   */
  lemma SignIgnoresSystemKey(h: Hashes, c: Config, params: seq<Entry>, ts: nat, k: string, v: Value)
    requires k in SystemKeys
    ensures Sign(h, c, Put(params, k, v), ts) == Sign(h, c, params, ts)
  {
    assert k != "api";
    SignablePutReserved(params, k, v);
    assert Lookup(Put(params, k, v), "api") == Lookup(params, "api");
  }

  /** Merging any number of system fields does not change the signature. */
  lemma {:induction false} SignIgnoresSystemFields(h: Hashes, c: Config, params: seq<Entry>, ts: nat, sys: seq<Entry>)
    requires forall i :: 0 <= i < |sys| ==> sys[i].0 in SystemKeys
    ensures Sign(h, c, Merge(params, sys), ts) == Sign(h, c, params, ts)
    decreases |sys|
  {
    if sys != [] {
      var p := Put(params, sys[0].0, sys[0].1);
      SignIgnoresSystemKey(h, c, params, ts, sys[0].0, sys[0].1);
      SignIgnoresSystemFields(h, c, p, ts, sys[1..]);
      assert Merge(params, sys) == Merge(p, sys[1..]);
    }
  }

  /** The same parameters in another order give the same `api` text. */
  lemma ApiTextSame(p: seq<Entry>, q: seq<Entry>)
    requires UniqueKeys(p) && UniqueKeys(q) && SameEntries(p, q)
    ensures ApiText(p) == ApiText(q)
  {
    if Lookup(p, "api").Some? {
      var v := Lookup(p, "api").value;
      LookupExactly(p, "api", v);
      var i :| 0 <= i < |p| && p[i] == ("api", v);
      assert MatchedIn(p[i], q);
      var j :| 0 <= j < |q| && p[i].0 == q[j].0 && SameUpToOrder(p[i].1, q[j].1);
      LookupExactly(q, "api", q[j].1);
      assert v.Arr? || v == q[j].1;
    }
  }

  /** Filtering both sides of a reordering leaves a reordering. */
  lemma SignableSameEntries(p: seq<Entry>, q: seq<Entry>)
    requires SameEntries(p, q)
    ensures SameEntries(Signable(p), Signable(q))
  {
    var sp, sq := Signable(p), Signable(q);
    forall i | 0 <= i < |sp| ensures MatchedIn(sp[i], sq) {
      SignableMatchedIn(p, q, sp[i]);
    }
    forall j | 0 <= j < |sq| ensures MatchedBy(sp, sq[j]) {
      SignableMatchedBy(p, q, sq[j]);
    }
  }

  lemma SignableMatchedIn(p: seq<Entry>, q: seq<Entry>, e: Entry)
    requires SameEntries(p, q) && e in Signable(p)
    ensures MatchedIn(e, Signable(q))
  {
    var sq := Signable(q);
    assert e in p;
    var k :| 0 <= k < |p| && p[k] == e;
    assert MatchedIn(p[k], q);
    var j :| 0 <= j < |q| && e.0 == q[j].0 && SameUpToOrder(e.1, q[j].1);
    assert q[j] in q && q[j].0 !in ReservedKeys;
    assert q[j] in sq;
  }

  lemma SignableMatchedBy(p: seq<Entry>, q: seq<Entry>, e: Entry)
    requires SameEntries(p, q) && e in Signable(q)
    ensures MatchedBy(Signable(p), e)
  {
    var sp := Signable(p);
    assert e in q;
    var k :| 0 <= k < |q| && q[k] == e;
    assert MatchedBy(p, q[k]);
    var i :| 0 <= i < |p| && p[i].0 == e.0 && SameUpToOrder(p[i].1, e.1);
    assert p[i] in p && p[i].0 !in ReservedKeys;
    assert p[i] in sp;
  }

  /**
   * The signature does not depend on the order in which the parameters,
   * or the entries of any nested array, were inserted.
   */
  lemma SignOrderIndependent(h: Hashes, c: Config, p: seq<Entry>, q: seq<Entry>, ts: nat)
    requires WfEntries(p) && WfEntries(q) && SameEntries(p, q)
    ensures Sign(h, c, p, ts) == Sign(h, c, q, ts)
  {
    ApiTextSame(p, q);
    SignableSameEntries(p, q);
    SignableWf(p);
    SignableWf(q);
    SortValueCanonical(Arr(Signable(p)), Arr(Signable(q)));
  }

  /** The worked example's parameters, filtered and deep-sorted. */
  lemma ExampleCanonicalForm()
    ensures DeepKsorted(Signable([("api", Str("ping")), ("foo", Str("b")), ("bar", Str("a"))]))
         == [("bar", Str("a")), ("foo", Str("b"))]
  {
    var p := [("api", Str("ping")), ("foo", Str("b")), ("bar", Str("a"))];
    var foo, bar := ("foo", Str("b")), ("bar", Str("a"));
    var s, last := [foo, bar], [bar];
    assert last[1..] == [];
    assert Signable(p) == s by {
      assert p[1..] == s;
      assert s[1..] == last;
      assert Signable(last) == last;
    }
    assert SortChildren(s) == s by {
      assert SortValue(foo.1) == foo.1 && SortValue(bar.1) == bar.1;
    }
    assert KSort(last) == last;
    assert !LexLe(foo.0, bar.0) by {
      assert foo.0[0] == 'f' && bar.0[0] == 'b';
    }
    assert Insert(foo, last) == last + Insert(foo, []);
    assert s[1..] == last;
    assert KSort(s) == Insert(foo, last);
  }

  /**
   * A worked signature: with prefix "P", key "K" and secret "S", the
   * parameters api=ping, foo=b, bar=a are signed as
   * md5("PKSping" . ts . md5(query(bar=a, foo=b))).
   */
  lemma SignExample(h: Hashes, ts: nat)
    ensures
      var c := Config("K", "P", "S", "http://x/", false);
      var p := [("api", Str("ping")), ("foo", Str("b")), ("bar", Str("a"))];
      Sign(h, c, p, ts) == h.md5("PKSping" + NatToString(ts) + h.md5(h.buildQuery([("bar", Str("a")), ("foo", Str("b"))])))
  {
    assert "P" + "K" + "S" + "ping" == "PKSping";
    var c := Config("K", "P", "S", "http://x/", false);
    var p := [("api", Str("ping")), ("foo", Str("b")), ("bar", Str("a"))];
    assert ApiText(p) == "ping" by {
      assert p[0].0 == "api";
    }
    assert DeepKsorted(Signable(p)) == [("bar", Str("a")), ("foo", Str("b"))] by {
      ExampleCanonicalForm();
    }
  }
}
