/**
 * The SDK client object (src/client.php:9-197): a parameter store with a
 * reset rule, and `get`/`post`, which stamp the time, sign, merge the
 * system fields, dispatch through the transport and keep the body of a 200
 * response.
 *
 * The HTTP client is a function argument from request to response, and the
 * clock is the argument `now`.
 */
module SdkClient {
  import opened PhpString
  import opened PhpArray
  import opened KeySort
  import opened Signing

  datatype Mode = GET | POST

  datatype Request = HttpGet(url: string) | HttpPost(url: string, form: seq<Entry>)

  datatype Response = Response(status: int, body: string)

  /** PHP truthiness of the stored body: null, "" and "0" are false. */
  predicate Truthy(data: Option<string>) {
    data.Some? && data.value != "" && data.value != "0"
  }

  /** The fields `send` writes into the parameters (src/client.php:119-124). */
  function SystemFields(c: Config, sign: string, ts: nat): (r: seq<Entry>)
    ensures UniqueKeys(r) && WfEntries(r)
    ensures forall i :: 0 <= i < |r| ==> r[i].0 in SystemKeys
  {
    var r := [("key", Str(c.key)), ("sign", Str(sign)), ("ts", Int(ts)), ("debug", Bool(c.debug))];
    assert Wf(r[0].1) && Wf(r[1].1) && Wf(r[2].1) && Wf(r[3].1);
    r
  }

  /**
   * After the merge of `send` the system keys hold the system values and
   * every other key keeps its value.
   */
  lemma SystemFieldsOverride(params: seq<Entry>, c: Config, sign: string, ts: nat)
    ensures var r := Merge(params, SystemFields(c, sign, ts));
      && Lookup(r, "key") == Some(Str(c.key))
      && Lookup(r, "sign") == Some(Str(sign))
      && Lookup(r, "ts") == Some(Int(ts))
      && Lookup(r, "debug") == Some(Bool(c.debug))
      && forall x :: x !in SystemKeys ==> Lookup(r, x) == Lookup(params, x)
  {
    var sys := SystemFields(c, sign, ts);
    assert Keys(sys) == ["key", "sign", "ts", "debug"];
    assert sys[0] == ("key", Str(c.key));
    assert sys[1..][0] == ("sign", Str(sign));
    assert sys[2..][0] == ("ts", Int(ts));
    assert sys[3..][0] == ("debug", Bool(c.debug));
  }

  /**
   * Signing again after a `send` gives what signing the caller's parameters
   * gives: the system fields that `send` left behind are not signed.
   */
  lemma ResignIgnoresLeftovers(h: Hashes, c: Config, params: seq<Entry>, sign: string, ts: nat, ts': nat)
    ensures Sign(h, c, Merge(params, SystemFields(c, sign, ts)), ts') == Sign(h, c, params, ts')
  {
    SignIgnoresSystemFields(h, c, params, ts', SystemFields(c, sign, ts));
  }

  class Client {
    const config: Config
    const hashes: Hashes
    /** `_params`: the request parameters, in insertion order. */
    var params: seq<Entry>
    /** `_data`: the body of the last 200 response, or null. */
    var data: Option<string>
    /** `_url`: the URL of the last request, or null. */
    var url: Option<string>
    /** `_ts`: the timestamp of the last request, or null. */
    var ts: Option<nat>

    /** `_params` is a PHP array: each key once, at every level. */
    ghost predicate Valid()
      reads this
    {
      WfEntries(params)
    }

    constructor (config: Config, hashes: Hashes)
      ensures Valid()
      ensures this.config == config && this.hashes == hashes
      ensures params == [] && data == None && url == None && ts == None
    {
      this.config := config;
      this.hashes := hashes;
      params := [];
      data := None;
      url := None;
      ts := None;
    }

    /** `__get`: the value under `name`, null when it is not set. */
    method GetParam(name: string) returns (v: Option<Value>)
      ensures v.None? <==> !HasKey(params, name)
      ensures v.Some? ==> (name, v.value) in params
    {
      v := Lookup(params, name);
    }

    /**
     * `__set`: stores the trimmed value under `name`; the first assignment
     * after a response was stored wipes all parameters and the body first.
     */
    method SetParam(name: string, value: string)
      requires Valid()
      modifies this`params, this`data
      ensures Valid()
      ensures Truthy(old(data)) ==> params == [(name, Str(Trim(value)))] && data == None
      ensures !Truthy(old(data)) ==> params == Put(old(params), name, Str(Trim(value))) && data == old(data)
    {
      var v := Str(Trim(value));
      if Truthy(data) {
        params := [];
        data := None;
        assert Put(params, name, v) == [(name, v)];
      }
      PutWf(params, name, v);
      params := Put(params, name, v);
    }

    /** `__unset`: drops `name` and nothing else. */
    method UnsetParam(name: string)
      requires Valid()
      modifies this`params
      ensures Valid()
      ensures params == Remove(old(params), name)
    {
      RemoveWf(params, name);
      params := Remove(params, name);
    }

    /** `getParams`. */
    method GetParams() returns (p: seq<Entry>)
      ensures p == params
    {
      p := params;
    }

    /**
     * `setParams`: merges an array into the parameters with `array_merge`;
     * anything but an array is ignored. The stored body is never cleared.
     */
    method SetParams(arg: Value)
      requires Valid() && Wf(arg)
      modifies this`params
      ensures Valid()
      ensures params == if arg.Arr? then Merge(old(params), arg.entries) else old(params)
    {
      if arg.Arr? {
        MergeWf(params, arg.entries);
        params := Merge(params, arg.entries);
      }
    }

    /** `getUrl`. */
    method GetUrl() returns (u: Option<string>)
      ensures u == url
    {
      u := url;
    }

    /**
     * `createSign`: collects the unreserved parameters with a loop,
     * deep-sorts them, digests their query string, and digests the
     * concatenation with the credentials, `api` and the timestamp.
     */
    method CreateSign() returns (sign: string)
      requires ts.Some?
      ensures sign == Sign(hashes, config, params, ts.value)
    {
      var signable: seq<Entry> := [];
      var i := 0;
      while i < |params|
        invariant 0 <= i <= |params|
        invariant signable == Signable(params[..i])
      {
        var e := params[i];
        assert params[..i + 1] == params[..i] + [e];
        SignableConcat(params[..i], [e]);
        if e.0 !in ReservedKeys {
          signable := signable + [e];
        }
        i := i + 1;
      }
      assert params[..i] == params;
      var sorted := DeepKsort(signable);
      var digest := hashes.md5(hashes.buildQuery(sorted));
      sign := hashes.md5(config.prefix + config.key + config.secret + ApiText(params) + NatToString(ts.value) + digest);
    }

    /**
     * `send`: stamps the time, signs the parameters as they stand, merges
     * the system fields into them, builds the URL (with the query string
     * for GET), dispatches, and keeps the body only on status 200.
     */
    method Send(mode: Mode, now: nat, transport: Request -> Response)
      requires Valid()
      modifies this`ts, this`params, this`url, this`data
      ensures Valid()
      ensures ts == Some(now)
      ensures params == Merge(old(params), SystemFields(config, Sign(hashes, config, old(params), now), now))
      ensures url == Some(if mode == GET then config.url + "?" + hashes.buildQuery(params) else config.url)
      ensures var request := if mode == GET then HttpGet(url.value) else HttpPost(config.url, params);
        data == if transport(request).status == 200 then Some(transport(request).body) else old(data)
    {
      ts := Some(now);
      var sign := CreateSign();
      var sys := SystemFields(config, sign, now);
      MergeWf(params, sys);
      var merged := Merge(params, sys);
      var target := if mode == GET then config.url + "?" + hashes.buildQuery(merged) else config.url;
      var request := if mode == GET then HttpGet(target) else HttpPost(target, merged);
      var response := transport(request);
      params, url := merged, Some(target);
      if response.status == 200 {
        data := Some(response.body);
      }
    }

    /** `get`: sends with GET and returns the stored body. */
    method Get(now: nat, transport: Request -> Response) returns (body: Option<string>)
      requires Valid()
      modifies this`ts, this`params, this`url, this`data
      ensures Valid()
      ensures ts == Some(now)
      ensures params == Merge(old(params), SystemFields(config, Sign(hashes, config, old(params), now), now))
      ensures url == Some(config.url + "?" + hashes.buildQuery(params))
      ensures var response := transport(HttpGet(url.value));
        data == if response.status == 200 then Some(response.body) else old(data)
      ensures body == data
    {
      Send(GET, now, transport);
      body := data;
    }

    /** `post`: sends with POST and returns the stored body. */
    method Post(now: nat, transport: Request -> Response) returns (body: Option<string>)
      requires Valid()
      modifies this`ts, this`params, this`url, this`data
      ensures Valid()
      ensures ts == Some(now)
      ensures params == Merge(old(params), SystemFields(config, Sign(hashes, config, old(params), now), now))
      ensures url == Some(config.url)
      ensures var response := transport(HttpPost(config.url, params));
        data == if response.status == 200 then Some(response.body) else old(data)
      ensures body == data
    {
      Send(POST, now, transport);
      body := data;
    }
  }

  /**
   * A session: a successful GET stores its body, a failing POST keeps it,
   * and the next assignment starts the parameters afresh.
   */
  method StaleBodyAndResetScenario(c: Config, h: Hashes, now: nat)
  {
    var client := new Client(c, h);
    client.SetParam("a", "1");
    var ok := (r: Request) => Response(200, "ok");
    var failing := (r: Request) => Response(500, "error");
    var body := client.Get(now, ok);
    assert body == Some("ok");
    body := client.Post(now + 1, failing);
    assert body == Some("ok") && Truthy(client.data);
    client.SetParam("b", " 2 ");
    assert client.params == [("b", Str(Trim(" 2 ")))] && client.data == None;
  }
}
