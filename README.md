# jzweb-sdk request-signing client, modelled in Dafny

This project models `jzweb\sdk\client`, the PHP client that signs and sends
requests to one remote API endpoint. It covers two parts.

- **The parameter store.** `_params` is an ordered PHP array.
  - `__set` trims the value before storing it. The first assignment after a
    response body was stored wipes all parameters and the body first. This
    applies only when the stored body is non-empty and is not "0".
  - `__unset` drops one key.
  - `setParams` merges an array with `array_merge`. It ignores anything that
    is not an array, and it never triggers the wipe.
  - `send` stamps `_ts` and merges the system fields `key`, `sign`, `ts` and
    `debug` into `_params`, where they stay. It builds `_url` and keeps the
    response body only when the status is 200.
- **The signature.**
  - The five reserved keys `key`, `api`, `sign`, `ts` and `debug` are dropped.
  - The rest is sorted by key at every nesting level (`deepKsort`), then
    query-encoded and digested.
  - The final signature is the digest of
    `prefix . key . secret . api . ts . digest`.

Modules:

- `PhpString` (`php_string.dfy`): the PHP string behaviour the client relies
  on. This is `trim`, the decimal text of an integer, and `strcmp` order.
- `PhpArray` (`php_array.dfy`): PHP arrays as association lists with unique
  keys. It has lookup, assignment, `unset`, `array_merge` and string
  conversion.
- `KeySort` (`ksort.dfy`): `ksort`, and `deepKsort` as a method with its
  loop, proved against the function `DeepKsorted`.
- `Signing` (`signing.dfy`): the reserved-key filter and the signature
  `Sign`.
- `SdkClient` (`client.dfy`): the class `Client` with the fields `params`,
  `data`, `url` and `ts`, and its methods.

MD5 and `http_build_query` are not modelled. They are the two fields of
`Signing.Hashes`, arbitrary deterministic functions that the client takes
at construction. The HTTP client is a function argument from `Request` to
`Response`. The clock is the argument `now` of `Get` and `Post`.

In two places the model follows the code as written:

- A missing `api` parameter is read as PHP's null. It enters the signature
  as the empty string, with no error.
- A non-200 response is absorbed: the stored body keeps its old value.

## Model

| member | source | states |
|---|---|---|
| PhpString.Trim | src/client.php:67 | the result is no longer than the input and neither starts nor ends with a `trim` character |
| PhpString.TrimIsMiddle | src/client.php:67 | the result is a contiguous middle part of the input, and everything cut from either end is a `trim` character |
| PhpString.TrimOfTrimmed | src/client.php:67 | `trim` leaves a string with no trim character at either end unchanged |
| PhpString.TrimIdempotent | src/client.php:67 | trimming twice gives the same string as trimming once |
| PhpString.NatToString | src/client.php:157 | the timestamp's text is a non-empty run of decimal digits with no leading zero |
| PhpString.DecimalRoundTrip | src/client.php:157 | the decimal text of the timestamp reads back as the timestamp |
| PhpString.NatToStringInjective | src/client.php:157 | two timestamps give the same text only when they are equal |
| PhpString.IntToString | src/client.php:157 | the text of a non-negative integer is its decimal digits, which read back as the integer; the text of a negative integer is "-" followed by the decimal digits of its magnitude |
| PhpString.IntToStringInjective | src/client.php:157 | two integers give the same text only when they are equal |
| PhpString.LexLe | src/client.php:173 | defines the key order of `ksort`: code-point-wise lexicographic order, with a proper prefix first; the three lemmas below prove it a total order |
| PhpString.LexLeTotal | src/client.php:173 | any two keys are comparable in `strcmp` order |
| PhpString.LexLeAntisymmetric | src/client.php:173 | two keys that each come no later than the other are equal |
| PhpString.LexLeTransitive | src/client.php:173 | key order is transitive |
| PhpArray.Lookup | src/client.php:51-54 | the lookup is null exactly when the key is absent, and otherwise it returns a value stored under that key |
| PhpArray.LookupExactly | src/client.php:53 | with unique keys, looking up `k` gives `v` exactly when the entry `(k, v)` is in the array |
| PhpArray.Put | src/client.php:67 | after assignment the key holds the new value and every other key keeps its value |
| PhpArray.PutKeys | src/client.php:67 | assignment keeps an existing key in its place and appends a new key at the end |
| PhpArray.PutKeysPresent | src/client.php:67 | assigning to an existing key leaves the key sequence unchanged |
| PhpArray.PutKeysAbsent | src/client.php:67 | assigning to a new key appends it after all existing keys |
| PhpArray.PutWf | src/client.php:67 | assignment keeps the keys unique at every level |
| PhpArray.Remove | src/client.php:76 | `unset` makes the key absent and every other key keeps its value; no entry is added; an absent key leaves the array unchanged |
| PhpArray.RemoveKeepsOrder | src/client.php:76 | with unique keys, `unset` of a present key cuts out exactly the one entry under that key and keeps every other entry in its order |
| PhpArray.RemoveUnique | src/client.php:76 | `unset` keeps the keys unique |
| PhpArray.RemoveWf | src/client.php:76 | `unset` keeps the keys unique at every level |
| PhpArray.Merge | src/client.php:97 | after `array_merge` each key of the second array holds that array's value, and every other key keeps the first array's value |
| PhpArray.MergeKeys | src/client.php:97 | `array_merge` keeps the first array's keys in their positions, at the front |
| PhpArray.FreshKeysExtend | src/client.php:97 | a key that the second array lacks does not change which of its keys are new |
| PhpArray.MergeKeysTail | src/client.php:97 | when the second array's keys are unique, the keys after `array_merge` are exactly the first array's keys followed by the second array's new keys, in the second array's order |
| PhpArray.MergeWf | src/client.php:97 | `array_merge` of two well-formed arrays is well-formed |
| PhpArray.Stringify | src/client.php:157 | a string value concatenates as itself and an array concatenates as "Array" |
| KeySort.Insert | src/client.php:173 | insertion adds exactly the new entry (as a multiset) |
| KeySort.InsertSorted | src/client.php:173 | inserting into a key-ordered array keeps it key-ordered |
| KeySort.InsertUnique | src/client.php:173 | inserting under a new key keeps the keys unique |
| KeySort.KSort | src/client.php:173 | `ksort` returns a permutation of its input in ascending key order |
| KeySort.KSortUnique | src/client.php:173 | `ksort` keeps the keys unique |
| KeySort.KSortOfSorted | src/client.php:173 | `ksort` leaves an array that is already in key order unchanged |
| KeySort.KSortMembers | src/client.php:173 | `ksort` neither adds nor drops an entry |
| KeySort.SortedArrangementUnique | src/client.php:173 | two key-ordered arrays with unique keys and the same entries are identical |
| KeySort.KSortCanonical | src/client.php:173 | two arrays with unique keys and the same entries in any order come out of `ksort` identical |
| KeySort.DeepKsorted | src/client.php:166-175 | `deepKsort` returns a key-ordered permutation of the entries, each with its value deep-sorted |
| KeySort.DeepKsort | src/client.php:166-175 | the loop that re-sorts each nested array in place, followed by `ksort`, computes `DeepKsorted` |
| KeySort.SortValue | src/client.php:169-170 | an array value is replaced by its deep-sorted form with the same number of entries; any other value is left alone |
| KeySort.DeepKsortedEntry | src/client.php:168-173 | each entry of the result is an input entry under the same key with its value deep-sorted |
| KeySort.SortValueDeepSorted | src/client.php:166-175 | the result is in ascending key order at every nesting level |
| KeySort.SortValueSameEntries | src/client.php:166-175 | the result holds the same entries as the input at every nesting level; only their order changes |
| KeySort.SortValueWf | src/client.php:166-175 | the result keeps the keys unique at every level |
| KeySort.DeepSortedFixed | src/client.php:166-175 | an input already in key order at every level is returned unchanged |
| KeySort.SortValueIdempotent | src/client.php:166-175 | `deepKsort` is idempotent |
| KeySort.SortValueCanonical | src/client.php:166-175 | two well-formed inputs with the same entries at every level, inserted in any order, give identical output |
| KeySort.SortedChildrenSameSet | src/client.php:168-172 | when two arrays match entry for entry, their deep-sorted children are the same set |
| KeySort.SortedChildIn | src/client.php:168-172 | a child of the first array, deep-sorted, is among the deep-sorted children of the second |
| KeySort.SortedChildBy | src/client.php:168-172 | a child of the second array, deep-sorted, is among the deep-sorted children of the first |
| Signing.Signable | src/client.php:147-152 | the signable set holds exactly the entries whose key is not `key`, `api`, `sign`, `ts` or `debug`, with their values unchanged |
| Signing.SignableConcat | src/client.php:148-152 | filtering the parameters piece by piece, as the `foreach` does, gives the filter of the whole |
| Signing.SignableLookup | src/client.php:147-152 | a reserved key is absent from the signable set; any other key has the caller's value there |
| Signing.SignableUnique | src/client.php:147-152 | filtering keeps the keys unique |
| Signing.SignableWf | src/client.php:147-152 | the signable set of a well-formed array keeps the keys unique at every level |
| Signing.SignablePutReserved | src/client.php:149 | writing a reserved key does not change the signable set |
| Signing.ApiText | src/client.php:157 | a missing `api` parameter contributes the empty string |
| Signing.Sign | src/client.php:154-157 | defines the signature as md5(prefix . key . secret . api . ts . md5(query(deep-sorted signable parameters))); `SignExample` and `SignOrderIndependent` state its properties |
| Signing.SignIgnoresSystemKey | src/client.php:119-124 | pre-setting `key`, `sign`, `ts` or `debug` to any value does not change the signature |
| Signing.SignIgnoresSystemFields | src/client.php:125 | merging any number of `key`/`sign`/`ts`/`debug` entries does not change the signature |
| Signing.ApiTextSame | src/client.php:157 | two parameter sets with the same entries in different order give the same `api` text |
| Signing.SignableSameEntries | src/client.php:147-152 | filtering two parameter sets that hold the same entries in different orders leaves two sets that still do |
| Signing.SignableMatchedIn | src/client.php:147-152 | a signable entry of the first set is matched by a signable entry of the second |
| Signing.SignableMatchedBy | src/client.php:147-152 | a signable entry of the second set is matched by a signable entry of the first |
| Signing.SignOrderIndependent | src/client.php:147-157 | the signature does not depend on insertion order, at any nesting level |
| Signing.ExampleCanonicalForm | src/client.php:147-155 | for api=ping, foo=b, bar=a the canonical signable array is [bar=a, foo=b] |
| Signing.SignExample | src/client.php:154-157 | for prefix P, key K, secret S and those parameters, the signature is md5("PKSping" . ts . md5(query(bar=a, foo=b))); this shows the exact concatenation order |
| SdkClient.Truthy | src/client.php:63 | defines PHP truthiness of the stored body: null, "" and "0" are false, and every other string is true |
| SdkClient.SystemFields | src/client.php:119-124 | the system fields have unique keys, and every one of them is `key`, `sign`, `ts` or `debug` |
| SdkClient.SystemFieldsOverride | src/client.php:119-125 | after the merge, `key`/`sign`/`ts`/`debug` hold the system values and every other key keeps the caller's value |
| SdkClient.ResignIgnoresLeftovers | src/client.php:125 | the system fields an earlier `send` left in the parameters do not change the next signature |
| SdkClient.Client.constructor | src/client.php:14-17 | a new client has no parameters, no stored body, no URL and no timestamp |
| SdkClient.Client.GetParam | src/client.php:51-54 | returns null exactly when the key is absent, and otherwise the value stored under it |
| SdkClient.Client.SetParam | src/client.php:61-68 | with no truthy body stored, the key maps to the trimmed value and the other keys and the body are unchanged; with a truthy body, the parameters become exactly {name: trim(value)} and the body becomes null |
| SdkClient.Client.UnsetParam | src/client.php:74-77 | removes only `name` (a no-op when it is absent) and never touches the body |
| SdkClient.Client.GetParams | src/client.php:84-87 | returns the current parameters |
| SdkClient.Client.SetParams | src/client.php:94-99 | a non-array argument changes nothing; an array is merged with `array_merge`; the body is never cleared |
| SdkClient.Client.GetUrl | src/client.php:106-109 | returns the URL of the last request |
| SdkClient.Client.CreateSign | src/client.php:145-158 | the loop-built filter, the deep sort and the two digests compute `Sign` of the current parameters at the current timestamp |
| SdkClient.Client.Send | src/client.php:116-138 | `_ts` is `now`; the signature covers the parameters as they were before the merge; the parameters become the old ones with the system fields merged in; the URL gets the query string only for GET; the body is replaced exactly when the status is 200 |
| SdkClient.Client.Get | src/client.php:181-185 | sends by GET to `url?query(params)` and returns the stored body |
| SdkClient.Client.Post | src/client.php:191-195 | sends by POST to `url` with the parameters as the form, and returns the stored body |

## Left out

- The constructor's wiring of the Guzzle client and its headers
  (src/client.php:32-44). The transport is the function argument of
  `Get`/`Post`, and `config` and `hashes` are fixed at construction.
- Exceptions from the transport. Guzzle throws by default on a 4xx or 5xx
  status and on network failures. The exception would leave `_ts`,
  `_params` and `_url` already updated. The model has a transport that
  always answers.
- The internals of MD5 and the percent-encoding of `http_build_query`. They
  are arbitrary functions in `Signing.Hashes`.
- `time()`. The timestamp is the argument `now`.
- Integer keys and numeric key comparison. The model has string keys only,
  compared in `strcmp` order. PHP differs in these ways:
  - a key in canonical integer form, such as "10", becomes an integer key;
  - `array_merge` renumbers integer keys;
  - in PHP 7, `in_array` with loose comparison treats the integer key 0 as
    equal to the reserved names;
  - `ksort`'s default comparison orders two numeric keys by their numeric
    value. This covers numeric strings that stay string keys, such as
    "2.5" or "1e1". PHP puts "2.5" before "10", and `PhpString.LexLe` puts
    "10" first.
- Null and float values. `Value` has neither, but `setParams` accepts both.
  A float such as `'api' => 1.5` would be signed as its PHP text "1.5". A
  key whose value is null reads back through `__get` like an absent key.
- `SdkClient.Client.SetParam`: takes a string value. `trim` on a non-string
  (an integer, an array) is not modelled.
- `SdkClient.Client.Send`: the mode is `GET` or `POST`, not a string passed
  through `strtolower`. The PHP callers pass only the literals `'get'` and
  `'post'`.
- `config['debug']` is a boolean. A missing `debug` entry, which PHP reads
  as null, is not modelled.
- Byte strings. A PHP string is a sequence of bytes, and a model `string`
  is a sequence of code points. On UTF-8 text, `strcmp`'s byte order and
  `PhpString.LexLe`'s code-point order agree. `trim` strips only ASCII
  characters, so it acts the same on both.
- Concurrent use of one client object. The model is sequential.
