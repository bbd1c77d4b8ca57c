/**
 * scripts/import-to-kv.js: checks the configuration and the import file,
 * uploads every key of the import file to the key-value store once, in key
 * order, counts the successes, then purges the cache when it has the
 * credentials to. Every HTTP exchange is an abstract `Response` value.
 */
module Publish {
  import opened Wrappers
  import opened JsObject

  const TokenName: string := "CLOUDFLARE_API_TOKEN"
  const AccountName: string := "CLOUDFLARE_ACCOUNT_ID"

  /** The variables the upload cannot do without, in the order they are reported. */
  const RequiredNames: seq<string> := [TokenName, AccountName]

  /** `!CONFIG[name]`: the variable is absent from the environment or empty. */
  predicate Unset(env: map<string, string>, name: string) {
    name !in env || env[name] == ""
  }

  /** `names.filter(name => !CONFIG[name])`. */
  function UnsetNames(names: seq<string>, env: map<string, string>): (missing: seq<string>)
    ensures |missing| <= |names|
    ensures forall n :: n in missing <==> n in names && Unset(env, n)
  {
    if names == [] then []
    else (if Unset(env, names[0]) then [names[0]] else []) + UnsetNames(names[1..], env)
  }

  /** `validateConfig`'s list `missing`. */
  function MissingConfig(env: map<string, string>): (missing: seq<string>)
    ensures forall n :: n in missing <==> n in RequiredNames && Unset(env, n)
  {
    UnsetNames(RequiredNames, env)
  }

  /** `missing` keeps the order of `required`: the token is reported before the account. */
  lemma MissingConfigCases(env: map<string, string>)
    ensures Unset(env, TokenName) && Unset(env, AccountName) ==> MissingConfig(env) == [TokenName, AccountName]
    ensures Unset(env, TokenName) && !Unset(env, AccountName) ==> MissingConfig(env) == [TokenName]
    ensures !Unset(env, TokenName) && Unset(env, AccountName) ==> MissingConfig(env) == [AccountName]
    ensures !Unset(env, TokenName) && !Unset(env, AccountName) ==> MissingConfig(env) == []
  {
    var rest := UnsetNames([AccountName], env);
    assert [AccountName][1..] == [];
    assert rest == if Unset(env, AccountName) then [AccountName] else [];
    assert RequiredNames[1..] == [AccountName];
    assert MissingConfig(env) == (if Unset(env, TokenName) then [TokenName] else []) + rest;
  }

  /** A JSON value as the scripts inspect it: null, or anything else with `.success` truthy or not. */
  datatype Json = JsonNull | JsonValue(successTruthy: bool)

  /** A response body: not JSON at all, or parsed JSON. */
  datatype Body = Unparsable | Parsed(data: Json)

  /** What an awaited `fetch` produced: it threw, or a response with its `ok` flag and body. */
  datatype Response = Threw | Replied(ok: bool, body: Body)

  /** An awaited value or a thrown error. */
  datatype Outcome<T> = Normal(value: T) | Thrown

  /** `await response.json().catch(() => ({ success: true }))`. */
  function JsonOrSuccess(body: Body): Json {
    match body
    case Unparsable => JsonValue(true)
    case Parsed(data) => data
  }

  /** `data.success` in a boolean context: reading a property of null throws a TypeError. */
  function SuccessOf(data: Json): Outcome<bool> {
    match data
    case JsonNull => Thrown
    case JsonValue(t) => Normal(t)
  }

  /** `uploadToKV`'s result: a thrown error anywhere, a non-2xx status or a falsy `success` give false. */
  function UploadToKV(response: Response): (success: bool)
    ensures success <==>
      && response.Replied?
      && response.ok
      && (response.body.Unparsable? || (response.body.data.JsonValue? && response.body.data.successTruthy))
  {
    if response.Threw? then false
    else if !response.ok then false
    else
      match SuccessOf(JsonOrSuccess(response.body))
      case Thrown => false
      case Normal(t) => t
  }

  /** A value of the import file: a string, or something JSON.stringify serialises. */
  datatype JsValue<V> = JsString(s: string) | NonString(v: V)

  /** The request body: `typeof value === 'string' ? value : JSON.stringify(value)`. */
  function RequestBody<V>(value: JsValue<V>, stringify: V -> string): string
  {
    match value
    case JsString(s) => s
    case NonString(v) => stringify(v)
  }

  /** How `purgeCache` ends; none of these escapes it as an error. */
  datatype PurgeOutcome = Skipped | Purged | Rejected | Faulted

  /**
   * `purgeCache` for the scraped token and zone id and the reply to its
   * request: no request without both; a thrown fetch, a body that is not
   * JSON or a null body is a fault; otherwise `success` decides. The HTTP
   * status is not consulted.
   */
  function PurgeCache(token: string, zone: string, reply: Response): (outcome: PurgeOutcome)
    ensures outcome == Skipped <==> token == "" || zone == ""
    ensures outcome == Purged <==>
      token != "" && zone != "" && reply.Replied? && reply.body == Parsed(JsonValue(true))
    ensures outcome == Rejected <==>
      token != "" && zone != "" && reply.Replied? && reply.body == Parsed(JsonValue(false))
  {
    if token == "" || zone == "" then Skipped
    else if reply.Threw? then Faulted
    else
      match reply.body
      case Unparsable => Faulted
      case Parsed(data) =>
        match SuccessOf(data)
        case Thrown => Faulted
        case Normal(t) => if t then Purged else Rejected
  }

  /** The number of successful uploads among the first `n` attempts; `replies(i)` answers attempt `i`. */
  function CountSuccesses(replies: nat -> Response, n: nat): nat {
    if n == 0 then 0 else CountSuccesses(replies, n - 1) + (if UploadToKV(replies(n - 1)) then 1 else 0)
  }

  /** The tally never exceeds the attempts, and reaches them exactly when every attempt succeeded. */
  lemma {:induction false} CountSuccessesBounds(replies: nat -> Response, n: nat)
    ensures CountSuccesses(replies, n) <= n
    ensures CountSuccesses(replies, n) == n <==> forall i :: 0 <= i < n ==> UploadToKV(replies(i))
    ensures CountSuccesses(replies, n) == 0 <==> forall i :: 0 <= i < n ==> !UploadToKV(replies(i))
  {
    if n > 0 {
      CountSuccessesBounds(replies, n - 1);
    }
  }

  /** A request the script sends. */
  datatype Request = Put(key: string, body: string) | PurgeAll(zone: string)

  /** The import file: missing, unreadable JSON, or a parsed object. */
  datatype ImportFile<V> = Absent | Unreadable | Present(data: Object<JsValue<V>>)

  /** How a run ends. */
  datatype RunResult =
    | ConfigMissing(missing: seq<string>)
    | ImportFileMissing
    | ImportFileUnreadable
    | Finished(successCount: nat, keyCount: nat, purge: PurgeOutcome)

  /** The process exit status: 1 after `process.exit(1)` or the final catch, 0 otherwise. */
  function ExitCode(result: RunResult): int
  {
    if result.Finished? then 0 else 1
  }

  /** Every listed key has a value. */
  predicate KeysPresent<V>(o: Object<V>) {
    forall k :: k in o.keys ==> k in o.values
  }

  /** The upload requests for the first `n` keys, in key order. */
  function Puts<V>(o: Object<JsValue<V>>, stringify: V -> string, n: nat): (requests: seq<Request>)
    requires KeysPresent(o) && n <= |o.keys|
    ensures |requests| == n
    ensures forall i :: 0 <= i < n ==> requests[i].Put? && requests[i].key == o.keys[i]
    ensures forall i :: 0 <= i < n && o.values[o.keys[i]].JsString? ==>
      requests[i].body == o.values[o.keys[i]].s
    ensures forall i :: 0 <= i < n && o.values[o.keys[i]].NonString? ==>
      requests[i].body == stringify(o.values[o.keys[i]].v)
  {
    if n == 0 then []
    else Puts(o, stringify, n - 1) + [Put(o.keys[n - 1], RequestBody(o.values[o.keys[n - 1]], stringify))]
  }

  /**
   * `main`: the two pre-checks, one upload per key with its reply taken
   * from `replies` in order, and the purge with `purgeReply`. `requests`
   * is every request sent, in order.
   */
  method ImportToKv<V>(env: map<string, string>, cacheToken: string, cacheZoneId: string, file: ImportFile<V>,
                 stringify: V -> string, replies: nat -> Response, purgeReply: Response)
    returns (result: RunResult, requests: seq<Request>)
    requires file.Present? ==> KeysPresent(file.data)
    ensures MissingConfig(env) != [] <==> result.ConfigMissing?
    ensures result.ConfigMissing? ==> result.missing == MissingConfig(env)
    ensures MissingConfig(env) == [] && file.Absent? ==> result == ImportFileMissing
    ensures MissingConfig(env) == [] && file.Unreadable? ==> result == ImportFileUnreadable
    ensures !result.Finished? ==> requests == []
    ensures result.Finished? <==> file.Present? && MissingConfig(env) == []
    ensures ExitCode(result) == 0 <==> file.Present? && MissingConfig(env) == []
    ensures result.Finished? ==>
      && result.keyCount == |file.data.keys| <= |requests|
      && result.successCount == CountSuccesses(replies, |file.data.keys|)
      && result.purge == PurgeCache(cacheToken, cacheZoneId, purgeReply)
      && requests[..result.keyCount] == Puts(file.data, stringify, result.keyCount)
      && (result.purge == Skipped ==> |requests| == result.keyCount)
      && (result.purge != Skipped ==> requests[result.keyCount..] == [PurgeAll(cacheZoneId)])
  {
    requests := [];
    var missing := MissingConfig(env);
    if |missing| > 0 {
      return ConfigMissing(missing), requests;
    }
    match file {
      case Absent =>
        return ImportFileMissing, requests;
      case Unreadable =>
        return ImportFileUnreadable, requests;
      case Present(data) =>
        var keys := data.keys;
        var successCount := 0;
        for i := 0 to |keys|
          invariant successCount == CountSuccesses(replies, i)
          invariant requests == Puts(data, stringify, i)
        {
          var key := keys[i];
          var value := data.values[key];
          requests := requests + [Put(key, RequestBody(value, stringify))];
          var success := UploadToKV(replies(i));
          if success {
            successCount := successCount + 1;
          }
        }
        if cacheToken != "" && cacheZoneId != "" {
          requests := requests + [PurgeAll(cacheZoneId)];
        }
        var purge := PurgeCache(cacheToken, cacheZoneId, purgeReply);
        result := Finished(successCount, |keys|, purge);
    }
  }
}
