/** Building the parameters and headers of a request to the Twitter API. */
module RequestsBase {
  import opened Wrappers
  import opened PyValues

  /** The entry `params[k] = v` adds when the argument is truthy. */
  function Optional(k: string, v: Value): seq<Entry> {
    if Truthy(v) then [Entry(k, v)] else []
  }

  /** The parameter dict: the query first, then each truthy optional
      argument under its own key, in argument order. */
  function Params(query: Value, maxResults: Value, fields: Value, startTime: Value, endTime: Value, nextToken: Value): (r: seq<Entry>)
    ensures |r| >= 1 && r[0] == Entry("query", query)
    ensures |r| <= 6
  {
    [Entry("query", query)]
    + Optional("max_results", maxResults)
    + Optional("fields", fields)
    + Optional("start_time", startTime)
    + Optional("end_time", endTime)
    + Optional("next_token", nextToken)
  }

  /** `create_params`: the dict built by conditional insertions. */
  method CreateParams(query: Value, maxResults: Value, fields: Value, startTime: Value, endTime: Value, nextToken: Value)
    returns (params: seq<Entry>)
    ensures params == Params(query, maxResults, fields, startTime, endTime, nextToken)
  {
    params := [Entry("query", query)];
    if Truthy(maxResults) {
      params := params + [Entry("max_results", maxResults)];
    }
    assert params == [Entry("query", query)] + Optional("max_results", maxResults);
    ghost var p1 := params;
    if Truthy(fields) {
      params := params + [Entry("fields", fields)];
    }
    assert params == p1 + Optional("fields", fields);
    ghost var p2 := params;
    if Truthy(startTime) {
      params := params + [Entry("start_time", startTime)];
    }
    assert params == p2 + Optional("start_time", startTime);
    ghost var p3 := params;
    if Truthy(endTime) {
      params := params + [Entry("end_time", endTime)];
    }
    assert params == p3 + Optional("end_time", endTime);
    ghost var p4 := params;
    if Truthy(nextToken) {
      params := params + [Entry("next_token", nextToken)];
    }
    assert params == p4 + Optional("next_token", nextToken);
  }

  /** Looking `k` up in the dict: `query` is always there with the query,
      each optional key holds its argument exactly when that argument is
      truthy (so `max_results=0` or an empty field list is left to the API's
      default), and no other key is present. */
  lemma {:induction false} ParamsGet(query: Value, maxResults: Value, fields: Value, startTime: Value, endTime: Value,
                                     nextToken: Value, k: string)
    ensures var p := Params(query, maxResults, fields, startTime, endTime, nextToken);
      Get(p, k) ==
        if k == "query" then Some(query)
        else if k == "max_results" && Truthy(maxResults) then Some(maxResults)
        else if k == "fields" && Truthy(fields) then Some(fields)
        else if k == "start_time" && Truthy(startTime) then Some(startTime)
        else if k == "end_time" && Truthy(endTime) then Some(endTime)
        else if k == "next_token" && Truthy(nextToken) then Some(nextToken)
        else None
  {
    var p0 := [Entry("query", query)];
    var p1 := p0 + Optional("max_results", maxResults);
    var p2 := p1 + Optional("fields", fields);
    var p3 := p2 + Optional("start_time", startTime);
    var p4 := p3 + Optional("end_time", endTime);
    AddOptional(p0, "max_results", maxResults, k);
    AddOptional(p1, "fields", fields, k);
    AddOptional(p2, "start_time", startTime, k);
    AddOptional(p3, "end_time", endTime, k);
    AddOptional(p4, "next_token", nextToken, k);
    assert k in Keys(p0) <==> k == "query";
  }

  /** One conditional insertion seen from a key `k`. */
  lemma AddOptional(a: seq<Entry>, key: string, v: Value, k: string)
    ensures Get(a + Optional(key, v), k) ==
      if k in Keys(a) then Get(a, k) else if k == key && Truthy(v) then Some(v) else None
    ensures k in Keys(a + Optional(key, v)) <==> k in Keys(a) || (k == key && Truthy(v))
  {
    GetConcat(a, Optional(key, v), k);
    assert Keys(a + Optional(key, v)) == Keys(a) + Keys(Optional(key, v));
  }

  /** No key is held twice. */
  lemma ParamsUnique(query: Value, maxResults: Value, fields: Value, startTime: Value, endTime: Value, nextToken: Value)
    ensures UniqueKeys(Params(query, maxResults, fields, startTime, endTime, nextToken))
  {
    var p0 := [Entry("query", query)];
    var p1 := p0 + Optional("max_results", maxResults);
    var p2 := p1 + Optional("fields", fields);
    var p3 := p2 + Optional("start_time", startTime);
    var p4 := p3 + Optional("end_time", endTime);
    assert Keys(p0) == ["query"];
    AddFresh(p0, "max_results", maxResults, {"query"});
    AddFresh(p1, "fields", fields, {"query", "max_results"});
    AddFresh(p2, "start_time", startTime, {"query", "max_results", "fields"});
    AddFresh(p3, "end_time", endTime, {"query", "max_results", "fields", "start_time"});
    AddFresh(p4, "next_token", nextToken, {"query", "max_results", "fields", "start_time", "end_time"});
  }

  /** An insertion under a key not among those used so far keeps the keys
      distinct and adds at most that key. */
  lemma AddFresh(a: seq<Entry>, key: string, v: Value, used: set<string>)
    requires UniqueKeys(a) && forall k :: k in Keys(a) ==> k in used
    requires key !in used
    ensures UniqueKeys(a + Optional(key, v))
    ensures forall k :: k in Keys(a + Optional(key, v)) ==> k in used + {key}
  {
    AddOptionalUnique(a, key, v);
    forall k | k in Keys(a + Optional(key, v)) ensures k in used + {key} {
      AddOptional(a, key, v, k);
    }
  }

  /** An insertion under a new key keeps the keys distinct. */
  lemma AddOptionalUnique(a: seq<Entry>, key: string, v: Value)
    requires UniqueKeys(a) && key !in Keys(a)
    ensures UniqueKeys(a + Optional(key, v))
  {
    var r := a + Optional(key, v);
    forall i, j | 0 <= i < j < |r| ensures r[i].key != r[j].key {
      if j >= |a| {
        assert r[i].key == Keys(a)[i];
      }
    }
  }

  /** `"Bearer {}".format(token)` for the string-or-None token: None prints
      as `None`. */
  function Bearer(token: Option<string>): string {
    "Bearer " + (if token.Some? then token.value else "None")
  }

  /** `create_headers`: one `Authorization` entry. A falsy token (None or
      the empty string) is replaced by the one `auth()` reads from the
      environment, passed in here as `envToken`. */
  function CreateHeaders(token: Option<string>, envToken: Option<string>): (r: seq<Entry>)
    ensures Keys(r) == ["Authorization"]
    ensures token.Some? && |token.value| > 0 ==> Get(r, "Authorization") == Some(Str("Bearer " + token.value))
    ensures (token.None? || token.value == "") ==> Get(r, "Authorization") == Some(Str(Bearer(envToken)))
  {
    var chosen := if token.Some? && |token.value| > 0 then token else envToken;
    [Entry("Authorization", Str(Bearer(chosen)))]
  }

  /** A given token is used whatever the environment holds. */
  lemma GivenTokenWins(token: string, env1: Option<string>, env2: Option<string>)
    requires |token| > 0
    ensures CreateHeaders(Some(token), env1) == CreateHeaders(Some(token), env2)
  {
  }

  /** With no token given and none in the environment the header is sent
      with the literal text `None` as its token. */
  lemma NoTokenAnywhere()
    ensures CreateHeaders(None, None) == [Entry("Authorization", Str("Bearer None"))]
  {
    assert "Bearer " + "None" == "Bearer None";
  }
}
