/** One response of the Twitter recent-search endpoint, in both of the
    program's variants (the class at the repository root and the one under
    lib/twitter_fetching): pure accessors into the response dict, the two
    passes that update the tweet dicts of the response in place, and the
    flattening of nested tweet dicts into one level of joined keys. */
module SearchResponse {
  import opened Wrappers
  import opened PyValues
  import PyStrings

  // ------------------------------------------------------------ accessors

  /** `try: return <subscript> except KeyError: return None`: a missing key
      gives None, every other exception propagates. */
  function CatchKeyError(r: Result<Value>): (o: Result<Option<Value>>)
    ensures r.Ok? ==> o == Ok(Some(r.value))
    ensures r == Err(KeyError) <==> o == Ok(None)
    ensures r.Err? && r.error != KeyError ==> o == Err(r.error)
  {
    match r
    case Ok(v) => Ok(Some(v))
    case Err(e) => if e == KeyError then Ok(None) else Err(e)
  }

  /** `meta`: the response's `meta` entry, None when it has none. */
  function Meta(data: Value): (r: Result<Option<Value>>)
    ensures data.Dict? ==> r == Ok(Get(data.entries, "meta"))
    ensures !data.Dict? ==> r == Err(TypeError)
  {
    CatchKeyError(Subscript(data, "meta"))
  }

  /** `next_token`: the token inside `meta`, None when `meta` lacks one. A
      response without `meta` makes the accessor subscript None, and the
      TypeError that raises is not caught. */
  function NextToken(data: Value): (r: Result<Option<Value>>)
    ensures Meta(data) == Ok(None) ==> r == Err(TypeError)
    ensures Meta(data).Ok? && Meta(data).value.Some? && Meta(data).value.value.Dict? ==>
      r == Ok(Get(Meta(data).value.value.entries, "next_token"))
    ensures data.Dict? && "meta" in Keys(data.entries) && !Get(data.entries, "meta").value.Dict? ==>
      r == Err(TypeError)
  {
    var meta :- Meta(data);
    var m := if meta.Some? then meta.value else Null;
    CatchKeyError(Subscript(m, "next_token"))
  }

  /** `self._data[outer][inner]` under a single `except KeyError`. */
  function Nested(data: Value, outer: string, inner: string): Result<Option<Value>> {
    match Subscript(data, outer)
    case Ok(v) => CatchKeyError(Subscript(v, inner))
    case Err(e) => CatchKeyError(Err(e))
  }

  /** `media`: the media objects under `includes`, None when either key is
      missing; an `includes` that is None is subscripted and raises. */
  function Media(data: Value): (r: Result<Option<Value>>)
    ensures data.Dict? && "includes" !in Keys(data.entries) ==> r == Ok(None)
    ensures data.Dict? && Get(data.entries, "includes") == Some(Null) ==> r == Err(TypeError)
    ensures data.Dict? && "includes" in Keys(data.entries) && Get(data.entries, "includes").value.Dict? ==>
      r == Ok(Get(Get(data.entries, "includes").value.entries, "media"))
    ensures !data.Dict? ==> r == Err(TypeError)
  {
    Nested(data, "includes", "media")
  }

  /** `users`: the user objects under `includes`, None when either key is
      missing. */
  function Users(data: Value): (r: Result<Option<Value>>)
    ensures data.Dict? && "includes" !in Keys(data.entries) ==> r == Ok(None)
    ensures data.Dict? && Get(data.entries, "includes") == Some(Null) ==> r == Err(TypeError)
    ensures data.Dict? && "includes" in Keys(data.entries) && Get(data.entries, "includes").value.Dict? ==>
      r == Ok(Get(Get(data.entries, "includes").value.entries, "users"))
  {
    Nested(data, "includes", "users")
  }

  /** `tweets`: the response's `data` list, None when it has none. */
  function Tweets(data: Value): (r: Result<Option<Value>>)
    ensures data.Dict? ==> r == Ok(Get(data.entries, "data"))
    ensures !data.Dict? ==> r == Err(TypeError)
  {
    CatchKeyError(Subscript(data, "data"))
  }

  // ------------------------------------------------- attaching media

  /** The tweet's `attachments` is a dict with a `media_keys` entry. */
  predicate HasMediaKeys(tweet: Value) {
    && tweet.Dict?
    && "attachments" in Keys(tweet.entries)
    && Get(tweet.entries, "attachments").value.Dict?
    && "media_keys" in Keys(Get(tweet.entries, "attachments").value.entries)
  }

  function MediaKeys(tweet: Value): Value
    requires HasMediaKeys(tweet)
  {
    Get(Get(tweet.entries, "attachments").value.entries, "media_keys").value
  }

  /** The media object's key is among the tweet's media keys. */
  predicate MediaMatches(tweet: Value, media: Value) {
    && HasMediaKeys(tweet)
    && Subscript(media, "media_key").Ok?
    && In(Subscript(media, "media_key").value, MediaKeys(tweet)) == Ok(true)
  }

  /** The loop body for one media object and one tweet: the two membership
      guards, then the key comparison, then `tweet['media'] = media`. */
  function AttachOne(tweet: Value, media: Value): (r: Result<Value>)
    ensures r.Ok? ==> r.value == (if MediaMatches(tweet, media) then Dict(Put(tweet.entries, "media", media)) else tweet)
    ensures tweet.Dict? && "attachments" !in Keys(tweet.entries) ==> r == Ok(tweet)
    ensures HasMediaKeys(tweet) ==>
      (r.Err? <==> Subscript(media, "media_key").Err? || In(Subscript(media, "media_key").value, MediaKeys(tweet)).Err?)
  {
    var hasAttachments :- In(Str("attachments"), tweet);
    if !hasAttachments then Ok(tweet)
    else
      var attachments :- Subscript(tweet, "attachments");
      var hasKeys :- In(Str("media_keys"), attachments);
      if !hasKeys then Ok(tweet)
      else
        var key :- Subscript(media, "media_key");
        var keys :- Subscript(attachments, "media_keys");
        var found :- In(key, keys);
        if found then Ok(Dict(Put(tweet.entries, "media", media))) else Ok(tweet)
  }

  /** The body of a loop over the tweet list: the tweet it leaves where it
      stands, or the exception it raises. */
  type TweetStep = Value -> Result<Value>

  /** A loop over a prefix of the tweets that updates each one where it
      stands and stops at the first exception: the tweets after a failure
      are left as they were. */
  function EachTweet(step: TweetStep, ts: seq<Value>): (r: (seq<Value>, Option<Error>))
    ensures |r.0| == |ts|
    ensures |ts| == 0 ==> r.1 == None
    decreases |ts|
  {
    if |ts| == 0 then ([], None)
    else
      var prev := EachTweet(step, ts[..|ts| - 1]);
      var last := ts[|ts| - 1];
      if prev.1.Some? then (prev.0 + [last], prev.1)
      else
        match step(last)
        case Ok(t) => (prev.0 + [t], None)
        case Err(e) => (prev.0 + [last], Some(e))
  }

  /** One more tweet through the loop, after no failure so far. */
  lemma EachTweetNext(step: TweetStep, ts: seq<Value>, i: nat)
    requires i < |ts| && EachTweet(step, ts[..i]).1 == None
    ensures var prev := EachTweet(step, ts[..i]).0;
      EachTweet(step, ts[..i + 1]) ==
        match step(ts[i])
        case Ok(t) => (prev + [t], None)
        case Err(e) => (prev + [ts[i]], Some(e))
  {
    var longer := ts[..i + 1];
    assert longer[..|longer| - 1] == ts[..i] && longer[|longer| - 1] == ts[i];
  }

  /** The loop stops at the first tweet the body raises on, with the tweets
      as they stand. */
  lemma EachTweetStops(step: TweetStep, ts: seq<Value>, i: nat, res: seq<Value>, e: Error)
    requires i < |ts| == |res| && res[i..] == ts[i..]
    requires EachTweet(step, ts[..i]) == (res[..i], None)
    requires step(ts[i]) == Err(e)
    ensures EachTweet(step, ts) == (res, Some(e))
  {
    EachTweetNext(step, ts, i);
    assert res[i] == ts[i] by { assert res[i..][0] == ts[i..][0]; }
    assert res[..i + 1] == res[..i] + [ts[i]];
    EachTweetFailsEarly(step, ts, i + 1);
    assert res == res[..i + 1] + ts[i + 1..] by { assert res[i + 1..] == res[i..][1..]; }
  }

  /** A tweet the body succeeds on is replaced where it stands and the loop
      goes on. */
  lemma EachTweetGoesOn(step: TweetStep, ts: seq<Value>, i: nat, res: seq<Value>, t: Value)
    requires i < |ts| == |res| && res[i..] == ts[i..]
    requires EachTweet(step, ts[..i]) == (res[..i], None)
    requires step(ts[i]) == Ok(t)
    ensures EachTweet(step, ts[..i + 1]) == (res[i := t][..i + 1], None)
    ensures res[i := t][i + 1..] == ts[i + 1..]
  {
    EachTweetNext(step, ts, i);
    ReplaceAt(res, ts, i, t);
  }

  /** Once a tweet fails, the later tweets are left as they were. */
  lemma {:induction false} EachTweetFailsEarly(step: TweetStep, ts: seq<Value>, n: nat)
    requires 0 < n <= |ts| && EachTweet(step, ts[..n]).1.Some?
    ensures EachTweet(step, ts).1 == EachTweet(step, ts[..n]).1
    ensures EachTweet(step, ts).0 == EachTweet(step, ts[..n]).0 + ts[n..]
    decreases |ts| - n
  {
    if n < |ts| {
      var longer := ts[..n + 1];
      assert longer[..|longer| - 1] == ts[..n];
      EachTweetFailsEarly(step, ts, n + 1);
      assert EachTweet(step, ts[..n + 1]).0 == EachTweet(step, ts[..n]).0 + [ts[n]];
      assert ts[n..] == [ts[n]] + ts[n + 1..];
    } else {
      assert ts[..n] == ts;
    }
  }

  /** Without a failure the body ran on every tweet. */
  lemma {:induction false} EachTweetOk(step: TweetStep, ts: seq<Value>)
    requires EachTweet(step, ts).1 == None
    ensures forall i :: 0 <= i < |ts| ==> step(ts[i]) == Ok(EachTweet(step, ts).0[i])
  {
    forall i | 0 <= i < |ts|
      ensures step(ts[i]) == Ok(EachTweet(step, ts).0[i])
    {
      EachTweetEntry(step, ts, i);
    }
  }

  /** The same for one tweet. */
  lemma {:induction false} EachTweetEntry(step: TweetStep, ts: seq<Value>, i: nat)
    requires EachTweet(step, ts).1 == None && i < |ts|
    ensures step(ts[i]) == Ok(EachTweet(step, ts).0[i])
    decreases |ts|
  {
    var init := ts[..|ts| - 1];
    var prev := EachTweet(step, init);
    var last := ts[|ts| - 1];
    assert prev.1 == None;
    assert step(last).Ok? && EachTweet(step, ts) == (prev.0 + [step(last).value], None);
    if i < |init| {
      EachTweetEntry(step, init, i);
      assert init[i] == ts[i];
    }
  }

  /** A list of tweets each of which the body leaves alone is left alone by
      the loop. */
  lemma {:induction false} EachTweetFixed(step: TweetStep, ts: seq<Value>)
    requires forall i :: 0 <= i < |ts| ==> step(ts[i]) == Ok(ts[i])
    ensures EachTweet(step, ts) == (ts, None)
    decreases |ts|
  {
    if |ts| > 0 {
      EachTweetFixed(step, ts[..|ts| - 1]);
      assert ts[..|ts| - 1] + [ts[|ts| - 1]] == ts;
    }
  }

  /** The inner loop's body for one media object. */
  function AttachBody(media: Value): TweetStep {
    t => AttachOne(t, media)
  }

  /** The outer loop over the media objects. With `eagerKey` (the root-level
      variant) each media object's key is read for a progress message before
      any tweet is looked at, so a media object without one raises even when
      no tweet has attachments. */
  function AttachAll(ts: seq<Value>, medias: seq<Value>, eagerKey: bool): (r: (seq<Value>, Option<Error>))
    ensures |r.0| == |ts|
    decreases |medias|
  {
    if |medias| == 0 then (ts, None)
    else
      var prev := AttachAll(ts, medias[..|medias| - 1], eagerKey);
      var last := medias[|medias| - 1];
      if prev.1.Some? then prev
      else if eagerKey && Subscript(last, "media_key").Err? then (prev.0, Some(Subscript(last, "media_key").error))
      else EachTweet(AttachBody(last), prev.0)
  }

  /** `attach_media_to_tweets` on the response dict: the dict left behind
      (its `data` list holding the updated tweets) and the value returned.
      Only a list of media objects and a list of tweets are iterated; any
      other container is reported as TypeError. */
  function AttachedResponse(data: Value, eagerKey: bool): (r: (Value, Result<Option<Value>>))
    ensures Media(data).Ok? && (Media(data).value.None? || !Truthy(Media(data).value.value)) ==>
      r == (data, Tweets(data))
    ensures Media(data).Err? ==> r == (data, Err(Media(data).error))
  {
    match Media(data)
    case Err(e) => (data, Err(e))
    case Ok(m) =>
      if m.None? || !Truthy(m.value) then (data, Tweets(data))
      else if !m.value.List? then (data, Err(TypeError))
      else
        var medias := m.value.items;
        if eagerKey && Subscript(medias[0], "media_key").Err? then
          (data, Err(Subscript(medias[0], "media_key").error))
        else
          match Tweets(data)
          case Ok(Some(List(ts))) =>
            var res := AttachAll(ts, medias, eagerKey);
            var d := Dict(Put(data.entries, "data", List(res.0)));
            (d, if res.1.None? then Ok(Some(List(res.0))) else Err(res.1.value))
          case Ok(_) => (data, Err(TypeError))
          case Err(e) => (data, Err(e))
  }

  /** The last of the media objects whose key the tweet lists. */
  function LastMatch(tweet: Value, medias: seq<Value>): Option<Value>
    decreases |medias|
  {
    if |medias| == 0 then None
    else if MediaMatches(tweet, medias[|medias| - 1]) then Some(medias[|medias| - 1])
    else LastMatch(tweet, medias[..|medias| - 1])
  }

  /** `t` is `orig` with `media` set to `m`, or `orig` itself when no media
      object matched. */
  ghost predicate AttachedAs(t: Value, orig: Value, m: Option<Value>) {
    && (m.None? ==> t == orig)
    && (m.Some? ==>
          && orig.Dict? && t.Dict?
          && Get(t.entries, "media") == m
          && (forall k :: k != "media" ==> Get(t.entries, k) == Get(orig.entries, k)))
  }

  /** Only `media` changes, so whether a later media object matches is the
      same before and after. */
  lemma MatchesKept(t: Value, orig: Value, m: Option<Value>, media: Value)
    requires AttachedAs(t, orig, m)
    ensures MediaMatches(t, media) == MediaMatches(orig, media)
  {
    if m.Some? {
      assert Get(t.entries, "attachments") == Get(orig.entries, "attachments");
    }
  }

  /** One more media object either leaves the tweet as the earlier ones left
      it or sets its `media`, replacing any earlier match. */
  lemma AttachStep(t: Value, orig: Value, m: Option<Value>, media: Value)
    requires AttachedAs(t, orig, m) && AttachOne(t, media).Ok?
    ensures AttachedAs(AttachOne(t, media).value, orig, if MediaMatches(orig, media) then Some(media) else m)
  {
    MatchesKept(t, orig, m, media);
    if MediaMatches(orig, media) {
      var u := AttachOne(t, media).value;
      forall k | k != "media" ensures Get(u.entries, k) == Get(orig.entries, k) {
        PutOther(t.entries, "media", media, k);
      }
    }
  }

  /** Without a failure, every tweet ends up holding the LAST media object
      whose key it lists, every other entry of it unchanged, and a tweet no
      media object matches is untouched. */
  lemma {:induction false} AttachAllLastMatch(ts: seq<Value>, medias: seq<Value>, eagerKey: bool)
    requires AttachAll(ts, medias, eagerKey).1 == None
    ensures forall i :: 0 <= i < |ts| ==>
      AttachedAs(AttachAll(ts, medias, eagerKey).0[i], ts[i], LastMatch(ts[i], medias))
    decreases |medias|
  {
    if |medias| > 0 {
      var init := medias[..|medias| - 1];
      var last := medias[|medias| - 1];
      AttachAllLastMatch(ts, init, eagerKey);
      var prev := AttachAll(ts, init, eagerKey).0;
      EachTweetOk(AttachBody(last), prev);
      forall i | 0 <= i < |ts|
        ensures AttachedAs(AttachAll(ts, medias, eagerKey).0[i], ts[i], LastMatch(ts[i], medias))
      {
        AttachStep(prev[i], ts[i], LastMatch(ts[i], init), last);
      }
    }
  }

  /** The whole pass: with media present and no failure, the response's
      `data` list holds the tweets, each with the last matching media object
      attached and nothing else changed, and that list is returned. */
  lemma AttachedResponseLastMatch(data: Value, eagerKey: bool, medias: seq<Value>, ts: seq<Value>)
    requires Media(data) == Ok(Some(List(medias))) && |medias| > 0
    requires Tweets(data) == Ok(Some(List(ts)))
    requires AttachedResponse(data, eagerKey).1.Ok?
    ensures var (d, r) := AttachedResponse(data, eagerKey);
      && Tweets(d) == r
      && r.value.Some? && r.value.value.List? && |r.value.value.items| == |ts|
      && forall i :: 0 <= i < |ts| ==> AttachedAs(r.value.value.items[i], ts[i], LastMatch(ts[i], medias))
  {
    AttachedResponseData(data, eagerKey, medias, ts);
    AttachAllLastMatch(ts, medias, eagerKey);
  }

  /** With media present and no failure, the pass stores the outer loop's
      tweets under `data` and returns them. */
  lemma AttachedResponseData(data: Value, eagerKey: bool, medias: seq<Value>, ts: seq<Value>)
    requires Media(data) == Ok(Some(List(medias))) && |medias| > 0
    requires Tweets(data) == Ok(Some(List(ts)))
    requires AttachedResponse(data, eagerKey).1.Ok?
    ensures var res := AttachAll(ts, medias, eagerKey);
      && res.1 == None
      && AttachedResponse(data, eagerKey) == (Dict(Put(data.entries, "data", List(res.0))), Ok(Some(List(res.0))))
      && Tweets(AttachedResponse(data, eagerKey).0) == Ok(Some(List(res.0)))
  {
    assert data.Dict?;
  }

  /** One more media object after the first `j` went through. */
  lemma AttachAllStep(ts: seq<Value>, medias: seq<Value>, eagerKey: bool, j: nat)
    requires j < |medias| && AttachAll(ts, medias[..j], eagerKey).1 == None
    ensures AttachAll(ts, medias[..j + 1], eagerKey) ==
      if eagerKey && Subscript(medias[j], "media_key").Err? then
        (AttachAll(ts, medias[..j], eagerKey).0, Some(Subscript(medias[j], "media_key").error))
      else EachTweet(AttachBody(medias[j]), AttachAll(ts, medias[..j], eagerKey).0)
  {
    var longer := medias[..j + 1];
    assert longer[..|longer| - 1] == medias[..j] && longer[|longer| - 1] == medias[j];
  }

  /** Once a media object fails, the later ones are not looked at. */
  lemma {:induction false} AttachAllFailsEarly(ts: seq<Value>, medias: seq<Value>, eagerKey: bool, n: nat)
    requires 0 < n <= |medias| && AttachAll(ts, medias[..n], eagerKey).1.Some?
    ensures AttachAll(ts, medias, eagerKey) == AttachAll(ts, medias[..n], eagerKey)
    decreases |medias| - n
  {
    if n < |medias| {
      var longer := medias[..n + 1];
      assert longer[..|longer| - 1] == medias[..n];
      AttachAllFailsEarly(ts, medias, eagerKey, n + 1);
    } else {
      assert medias[..n] == medias;
    }
  }

  // ------------------------------------------------- buffering fields

  /** The loop over the requested fields for one tweet dict: a field the
      tweet lacks is added with the empty string. */
  function Fill(e: seq<Entry>, fields: seq<string>): (r: seq<Entry>)
    ensures forall k :: k in Keys(r) <==> k in Keys(e) || k in fields
    decreases |fields|
  {
    if |fields| == 0 then e
    else
      var prev := Fill(e, fields[..|fields| - 1]);
      var f := fields[|fields| - 1];
      assert fields == fields[..|fields| - 1] + [f];
      if f in Keys(prev) then prev else Put(prev, f, Str(""))
  }

  /** What buffering leaves under each key: an existing value unchanged, a
      missing requested field the empty string, nothing else. */
  lemma {:induction false} FillGet(e: seq<Entry>, fields: seq<string>, k: string)
    ensures Get(Fill(e, fields), k) ==
      if k in Keys(e) then Get(e, k) else if k in fields then Some(Str("")) else None
    decreases |fields|
  {
    if |fields| > 0 {
      var init := fields[..|fields| - 1];
      var f := fields[|fields| - 1];
      assert fields == init + [f];
      FillGet(e, init, k);
      if f !in Keys(Fill(e, init)) && k != f {
        PutOther(Fill(e, init), f, Str(""), k);
      }
    }
  }

  /** A tweet that already has every requested field is left alone. */
  lemma {:induction false} FillFixed(e: seq<Entry>, fields: seq<string>)
    requires forall f :: f in fields ==> f in Keys(e)
    ensures Fill(e, fields) == e
    decreases |fields|
  {
    if |fields| > 0 {
      FillFixed(e, fields[..|fields| - 1]);
    }
  }

  /** `search_params['tweet.fields'].split(',')`: a missing entry raises
      KeyError and a value that is not a string has no `split`. */
  function FieldsOf(searchParams: Value): (r: Result<seq<string>>)
    ensures r.Ok? <==> Subscript(searchParams, "tweet.fields").Ok? && Subscript(searchParams, "tweet.fields").value.Str?
    ensures r.Ok? ==> r.value == PyStrings.SplitOn(Subscript(searchParams, "tweet.fields").value.s, ',')
    ensures Subscript(searchParams, "tweet.fields").Ok? && !Subscript(searchParams, "tweet.fields").value.Str? ==>
      r == Err(AttributeError)
  {
    var f :- Subscript(searchParams, "tweet.fields");
    if f.Str? then Ok(PyStrings.SplitOn(f.s, ',')) else Err(AttributeError)
  }

  /** The fields one tweet is buffered with: the requested ones and, in the
      lib variant, `media`, checked after them. */
  function Buffered(fields: seq<string>, withMedia: bool): seq<string> {
    if withMedia then fields + ["media"] else fields
  }

  /** The loop body for one tweet. Buffering writes into the tweet, which
      only a dict allows; any other tweet is reported as TypeError. */
  function BufferTweet(tweet: Value, fields: seq<string>, withMedia: bool): (r: Result<Value>)
    ensures r.Ok? <==> tweet.Dict?
    ensures r.Ok? ==> r.value == Dict(Fill(tweet.entries, Buffered(fields, withMedia)))
  {
    if tweet.Dict? then Ok(Dict(Fill(tweet.entries, Buffered(fields, withMedia)))) else Err(TypeError)
  }

  /** The body of the loop over the tweets. The fields are read from the
      search parameters once per tweet, so with no tweets a bad parameter
      dict raises nothing. */
  function BufferBody(fields: Result<seq<string>>, withMedia: bool): TweetStep {
    t => if fields.Err? then Err(fields.error) else BufferTweet(t, fields.value, withMedia)
  }

  /** `buffer_missing_fields` on the response dict: the dict left behind and
      the value returned. Only a list of tweets is iterated. */
  function BufferedResponse(data: Value, searchParams: Value, withMedia: bool): (r: (Value, Result<Option<Value>>))
    ensures Tweets(data).Err? ==> r == (data, Err(Tweets(data).error))
    ensures Tweets(data) == Ok(None) ==> r == (data, Err(TypeError))
  {
    match Tweets(data)
    case Err(e) => (data, Err(e))
    case Ok(None) => (data, Err(TypeError))
    case Ok(Some(List(ts))) =>
      var res := EachTweet(BufferBody(FieldsOf(searchParams), withMedia), ts);
      var d := Dict(Put(data.entries, "data", List(res.0)));
      (d, if res.1.None? then Ok(Some(List(res.0))) else Err(res.1.value))
    case Ok(Some(_)) => (data, Err(TypeError))
  }

  /** Without a failure the fields were read and the loop body ran on every
      tweet. */
  lemma BufferAllOk(ts: seq<Value>, fields: Result<seq<string>>, withMedia: bool)
    requires EachTweet(BufferBody(fields, withMedia), ts).1 == None
    ensures |ts| > 0 ==> fields.Ok?
    ensures forall i :: 0 <= i < |ts| ==>
      fields.Ok? && BufferTweet(ts[i], fields.value, withMedia) == Ok(EachTweet(BufferBody(fields, withMedia), ts).0[i])
  {
    var step := BufferBody(fields, withMedia);
    var res := EachTweet(step, ts).0;
    forall i | 0 <= i < |ts|
      ensures fields.Ok? && BufferTweet(ts[i], fields.value, withMedia) == Ok(res[i])
    {
      EachTweetEntry(step, ts, i);
      BufferBodyIs(fields, withMedia, ts[i]);
    }
    if |ts| > 0 {
      assert fields.Ok?;
    }
  }

  /** The loop body fails at once when the fields cannot be read and
      otherwise buffers the tweet. */
  lemma BufferBodyIs(fields: Result<seq<string>>, withMedia: bool, t: Value)
    ensures BufferBody(fields, withMedia)(t) ==
      if fields.Err? then Err(fields.error) else BufferTweet(t, fields.value, withMedia)
  {
  }

  /** After buffering, tweet `i` holds under key `k` its old value if it had
      one, the empty string if `k` is a requested field (or, in the lib
      variant, `media`), and nothing otherwise; the buffered list is what
      the response now holds and what is returned. */
  lemma BufferedTweetGet(data: Value, searchParams: Value, withMedia: bool, ts: seq<Value>, i: nat, k: string)
    requires Tweets(data) == Ok(Some(List(ts))) && i < |ts|
    requires BufferedResponse(data, searchParams, withMedia).1.Ok?
    ensures var (d, r) := BufferedResponse(data, searchParams, withMedia);
      && Tweets(d) == r && r.value.Some? && r.value.value.List?
      && |r.value.value.items| == |ts|
      && FieldsOf(searchParams).Ok?
      && ts[i].Dict? && r.value.value.items[i].Dict?
      && Get(r.value.value.items[i].entries, k) ==
         if k in Keys(ts[i].entries) then Get(ts[i].entries, k)
         else if k in FieldsOf(searchParams).value || (withMedia && k == "media") then Some(Str(""))
         else None
  {
    BufferAllOk(ts, FieldsOf(searchParams), withMedia);
    var fields := FieldsOf(searchParams).value;
    FillGet(ts[i].entries, Buffered(fields, withMedia), k);
  }

  /** Buffering a second time changes nothing. */
  lemma BufferedIdempotent(data: Value, searchParams: Value, withMedia: bool)
    requires BufferedResponse(data, searchParams, withMedia).1.Ok?
    ensures var (d, r) := BufferedResponse(data, searchParams, withMedia);
      BufferedResponse(d, searchParams, withMedia) == (d, r)
  {
    var ts := Tweets(data).value.value.items;
    var step := BufferBody(FieldsOf(searchParams), withMedia);
    BufferedResponseOf(data, searchParams, withMedia, ts);
    var res := EachTweet(step, ts).0;
    BufferAgainFixed(ts, FieldsOf(searchParams), withMedia);
    var e := Put(data.entries, "data", List(res));
    BufferedResponseOf(Dict(e), searchParams, withMedia, res);
    PutSame(e, "data", List(res));
  }

  /** The pass on a response whose `data` is a list of tweets: the loop's
      tweets stored back under `data`, and returned unless it raised. */
  lemma BufferedResponseOf(data: Value, searchParams: Value, withMedia: bool, ts: seq<Value>)
    requires Tweets(data) == Ok(Some(List(ts)))
    ensures var res := EachTweet(BufferBody(FieldsOf(searchParams), withMedia), ts);
      && BufferedResponse(data, searchParams, withMedia) ==
           (Dict(Put(data.entries, "data", List(res.0))), if res.1.None? then Ok(Some(List(res.0))) else Err(res.1.value))
      && Tweets(Dict(Put(data.entries, "data", List(res.0)))) == Ok(Some(List(res.0)))
  {
  }

  /** Tweets the loop went through without a failure are left alone by a
      second run. */
  lemma BufferAgainFixed(ts: seq<Value>, fields: Result<seq<string>>, withMedia: bool)
    requires EachTweet(BufferBody(fields, withMedia), ts).1 == None
    ensures var res := EachTweet(BufferBody(fields, withMedia), ts).0;
      EachTweet(BufferBody(fields, withMedia), res) == (res, None)
  {
    var res := EachTweet(BufferBody(fields, withMedia), ts).0;
    BufferAllOk(ts, fields, withMedia);
    forall i | 0 <= i < |res|
      ensures BufferBody(fields, withMedia)(res[i]) == Ok(res[i])
    {
      var e := ts[i].entries;
      var fs := Buffered(fields.value, withMedia);
      FillFixed(Fill(e, fs), fs);
    }
    EachTweetFixed(BufferBody(fields, withMedia), res);
  }

  // ------------------------------------------------- the response object

  /** The response object: the response dict and the search parameters it
      was fetched with. The two passes update the tweet dicts inside the
      response dict. */
  class TwitterSearchResponse {
    var data: Value
    var searchParams: Value

    constructor(data: Value, searchParams: Value)
      ensures this.data == data && this.searchParams == searchParams
    {
      this.data := data;
      this.searchParams := searchParams;
    }

    /** `attach_media_to_tweets`; `eagerKey` selects the root-level variant,
        whose progress message reads each media object's key first. */
    method AttachMediaToTweets(eagerKey: bool) returns (r: Result<Option<Value>>)
      modifies this
      ensures (data, r) == AttachedResponse(old(data), eagerKey)
      ensures searchParams == old(searchParams)
    {
      var m := Media(data);
      if m.Err? {
        return Err(m.error);
      }
      if m.value.None? || !Truthy(m.value.value) {
        return Tweets(data);
      }
      if !m.value.value.List? {
        return Err(TypeError);
      }
      var medias := m.value.value.items;
      if eagerKey && Subscript(medias[0], "media_key").Err? {
        return Err(Subscript(medias[0], "media_key").error);
      }
      var tweets := Tweets(data);
      assert tweets.Ok?;
      if tweets.value.None? || !tweets.value.value.List? {
        return Err(TypeError);
      }
      var res, err := AttachLoop(tweets.value.value.items, medias, eagerKey);
      data := Dict(Put(data.entries, "data", List(res)));
      if err.Some? {
        return Err(err.value);
      }
      return Ok(Some(List(res)));
    }

    /** `buffer_missing_fields`; `withMedia` selects the lib variant, which
        also gives every tweet a `media` entry. */
    method BufferMissingFields(withMedia: bool) returns (r: Result<Option<Value>>)
      modifies this
      ensures (data, r) == BufferedResponse(old(data), searchParams, withMedia)
      ensures searchParams == old(searchParams)
    {
      var tweets := Tweets(data);
      if tweets.Err? {
        return Err(tweets.error);
      }
      if tweets.value.None? || !tweets.value.value.List? {
        return Err(TypeError);
      }
      var res, err := BufferLoop(tweets.value.value.items, FieldsOf(searchParams), withMedia);
      data := Dict(Put(data.entries, "data", List(res)));
      if err.Some? {
        return Err(err.value);
      }
      return Ok(Some(List(res)));
    }
  }

  /** The outer loop of `attach_media_to_tweets`. */
  method AttachLoop(ts: seq<Value>, medias: seq<Value>, eagerKey: bool) returns (res: seq<Value>, err: Option<Error>)
    ensures (res, err) == AttachAll(ts, medias, eagerKey)
  {
    res := ts;
    var j := 0;
    while j < |medias|
      invariant 0 <= j <= |medias|
      invariant AttachAll(ts, medias[..j], eagerKey) == (res, None)
    {
      AttachAllStep(ts, medias, eagerKey, j);
      if eagerKey && Subscript(medias[j], "media_key").Err? {
        AttachAllFailsEarly(ts, medias, eagerKey, j + 1);
        return res, Some(Subscript(medias[j], "media_key").error);
      }
      res, err := AttachToTweetsLoop(res, medias[j]);
      if err.Some? {
        AttachAllFailsEarly(ts, medias, eagerKey, j + 1);
        return;
      }
      j := j + 1;
    }
    assert medias[..j] == medias;
    return res, None;
  }

  /** The inner loop of `attach_media_to_tweets`: the tweets updated where
      they stand, one after the other. */
  method AttachToTweetsLoop(ts: seq<Value>, media: Value) returns (res: seq<Value>, err: Option<Error>)
    ensures (res, err) == EachTweet(AttachBody(media), ts)
  {
    res := ts;
    var i := 0;
    while i < |ts|
      invariant 0 <= i <= |ts| == |res|
      invariant EachTweet(AttachBody(media), ts[..i]) == (res[..i], None)
      invariant res[i..] == ts[i..]
    {
      assert res[i] == ts[i] by { assert res[i..][0] == ts[i..][0]; }
      var t := AttachOne(res[i], media);
      if t.Err? {
        EachTweetStops(AttachBody(media), ts, i, res, t.error);
        return res, Some(t.error);
      }
      EachTweetGoesOn(AttachBody(media), ts, i, res, t.value);
      res := res[i := t.value];
      i := i + 1;
    }
    assert ts[..i] == ts && res[..i] == res;
    return res, None;
  }

  /** The tweet loop of `buffer_missing_fields`. */
  method BufferLoop(ts: seq<Value>, fields: Result<seq<string>>, withMedia: bool) returns (res: seq<Value>, err: Option<Error>)
    ensures (res, err) == EachTweet(BufferBody(fields, withMedia), ts)
  {
    res := ts;
    var i := 0;
    while i < |ts|
      invariant 0 <= i <= |ts| == |res|
      invariant EachTweet(BufferBody(fields, withMedia), ts[..i]) == (res[..i], None)
      invariant res[i..] == ts[i..]
    {
      assert res[i] == ts[i] by { assert res[i..][0] == ts[i..][0]; }
      BufferBodyIs(fields, withMedia, ts[i]);
      if fields.Err? || !res[i].Dict? {
        var e := if fields.Err? then fields.error else TypeError;
        EachTweetStops(BufferBody(fields, withMedia), ts, i, res, e);
        return res, Some(e);
      }
      var filled := FillLoop(res[i].entries, Buffered(fields.value, withMedia));
      EachTweetGoesOn(BufferBody(fields, withMedia), ts, i, res, Dict(filled));
      res := res[i := Dict(filled)];
      i := i + 1;
    }
    assert ts[..i] == ts && res[..i] == res;
    return res, None;
  }

  /** The field loop of `buffer_missing_fields` for one tweet dict. */
  method FillLoop(e: seq<Entry>, fields: seq<string>) returns (r: seq<Entry>)
    ensures r == Fill(e, fields)
  {
    r := e;
    for j := 0 to |fields|
      invariant r == Fill(e, fields[..j])
    {
      var longer := fields[..j + 1];
      assert longer[..|longer| - 1] == fields[..j] && longer[|longer| - 1] == fields[j];
      if fields[j] !in Keys(r) {
        r := Put(r, fields[j], Str(""));
      }
    }
    assert fields[..|fields|] == fields;
  }

  // ------------------------------------------------- flattening

  /** The key a flattened entry gets: the parent key, the separator and the
      key, or the key alone under a falsy parent (the initial `False`, or an
      empty key). */
  function NewKey(parent: string, sep: string, key: string): string {
    if |parent| > 0 then parent + sep + key else key
  }

  /** `dict(items)`: a later pair with an existing key overwrites the value
      in the key's first place. */
  function DictOf(items: seq<Entry>): seq<Entry> {
    Update([], items)
  }

  /** `flatten(d, parent, sep)`. */
  function Flatten(d: Value, parent: string, sep: string): (r: seq<Entry>)
    requires d.Dict?
    ensures forall e {:trigger Under(e.key, parent)} :: e in r ==> Under(e.key, parent)
    decreases d, 3, 0
  {
    UpdateFrom([], DictItems(d, parent, sep, 0));
    DictOf(DictItems(d, parent, sep, 0))
  }

  /** The `items` list built from the entries of `d` from the `i`-th on. */
  function DictItems(d: Value, parent: string, sep: string, i: nat): (r: seq<Entry>)
    requires d.Dict? && i <= |d.entries|
    ensures forall e {:trigger Under(e.key, parent)} :: e in r ==> Under(e.key, parent)
    decreases d, 2, |d.entries| - i
  {
    if i == |d.entries| then []
    else
      assert d.entries[i] in d.entries;
      NewKeyUnder(parent, sep, d.entries[i].key);
      KeysUnder(FlatPair(NewKey(parent, sep, d.entries[i].key), d.entries[i].val, sep),
                NewKey(parent, sep, d.entries[i].key), parent);
      FlatPair(NewKey(parent, sep, d.entries[i].key), d.entries[i].val, sep) + DictItems(d, parent, sep, i + 1)
  }

  /** The items one entry contributes: a dict is flattened under the new
      key, a list element by element, anything else is kept. */
  function FlatPair(newKey: string, v: Value, sep: string): (r: seq<Entry>)
    ensures forall e {:trigger Under(e.key, newKey)} :: e in r ==> Under(e.key, newKey)
    decreases v, 4, 0
  {
    match v
    case Dict(_) => Flatten(v, newKey, sep)
    case List(_) => ListItems(newKey, v, 0)
    case _ => [Entry(newKey, v)]
  }

  /** The items of the list elements from the `k`-th on: each element is
      flattened as the one-entry dict `{str(k): element}` under the list's
      key, with the default separator `_`. */
  function ListItems(parent: string, v: Value, k: nat): (r: seq<Entry>)
    requires v.List? && k <= |v.items|
    ensures forall e {:trigger Under(e.key, parent)} :: e in r ==> Under(e.key, parent)
    decreases v, 2, |v.items| - k
  {
    if k == |v.items| then []
    else
      UpdateFrom([], FlatPair(NewKey(parent, "_", PyStrings.NatToString(k)), v.items[k], "_"));
      NewKeyUnder(parent, "_", PyStrings.NatToString(k));
      KeysUnder(DictOf(FlatPair(NewKey(parent, "_", PyStrings.NatToString(k)), v.items[k], "_")),
                NewKey(parent, "_", PyStrings.NatToString(k)), parent);
      DictOf(FlatPair(NewKey(parent, "_", PyStrings.NatToString(k)), v.items[k], "_"))
      + ListItems(parent, v, k + 1)
  }

  /** A flattened key lies under `parent`: it starts with it. */
  predicate Under(key: string, parent: string) {
    PyStrings.StartsWith(key, parent)
  }

  /** A joined key starts with its parent. */
  lemma NewKeyUnder(parent: string, sep: string, key: string)
    ensures Under(NewKey(parent, sep, key), parent)
  {
    if |parent| > 0 {
      assert (parent + sep + key)[..|parent|] == parent;
    }
  }

  /** Keys under `q`, where `q` is under `p`, are under `p`. */
  lemma KeysUnder(items: seq<Entry>, q: string, p: string)
    requires Under(q, p)
    requires forall e {:trigger Under(e.key, q)} :: e in items ==> Under(e.key, q)
    ensures forall e {:trigger Under(e.key, p)} :: e in items ==> Under(e.key, p)
  {
    forall e | e in items
      ensures Under(e.key, p)
    {
      assert Under(e.key, q);
      assert e.key[..|p|] == e.key[..|q|][..|p|];
    }
  }

  /** Appending entries with fresh keys to a dict is concatenation. */
  lemma {:induction false} UpdateFresh(a: seq<Entry>, b: seq<Entry>)
    requires UniqueKeys(a + b)
    ensures Update(a, b) == a + b
    decreases |b|
  {
    if |b| > 0 {
      assert (a + b)[|a|] == b[0];
      assert b[0].key !in Keys(a) by {
        forall i | 0 <= i < |a| ensures Keys(a)[i] != b[0].key {
          assert (a + b)[i] == a[i];
        }
      }
      assert a + [b[0]] + b[1..] == a + b;
      UpdateFresh(a + [b[0]], b[1..]);
    }
  }

  /** A dict whose values are neither dicts nor lists contributes its own
      entries, in order. */
  lemma {:induction false} DictItemsFlat(d: Value, sep: string, i: nat)
    requires d.Dict? && i <= |d.entries|
    requires forall j :: 0 <= j < |d.entries| ==> !d.entries[j].val.Dict? && !d.entries[j].val.List?
    ensures DictItems(d, "", sep, i) == d.entries[i..]
    decreases |d.entries| - i
  {
    if i < |d.entries| {
      DictItemsFlat(d, sep, i + 1);
      assert d.entries[i..] == [d.entries[i]] + d.entries[i + 1..];
    }
  }

  /** A dict with no dict or list values comes back unchanged. */
  lemma FlattenFlat(d: Value, sep: string)
    requires d.Dict? && UniqueKeys(d.entries)
    requires forall j :: 0 <= j < |d.entries| ==> !d.entries[j].val.Dict? && !d.entries[j].val.List?
    ensures Flatten(d, "", sep) == d.entries
  {
    DictItemsFlat(d, sep, 0);
    assert d.entries[0..] == d.entries;
    UpdateFresh([], d.entries);
  }

  /** A value kept as it is by the flattening. */
  predicate Leaf(v: Value) {
    !v.Dict? && !v.List?
  }

  /** `dict([(k, v)])` is the one-entry dict. */
  lemma DictOfSingle(e: Entry)
    ensures DictOf([e]) == [e]
  {
    assert Update([], [e]) == Update(Put([], e.key, e.val), []);
  }

  /** The output of `flatten` is flat: no value in it is a dict or a list,
      and its keys are distinct. */
  lemma {:induction false} FlattenLeaves(d: Value, parent: string, sep: string)
    requires d.Dict?
    ensures forall e :: e in Flatten(d, parent, sep) ==> Leaf(e.val)
    ensures UniqueKeys(Flatten(d, parent, sep))
    decreases d, 3, 0
  {
    DictItemsLeaves(d, parent, sep, 0);
    UpdateFrom([], DictItems(d, parent, sep, 0));
    UpdateUnique([], DictItems(d, parent, sep, 0));
  }

  lemma {:induction false} DictItemsLeaves(d: Value, parent: string, sep: string, i: nat)
    requires d.Dict? && i <= |d.entries|
    ensures forall e :: e in DictItems(d, parent, sep, i) ==> Leaf(e.val)
    decreases d, 2, |d.entries| - i
  {
    if i < |d.entries| {
      assert d.entries[i] in d.entries;
      FlatPairLeaves(NewKey(parent, sep, d.entries[i].key), d.entries[i].val, sep);
      DictItemsLeaves(d, parent, sep, i + 1);
    }
  }

  lemma {:induction false} FlatPairLeaves(newKey: string, v: Value, sep: string)
    ensures forall e :: e in FlatPair(newKey, v, sep) ==> Leaf(e.val)
    decreases v, 4, 0
  {
    match v
    case Dict(_) => FlattenLeaves(v, newKey, sep);
    case List(_) => ListItemsLeaves(newKey, v, 0);
    case _ =>
  }

  lemma {:induction false} ListItemsLeaves(parent: string, v: Value, k: nat)
    requires v.List? && k <= |v.items|
    ensures forall e :: e in ListItems(parent, v, k) ==> Leaf(e.val)
    decreases v, 2, |v.items| - k
  {
    if k < |v.items| {
      var pair := FlatPair(NewKey(parent, "_", PyStrings.NatToString(k)), v.items[k], "_");
      FlatPairLeaves(NewKey(parent, "_", PyStrings.NatToString(k)), v.items[k], "_");
      UpdateFrom([], pair);
      ListItemsLeaves(parent, v, k + 1);
    }
  }

  /** Different keys under the same parent stay different once joined. */
  lemma NewKeyInjective(parent: string, sep: string, x: string, y: string)
    requires NewKey(parent, sep, x) == NewKey(parent, sep, y)
    ensures x == y
  {
    if |parent| > 0 {
      var p := parent + sep;
      assert parent + sep + x == p + x && parent + sep + y == p + y;
      assert x == (p + x)[|p|..] && y == (p + y)[|p|..];
    }
  }

  /** `str(i)` tells different indexes apart. */
  lemma NatToStringInjective(i: nat, j: nat)
    requires PyStrings.NatToString(i) == PyStrings.NatToString(j)
    ensures i == j
  {
    PyStrings.DigitsOfNat(i);
    PyStrings.DigitsOfNat(j);
  }

  /** The entries of a dict of plain values from the `i`-th on, each under
      its key joined to the parent's. */
  lemma {:induction false} DictItemsOfLeaves(d: Value, parent: string, sep: string, i: nat)
    requires d.Dict? && i <= |d.entries|
    requires forall j :: 0 <= j < |d.entries| ==> Leaf(d.entries[j].val)
    ensures |DictItems(d, parent, sep, i)| == |d.entries| - i
    ensures forall j :: 0 <= j < |d.entries| - i ==>
      DictItems(d, parent, sep, i)[j] == Entry(NewKey(parent, sep, d.entries[i + j].key), d.entries[i + j].val)
    decreases |d.entries| - i
  {
    if i < |d.entries| {
      DictItemsOfLeaves(d, parent, sep, i + 1);
      var first := Entry(NewKey(parent, sep, d.entries[i].key), d.entries[i].val);
      assert DictItems(d, parent, sep, i) == [first] + DictItems(d, parent, sep, i + 1);
    }
  }

  /** A dict of plain values nested under key `k` comes out as its own
      entries, in order, each key joined to `k` with the separator. */
  lemma FlattenNested(k: string, inner: Value, sep: string)
    requires inner.Dict? && UniqueKeys(inner.entries)
    requires forall j :: 0 <= j < |inner.entries| ==> Leaf(inner.entries[j].val)
    ensures var r := Flatten(Dict([Entry(k, inner)]), "", sep);
      && |r| == |inner.entries|
      && forall j :: 0 <= j < |r| ==> r[j] == Entry(NewKey(k, sep, inner.entries[j].key), inner.entries[j].val)
  {
    var items := DictItems(inner, k, sep, 0);
    DictItemsOfLeaves(inner, k, sep, 0);
    NestedKeysUnique(k, inner, sep);
    DictOfUnique(items);
    assert FlatPair(k, inner, sep) == items;
    FlattenSingle(k, inner, sep);
    assert Flatten(Dict([Entry(k, inner)]), "", sep) == items;
  }

  /** The items of a list of plain values from the `j`-th element on: each
      under the list's key joined with `_` to its index. */
  lemma {:induction false} ListItemsOfLeaves(k: string, l: Value, j: nat)
    requires l.List? && j <= |l.items|
    requires forall i :: 0 <= i < |l.items| ==> Leaf(l.items[i])
    ensures |ListItems(k, l, j)| == |l.items| - j
    ensures forall i :: 0 <= i < |l.items| - j ==>
      ListItems(k, l, j)[i] == Entry(NewKey(k, "_", PyStrings.NatToString(j + i)), l.items[j + i])
    decreases |l.items| - j
  {
    if j < |l.items| {
      ListItemsOfLeaves(k, l, j + 1);
      ListItemAt(k, l, j);
      var rest := ListItems(k, l, j + 1);
      forall i | 0 < i < |l.items| - j
        ensures ListItems(k, l, j)[i] == Entry(NewKey(k, "_", PyStrings.NatToString(j + i)), l.items[j + i])
      {
        assert ListItems(k, l, j)[i] == rest[i - 1];
        assert j + 1 + (i - 1) == j + i;
      }
    }
  }

  /** A list of plain values under key `k` comes out element by element, in
      order, keyed `k_0`, `k_1`, ...: joined with `_` whatever separator
      the caller passed. */
  lemma FlattenList(k: string, l: Value, sep: string)
    requires l.List? && forall i :: 0 <= i < |l.items| ==> Leaf(l.items[i])
    ensures var r := Flatten(Dict([Entry(k, l)]), "", sep);
      && |r| == |l.items|
      && forall i :: 0 <= i < |r| ==> r[i] == Entry(NewKey(k, "_", PyStrings.NatToString(i)), l.items[i])
  {
    var items := ListItems(k, l, 0);
    ListItemsOfLeaves(k, l, 0);
    ListKeysUnique(k, l);
    FlattenSingle(k, l, sep);
    DictOfUnique(items);
  }

  /** The nested entries keep distinct keys once joined to `k`. */
  lemma NestedKeysUnique(k: string, inner: Value, sep: string)
    requires inner.Dict? && UniqueKeys(inner.entries)
    requires forall j :: 0 <= j < |inner.entries| ==> Leaf(inner.entries[j].val)
    ensures UniqueKeys(DictItems(inner, k, sep, 0))
  {
    var items := DictItems(inner, k, sep, 0);
    DictItemsOfLeaves(inner, k, sep, 0);
    forall a, b | 0 <= a < b < |items| ensures items[a].key != items[b].key {
      assert items[a] == Entry(NewKey(k, sep, inner.entries[0 + a].key), inner.entries[0 + a].val);
      assert items[b] == Entry(NewKey(k, sep, inner.entries[0 + b].key), inner.entries[0 + b].val);
      if items[a].key == items[b].key {
        NewKeyInjective(k, sep, inner.entries[a].key, inner.entries[b].key);
      }
    }
  }

  /** The list's items have distinct keys: their indexes differ. */
  lemma ListKeysUnique(k: string, l: Value)
    requires l.List? && forall i :: 0 <= i < |l.items| ==> Leaf(l.items[i])
    ensures UniqueKeys(ListItems(k, l, 0))
  {
    var items := ListItems(k, l, 0);
    ListItemsOfLeaves(k, l, 0);
    forall a, b | 0 <= a < b < |items| ensures items[a].key != items[b].key {
      if items[a].key == items[b].key {
        NewKeyInjective(k, "_", PyStrings.NatToString(a), PyStrings.NatToString(b));
        NatToStringInjective(a, b);
      }
    }
  }

  /** A one-entry dict flattens to what its entry contributes. */
  lemma FlattenSingle(k: string, v: Value, sep: string)
    ensures Flatten(Dict([Entry(k, v)]), "", sep) == DictOf(FlatPair(k, v, sep))
  {
    var d := Dict([Entry(k, v)]);
    assert DictItems(d, "", sep, 1) == [];
    assert DictItems(d, "", sep, 0) == FlatPair(k, v, sep) + [];
    assert FlatPair(k, v, sep) + [] == FlatPair(k, v, sep);
  }

  /** `dict(items)` over items with distinct keys keeps them as they are. */
  lemma DictOfUnique(items: seq<Entry>)
    requires UniqueKeys(items)
    ensures DictOf(items) == items
  {
    assert [] + items == items;
    UpdateFresh([], items);
  }

  /** A plain list element contributes one item under the list's key and
      its index. */
  lemma ListItemAt(k: string, l: Value, i: nat)
    requires l.List? && i < |l.items| && Leaf(l.items[i])
    ensures ListItems(k, l, i) == [Entry(NewKey(k, "_", PyStrings.NatToString(i)), l.items[i])] + ListItems(k, l, i + 1)
  {
    DictOfSingle(Entry(NewKey(k, "_", PyStrings.NatToString(i)), l.items[i]));
  }

}
