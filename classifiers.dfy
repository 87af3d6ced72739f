/** The per-tweet classifiers: whether a tweet carries a URL, what kind of
    tweet it is (from its first reference), which activity group its author
    belongs to, and the sentiment band of a polarity score. Tweets are the
    JSON dicts the API returns. */
module Classifiers {
  import opened Wrappers
  import opened PyValues

  const OriginalTweet: string := "original tweet"
  const RetweetWithComment: string := "retweet with comment"
  const RetweetWithoutComment: string := "retweet without comment"
  const Reply: string := "reply"

  /** `contains_url`: whether the tweet's `entities` has a `urls` key; a
      tweet without `entities` raises KeyError. */
  function ContainsUrl(tweet: Value): (r: Result<bool>)
    ensures Subscript(tweet, "entities").Err? ==> r == Err(Subscript(tweet, "entities").error)
    ensures Subscript(tweet, "entities").Ok? && Subscript(tweet, "entities").value.Dict? ==>
      r == Ok("urls" in Keys(Subscript(tweet, "entities").value.entries))
  {
    var entities :- Subscript(tweet, "entities");
    In(Str("urls"), entities)
  }

  /** `x[0]` for the truthy values that can be subscripted by position: a
      list gives its first element and a string its first character; a dict
      has no key `0` among its string keys, and scalars are not
      subscriptable. */
  function First(v: Value): (r: Result<Value>)
    requires Truthy(v)
    ensures v.List? ==> r == Ok(v.items[0])
    ensures v.Dict? ==> r == Err(KeyError)
    ensures !(v.List? || v.Str? || v.Dict?) ==> r == Err(TypeError)
  {
    match v
    case List(items) => Ok(items[0])
    case Str(s) => Ok(Str([s[0]]))
    case Dict(_) => Err(KeyError)
    case _ => Err(TypeError)
  }

  /** The label a reference type stands for; any other type raises. */
  function ReferenceLabel(t: Value): (r: Result<string>)
    ensures r.Ok? <==> t in {Str("quoted"), Str("retweeted"), Str("replied_to")}
    ensures r.Err? ==> r.error == RaisedException
    ensures t == Str("quoted") ==> r == Ok(RetweetWithComment)
    ensures t == Str("retweeted") ==> r == Ok(RetweetWithoutComment)
    ensures t == Str("replied_to") ==> r == Ok(Reply)
  {
    if t == Str("quoted") then Ok(RetweetWithComment)
    else if t == Str("retweeted") then Ok(RetweetWithoutComment)
    else if t == Str("replied_to") then Ok(Reply)
    else Err(RaisedException)
  }

  /** `tweet_type`: an original tweet when `referenced_tweets` is empty or
      null, otherwise the type of the first reference alone decides. */
  function TweetType(tweet: Value): (r: Result<string>)
    ensures Subscript(tweet, "referenced_tweets").Err? ==> r.Err?
    ensures r == Ok(OriginalTweet) <==>
      Subscript(tweet, "referenced_tweets").Ok? && !Truthy(Subscript(tweet, "referenced_tweets").value)
    ensures var refs := Subscript(tweet, "referenced_tweets");
      refs.Ok? && refs.value.List? && |refs.value.items| > 0 ==>
        r == (match Subscript(refs.value.items[0], "type")
              case Err(e) => Err(e)
              case Ok(t) => ReferenceLabel(t))
  {
    var refs :- Subscript(tweet, "referenced_tweets");
    if !Truthy(refs) then Ok(OriginalTweet)
    else
      var first :- First(refs);
      var t :- Subscript(first, "type");
      ReferenceLabel(t)
  }

  /** Only the first reference counts: two tweets whose reference lists
      start alike have the same type, whatever follows. */
  lemma TweetTypeFirstReferenceOnly(a: Value, b: Value)
    requires Subscript(a, "referenced_tweets").Ok? && Subscript(b, "referenced_tweets").Ok?
    requires Subscript(a, "referenced_tweets").value.List? && Subscript(b, "referenced_tweets").value.List?
    requires |Subscript(a, "referenced_tweets").value.items| > 0
    requires |Subscript(b, "referenced_tweets").value.items| > 0
    requires Subscript(a, "referenced_tweets").value.items[0] == Subscript(b, "referenced_tweets").value.items[0]
    ensures TweetType(a) == TweetType(b)
  {
  }

  /** A tweet that reaches the reference types always gets one of the four
      labels or raises. */
  lemma TweetTypeLabels(tweet: Value)
    requires TweetType(tweet).Ok?
    ensures TweetType(tweet).value in {OriginalTweet, RetweetWithComment, RetweetWithoutComment, Reply}
  {
  }

  const HyperActive: string := "hyper-active"
  const Active: string := "active"
  const Laggard: string := "laggard"

  /** `user_type` with the three groups given (the variant taking them as
      arguments): the first group, in the order hyper-active, active,
      lurking, that holds the author decides; a later group is only looked
      at when the earlier ones do not hold the author, and an author in no
      group raises. */
  function UserTypeIn(author: Value, hype: Value, active: Value, laggard: Value): (r: Result<string>)
    ensures r == Ok(HyperActive) <==> In(author, hype) == Ok(true)
    ensures r == Ok(Active) <==> In(author, hype) == Ok(false) && In(author, active) == Ok(true)
    ensures r == Ok(Laggard) <==>
      In(author, hype) == Ok(false) && In(author, active) == Ok(false) && In(author, laggard) == Ok(true)
    ensures r == Err(RaisedException) <==>
      In(author, hype) == Ok(false) && In(author, active) == Ok(false) && In(author, laggard) == Ok(false)
  {
    var inHype :- In(author, hype);
    if inHype then Ok(HyperActive)
    else
      var inActive :- In(author, active);
      if inActive then Ok(Active)
      else
        var inLaggard :- In(author, laggard);
        if inLaggard then Ok(Laggard) else Err(RaisedException)
  }

  /** `user_type` with the groups in a dict: the same ordered look-up, each
      group read from the dict only when it is needed. */
  function UserType(tweet: Value, groups: Value): (r: Result<string>)
    ensures Subscript(tweet, "author_id").Err? ==> r == Err(Subscript(tweet, "author_id").error)
    ensures (Subscript(tweet, "author_id").Ok?
             && Subscript(groups, "hyper_active_users").Ok? && Subscript(groups, "active_users").Ok?
             && Subscript(groups, "lurking_users").Ok?) ==>
      r == UserTypeIn(Subscript(tweet, "author_id").value, Subscript(groups, "hyper_active_users").value,
                      Subscript(groups, "active_users").value, Subscript(groups, "lurking_users").value)
  {
    var author :- Subscript(tweet, "author_id");
    var hype :- Subscript(groups, "hyper_active_users");
    var inHype :- In(author, hype);
    if inHype then Ok(HyperActive)
    else
      var active :- Subscript(groups, "active_users");
      var inActive :- In(author, active);
      if inActive then Ok(Active)
      else
        var laggard :- Subscript(groups, "lurking_users");
        var inLaggard :- In(author, laggard);
        if inLaggard then Ok(Laggard) else Err(RaisedException)
  }

  /** A hyper-active author needs no other group to be present. */
  lemma HyperActiveNeedsOnlyItsGroup(tweet: Value, groups: Value)
    requires Subscript(tweet, "author_id").Ok? && Subscript(groups, "hyper_active_users").Ok?
    requires In(Subscript(tweet, "author_id").value, Subscript(groups, "hyper_active_users").value) == Ok(true)
    ensures UserType(tweet, groups) == Ok(HyperActive)
  {
  }

  const Negative: string := "negative"
  const Neutral: string := "neutral"
  const Positive: string := "positive"

  /** The default cut-off points of `tweet_sentiment_category`. */
  const DefaultCutoff: (real, real) := (-0.3, 0.3)

  /** `tweet_sentiment_category` with the polarity score as input: below the
      first cut-off negative, below the second neutral, positive otherwise. */
  function SentimentCategory(score: real, cutoff: (real, real)): (r: string)
    ensures r in {Negative, Neutral, Positive}
    ensures r == Negative <==> score < cutoff.0
    ensures r == Neutral <==> cutoff.0 <= score < cutoff.1
    ensures r == Positive <==> cutoff.0 <= score && cutoff.1 <= score
  {
    if score < cutoff.0 then Negative
    else if score < cutoff.1 then Neutral
    else Positive
  }

  /** With the cut-offs crossed no score is neutral. */
  lemma CrossedCutoffsNeverNeutral(score: real, cutoff: (real, real))
    requires cutoff.1 <= cutoff.0
    ensures SentimentCategory(score, cutoff) != Neutral
  {
  }

  /** A higher score never falls into a lower band. */
  lemma SentimentMonotone(s: real, t: real, cutoff: (real, real))
    requires s <= t
    ensures SentimentCategory(s, cutoff) == Positive ==> SentimentCategory(t, cutoff) == Positive
    ensures SentimentCategory(t, cutoff) == Negative ==> SentimentCategory(s, cutoff) == Negative
  {
  }
}
