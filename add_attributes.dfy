/** `add_attributes_to_tweets`: every requested attribute computed for every
    tweet and written back to that tweet's stored document, and the guards
    of `determine_offensiveness`. The store is left out; what the loop hands
    to it is recorded as a list of writes, and an exception ends the loop
    with the writes made so far already stored. */
module AddAttributes {
  import opened Wrappers
  import opened PyValues
  import PyStrings
  import Classifiers
  import UserGroups

  /** One `add_attribute_to_tweet(tweet, attribute, value)` call. */
  datatype Write = Write(tweet: nat, attribute: string, value: Value)

  /** The writes handed to the store and the exception that stopped the
      loop, if one did. */
  datatype Outcome = Outcome(writes: seq<Write>, failure: Option<Error>)

  // ----------------------------------------------- determine_offensiveness

  /** The id of the first reference of type `retweeted`; a reference
      without a type raises KeyError, and with no such reference the text
      variable is never assigned (UnboundLocalError). */
  function RetweetedId(refs: seq<Value>): (r: Result<Value>)
    ensures r.Ok? ==> exists k :: 0 <= k < |refs| && Subscript(refs[k], "type") == Ok(Str("retweeted"))
                                 && Subscript(refs[k], "id") == Ok(r.value)
    ensures (forall k :: 0 <= k < |refs| ==>
               (Subscript(refs[k], "type").Ok? && Subscript(refs[k], "type") != Ok(Str("retweeted"))))
            ==> r == Err(UnboundLocalError)
  {
    if |refs| == 0 then Err(UnboundLocalError)
    else
      var t :- Subscript(refs[0], "type");
      if t == Str("retweeted") then Subscript(refs[0], "id")
      else
        var rest := RetweetedId(refs[1..]);
        if rest.Ok? then
          var k :| 0 <= k < |refs[1..]| && Subscript(refs[1..][k], "type") == Ok(Str("retweeted"))
                  && Subscript(refs[1..][k], "id") == Ok(rest.value);
          assert refs[k + 1] == refs[1..][k];
          rest
        else
          assert forall k :: 0 <= k < |refs[1..]| ==> refs[1..][k] == refs[k + 1];
          rest
  }

  /** The text a retweet without comment is judged by: the retweeted
      tweet's text when the store has it (`lookupText`), the tweet's own
      text when the look-up fails. */
  function RetweetText(tweet: seq<Entry>, lookupText: Value -> Option<string>): (r: Result<Value>)
    ensures "referenced_tweets" !in Keys(tweet) ==> r == Err(KeyError)
    ensures r.Ok? ==> Get(tweet, "referenced_tweets").Some? && Get(tweet, "referenced_tweets").value.List?
                      && RetweetedId(Get(tweet, "referenced_tweets").value.items).Ok?
  {
    var refs :- Subscript(Dict(tweet), "referenced_tweets");
    match refs
    case List(items) =>
      var id :- RetweetedId(items);
      (match lookupText(id)
       case Some(text) => Ok(Str(text))
       case None => Subscript(Dict(tweet), "text"))
    case Str(s) => if |s| == 0 then Err(UnboundLocalError) else Err(TypeError)
    case Dict(e) => if |e| == 0 then Err(UnboundLocalError) else Err(TypeError)
    case _ => Err(TypeError)
  }

  /** `determine_offensiveness`, with the classifier's verdict on a text
      (`predictOffense`) and the store's look-up as inputs. A tweet
      without a type raises before anything else; a tweet not in German
      gets `None`; otherwise the text, line breaks marked, is classified. */
  function DetermineOffensiveness(tweet: seq<Entry>, lookupText: Value -> Option<string>,
                                  predictOffense: string -> bool): (r: Result<Value>)
    ensures "tweet_type" !in Keys(tweet) ==> r == Err(RaisedException)
    ensures "tweet_type" in Keys(tweet) && "lang" !in Keys(tweet) ==> r == Err(KeyError)
    ensures "tweet_type" in Keys(tweet) && Get(tweet, "lang").Some? && Get(tweet, "lang") != Some(Str("de"))
            ==> r == Ok(Null)
    ensures r.Ok? && Get(tweet, "lang") == Some(Str("de")) ==> r.value.Bool?
    ensures Get(tweet, "lang") == Some(Str("de")) && Get(tweet, "tweet_type").Some?
            && Get(tweet, "tweet_type") != Some(Str(Classifiers.RetweetWithoutComment))
            && Get(tweet, "text").Some? && Get(tweet, "text").value.Str?
            ==> r == Ok(Bool(predictOffense(PyStrings.ReplaceAll(Get(tweet, "text").value.s, "\n", "|LBR|"))))
  {
    if "tweet_type" !in Keys(tweet) then Err(RaisedException)
    else
      var lang :- Subscript(Dict(tweet), "lang");
      if lang != Str("de") then Ok(Null)
      else
        var text :- if Get(tweet, "tweet_type") == Some(Str(Classifiers.RetweetWithoutComment))
                    then RetweetText(tweet, lookupText)
                    else Subscript(Dict(tweet), "text");
        if !text.Str? then Err(AttributeError)
        else Ok(Bool(predictOffense(PyStrings.ReplaceAll(text.s, "\n", "|LBR|"))))
  }

  // --------------------------------------------------- the attribute loop

  /** What `add_attributes_to_tweets` computes for one attribute of one
      tweet; an attribute it does not know raises ValueError. */
  function AttributeValue(attribute: string, tweet: seq<Entry>, groups: Value,
                          lookupText: Value -> Option<string>, predictOffense: string -> bool): (r: Result<Value>)
    ensures attribute !in {"tweet_type", "contains_url", "user_type", "is_offensive"} ==> r == Err(ValueError)
  {
    if attribute == "tweet_type" then
      var t :- Classifiers.TweetType(Dict(tweet)); Ok(Str(t))
    else if attribute == "contains_url" then
      var b :- Classifiers.ContainsUrl(Dict(tweet)); Ok(Bool(b))
    else if attribute == "user_type" then
      var u :- Classifiers.UserType(Dict(tweet), groups); Ok(Str(u))
    else if attribute == "is_offensive" then DetermineOffensiveness(tweet, lookupText, predictOffense)
    else Err(ValueError)
  }

  /** The same dispatch in the older variant, which knows no offensiveness. */
  function LibAttributeValue(attribute: string, tweet: seq<Entry>, groups: Value): (r: Result<Value>)
    ensures attribute !in {"tweet_type", "contains_url", "user_type"} ==> r == Err(ValueError)
  {
    if attribute == "tweet_type" then
      var t :- Classifiers.TweetType(Dict(tweet)); Ok(Str(t))
    else if attribute == "contains_url" then
      var b :- Classifiers.ContainsUrl(Dict(tweet)); Ok(Bool(b))
    else if attribute == "user_type" then
      var u :- Classifiers.UserType(Dict(tweet), groups); Ok(Str(u))
    else Err(ValueError)
  }

  /** Whether some write went to attribute `a` of tweet number `t`. */
  predicate Written(writes: seq<Write>, t: nat, a: string) {
    exists w :: w in writes && w.tweet == t && w.attribute == a
  }

  /** An attribute is computed and written only when overwriting or when
      the tweet, as loaded before the loop, lacks it. */
  predicate NeedsComputing(tweet: seq<Entry>, attribute: string, overwrite: bool) {
    overwrite || attribute !in Keys(tweet)
  }

  /** The inner loop over the requested attributes of tweet number `i`,
      `valueOf` computing an attribute of the tweet. */
  function TweetRun(i: nat, tweet: seq<Entry>, attributes: seq<string>, overwrite: bool,
                    valueOf: (seq<Entry>, string) -> Result<Value>): (r: Outcome)
    ensures |r.writes| <= |attributes|
    ensures forall w :: w in r.writes ==> w.tweet == i
    decreases |attributes|
  {
    if |attributes| == 0 then Outcome([], None)
    else
      var prev := TweetRun(i, tweet, attributes[..|attributes| - 1], overwrite, valueOf);
      var a := attributes[|attributes| - 1];
      if prev.failure.Some? || !NeedsComputing(tweet, a, overwrite) then prev
      else match valueOf(tweet, a)
        case Err(e) => Outcome(prev.writes, Some(e))
        case Ok(v) => Outcome(prev.writes + [Write(i, a, v)], None)
  }

  /** The outer loop over the tweets. */
  function Run(tweets: seq<seq<Entry>>, attributes: seq<string>, overwrite: bool,
               valueOf: (seq<Entry>, string) -> Result<Value>): (r: Outcome)
    ensures forall w :: w in r.writes ==> w.tweet < |tweets|
    ensures forall j, k :: 0 <= j < k < |r.writes| ==> r.writes[j].tweet <= r.writes[k].tweet
    decreases |tweets|
  {
    if |tweets| == 0 then Outcome([], None)
    else
      var prev := Run(tweets[..|tweets| - 1], attributes, overwrite, valueOf);
      if prev.failure.Some? then prev
      else
        var step := TweetRun(|tweets| - 1, tweets[|tweets| - 1], attributes, overwrite, valueOf);
        Outcome(prev.writes + step.writes, step.failure)
  }

  /** Every write of one tweet is to that tweet, of a requested attribute it
      needed. */
  lemma {:induction false} TweetRunWritesNeeded(i: nat, tweet: seq<Entry>, attributes: seq<string>, overwrite: bool,
                                                valueOf: (seq<Entry>, string) -> Result<Value>)
    ensures forall w :: w in TweetRun(i, tweet, attributes, overwrite, valueOf).writes ==>
      w.tweet == i && w.attribute in attributes && NeedsComputing(tweet, w.attribute, overwrite)
      && valueOf(tweet, w.attribute) == Ok(w.value)
    decreases |attributes|
  {
    if |attributes| > 0 {
      TweetRunWritesNeeded(i, tweet, attributes[..|attributes| - 1], overwrite, valueOf);
    }
  }

  /** The skip rule: whatever is written is a requested attribute the tweet
      lacked (or any requested one when overwriting), with the value
      computed from the tweet as loaded; an attribute a tweet already has is
      never touched unless overwriting. */
  lemma {:induction false} RunWritesOnlyNeeded(tweets: seq<seq<Entry>>, attributes: seq<string>, overwrite: bool,
                                               valueOf: (seq<Entry>, string) -> Result<Value>)
    ensures forall w :: w in Run(tweets, attributes, overwrite, valueOf).writes ==>
      w.tweet < |tweets| && w.attribute in attributes && NeedsComputing(tweets[w.tweet], w.attribute, overwrite)
      && valueOf(tweets[w.tweet], w.attribute) == Ok(w.value)
    decreases |tweets|
  {
    if |tweets| > 0 {
      var init := tweets[..|tweets| - 1];
      RunWritesOnlyNeeded(init, attributes, overwrite, valueOf);
      TweetRunWritesNeeded(|tweets| - 1, tweets[|tweets| - 1], attributes, overwrite, valueOf);
    }
  }

  /** Without an exception, every requested attribute the tweet needed was
      computed and written. */
  lemma {:induction false} TweetRunWritesAllNeeded(i: nat, tweet: seq<Entry>, attributes: seq<string>, overwrite: bool,
                                                   valueOf: (seq<Entry>, string) -> Result<Value>)
    requires TweetRun(i, tweet, attributes, overwrite, valueOf).failure == None
    ensures forall a :: a in attributes && NeedsComputing(tweet, a, overwrite) ==>
      Written(TweetRun(i, tweet, attributes, overwrite, valueOf).writes, i, a)
    decreases |attributes|
  {
    if |attributes| > 0 {
      var init := attributes[..|attributes| - 1];
      var last := attributes[|attributes| - 1];
      var prev := TweetRun(i, tweet, init, overwrite, valueOf);
      var r := TweetRun(i, tweet, attributes, overwrite, valueOf);
      assert prev.failure == None;
      TweetRunWritesAllNeeded(i, tweet, init, overwrite, valueOf);
      assert forall w :: w in prev.writes ==> w in r.writes;
      forall a | a in attributes && NeedsComputing(tweet, a, overwrite)
        ensures Written(r.writes, i, a)
      {
        if a !in init {
          assert attributes == init + [last];
          assert a == last;
          var v := valueOf(tweet, a).value;
          assert Write(i, a, v) in r.writes;
        }
      }
    }
  }

  /** The other half of the skip rule: when nothing raises, every requested
      attribute of every tweet that needed it (each one when overwriting,
      otherwise each one the tweet lacked) was written. */
  lemma {:induction false} RunWritesAllNeeded(tweets: seq<seq<Entry>>, attributes: seq<string>, overwrite: bool,
                                              valueOf: (seq<Entry>, string) -> Result<Value>)
    requires Run(tweets, attributes, overwrite, valueOf).failure == None
    ensures forall t, a :: 0 <= t < |tweets| && a in attributes && NeedsComputing(tweets[t], a, overwrite) ==>
      Written(Run(tweets, attributes, overwrite, valueOf).writes, t, a)
    decreases |tweets|
  {
    if |tweets| > 0 {
      var n := |tweets| - 1;
      var init := tweets[..n];
      var prev := Run(init, attributes, overwrite, valueOf);
      var step := TweetRun(n, tweets[n], attributes, overwrite, valueOf);
      var r := Run(tweets, attributes, overwrite, valueOf);
      assert prev.failure == None && r.writes == prev.writes + step.writes;
      RunWritesAllNeeded(init, attributes, overwrite, valueOf);
      TweetRunWritesAllNeeded(n, tweets[n], attributes, overwrite, valueOf);
      forall t, a | 0 <= t < |tweets| && a in attributes && NeedsComputing(tweets[t], a, overwrite)
        ensures Written(r.writes, t, a)
      {
        if t < n {
          assert tweets[t] == init[t];
        }
        WrittenInEither(prev.writes, step.writes, t, a);
      }
    }
  }

  /** A write made by either part of the loop is among the writes of both. */
  lemma WrittenInEither(xs: seq<Write>, ys: seq<Write>, t: nat, a: string)
    requires Written(xs, t, a) || Written(ys, t, a)
    ensures Written(xs + ys, t, a)
  {
    var w :| (w in xs || w in ys) && w.tweet == t && w.attribute == a;
    assert w in xs + ys;
  }

  /** Nothing needs computing for a tweet that already has every requested
      attribute when not overwriting, so not even an unknown attribute
      raises. */
  lemma {:induction false} TweetRunNothingNeeded(i: nat, tweet: seq<Entry>, attributes: seq<string>,
                                                 valueOf: (seq<Entry>, string) -> Result<Value>)
    requires forall k :: 0 <= k < |attributes| ==> attributes[k] in Keys(tweet)
    ensures TweetRun(i, tweet, attributes, false, valueOf) == Outcome([], None)
    decreases |attributes|
  {
    if |attributes| > 0 {
      TweetRunNothingNeeded(i, tweet, attributes[..|attributes| - 1], valueOf);
    }
  }

  /** An unknown attribute raises only when it would need computing: over
      tweets that all carry every requested attribute, without overwriting,
      the loop writes nothing and raises nothing. */
  lemma {:induction false} RunNothingNeeded(tweets: seq<seq<Entry>>, attributes: seq<string>,
                                            valueOf: (seq<Entry>, string) -> Result<Value>)
    requires forall t, k :: 0 <= t < |tweets| && 0 <= k < |attributes| ==> attributes[k] in Keys(tweets[t])
    ensures Run(tweets, attributes, false, valueOf) == Outcome([], None)
    decreases |tweets|
  {
    if |tweets| > 0 {
      RunNothingNeeded(tweets[..|tweets| - 1], attributes, valueOf);
      TweetRunNothingNeeded(|tweets| - 1, tweets[|tweets| - 1], attributes, valueOf);
    }
  }

  /** A requested attribute that is not known raises ValueError at the first
      tweet that needs it computed. */
  lemma UnknownAttributeRaises(tweet: seq<Entry>, attribute: string, overwrite: bool, groups: Value,
                               lookupText: Value -> Option<string>, predictOffense: string -> bool)
    requires attribute !in {"tweet_type", "contains_url", "user_type", "is_offensive"}
    requires NeedsComputing(tweet, attribute, overwrite)
    ensures TweetRun(0, tweet, [attribute], overwrite,
                     (t, a) => AttributeValue(a, t, groups, lookupText, predictOffense))
            == Outcome([], Some(ValueError))
  {
    assert [attribute][..0] == [];
  }

  /** Two attribute computations that agree on the requested attributes run
      the same inner loop. */
  lemma {:induction false} TweetRunAgrees(i: nat, tweet: seq<Entry>, attributes: seq<string>, overwrite: bool,
                                          f: (seq<Entry>, string) -> Result<Value>,
                                          g: (seq<Entry>, string) -> Result<Value>)
    requires forall k :: 0 <= k < |attributes| ==> f(tweet, attributes[k]) == g(tweet, attributes[k])
    ensures TweetRun(i, tweet, attributes, overwrite, f) == TweetRun(i, tweet, attributes, overwrite, g)
    decreases |attributes|
  {
    if |attributes| > 0 {
      TweetRunAgrees(i, tweet, attributes[..|attributes| - 1], overwrite, f, g);
    }
  }

  lemma {:induction false} RunAgrees(tweets: seq<seq<Entry>>, attributes: seq<string>, overwrite: bool,
                                     f: (seq<Entry>, string) -> Result<Value>,
                                     g: (seq<Entry>, string) -> Result<Value>)
    requires forall t, k :: 0 <= t < |tweets| && 0 <= k < |attributes| ==>
      f(tweets[t], attributes[k]) == g(tweets[t], attributes[k])
    ensures Run(tweets, attributes, overwrite, f) == Run(tweets, attributes, overwrite, g)
    decreases |tweets|
  {
    if |tweets| > 0 {
      RunAgrees(tweets[..|tweets| - 1], attributes, overwrite, f, g);
      TweetRunAgrees(|tweets| - 1, tweets[|tweets| - 1], attributes, overwrite, f, g);
    }
  }

  /** The older variant writes every requested attribute of every tweet: it
      is the newer one always overwriting, as long as offensiveness is not
      requested. */
  lemma LibIsOverwritingRun(tweets: seq<seq<Entry>>, attributes: seq<string>, groups: Value,
                            lookupText: Value -> Option<string>, predictOffense: string -> bool)
    requires "is_offensive" !in attributes
    ensures Run(tweets, attributes, true, (t, a) => LibAttributeValue(a, t, groups))
         == Run(tweets, attributes, true, (t, a) => AttributeValue(a, t, groups, lookupText, predictOffense))
  {
    RunAgrees(tweets, attributes, true, (t, a) => LibAttributeValue(a, t, groups),
              (t, a) => AttributeValue(a, t, groups, lookupText, predictOffense));
  }

  /** The older variant's dispatch as the loop's attribute computation. */
  function LibValueOf(groups: Value): (seq<Entry>, string) -> Result<Value> {
    (t, a) => LibAttributeValue(a, t, groups)
  }

  /** In the older variant every requested attribute of every tweet is
      written, with the value its dispatch computes, unless the loop
      raised. */
  lemma LibWritesEveryAttribute(tweets: seq<seq<Entry>>, attributes: seq<string>, groups: Value)
    requires Run(tweets, attributes, true, LibValueOf(groups)).failure == None
    ensures forall t, a :: 0 <= t < |tweets| && a in attributes ==>
      Written(Run(tweets, attributes, true, LibValueOf(groups)).writes, t, a)
    ensures forall w :: w in Run(tweets, attributes, true, LibValueOf(groups)).writes ==>
      w.tweet < |tweets| && LibAttributeValue(w.attribute, tweets[w.tweet], groups) == Ok(w.value)
  {
    RunWritesAllNeeded(tweets, attributes, true, LibValueOf(groups));
    RunWritesOnlyNeeded(tweets, attributes, true, LibValueOf(groups));
  }

  /** The groups `add_attributes_to_tweets` computes from the author of every
      tweet, as the dict `user_type` reads. */
  function GroupsOf(authorIds: seq<int>): Value {
    UserGroups.GroupsDict(UserGroups.CalculateUserGroups(authorIds))
  }

  /** `add_attributes_to_tweets`, with the tweets as loaded dicts, their
      author column for the user groups, and the two foreign calls as
      inputs. The groups are only built when `user_type` is requested. */
  method AddAttributesToTweets(tweets: seq<seq<Entry>>, authorIds: seq<int>, attributes: seq<string>,
                               overwrite: bool, lookupText: Value -> Option<string>,
                               predictOffense: string -> bool)
    returns (out: Outcome)
    ensures out == Run(tweets, attributes, overwrite,
                       (t, a) => AttributeValue(a, t, GroupsOf(authorIds), lookupText, predictOffense))
    ensures out.failure == None ==>
      forall t, a :: 0 <= t < |tweets| && a in attributes && NeedsComputing(tweets[t], a, overwrite) ==>
        Written(out.writes, t, a)
    ensures forall w :: w in out.writes ==>
      w.tweet < |tweets| && w.attribute in attributes && NeedsComputing(tweets[w.tweet], w.attribute, overwrite)
      && AttributeValue(w.attribute, tweets[w.tweet], GroupsOf(authorIds), lookupText, predictOffense) == Ok(w.value)
  {
    var groups := Null;
    if "user_type" in attributes {
      groups := GroupsOf(authorIds);
    }
    var valueOf := (t, a) => AttributeValue(a, t, groups, lookupText, predictOffense);
    forall t, k | 0 <= t < |tweets| && 0 <= k < |attributes|
      ensures valueOf(tweets[t], attributes[k])
           == AttributeValue(attributes[k], tweets[t], GroupsOf(authorIds), lookupText, predictOffense)
    {
      if attributes[k] == "user_type" {
        assert attributes[k] in attributes;
      }
    }
    RunAgrees(tweets, attributes, overwrite, valueOf,
              (t, a) => AttributeValue(a, t, GroupsOf(authorIds), lookupText, predictOffense));
    out := RunLoop(tweets, attributes, overwrite, valueOf);
    ghost var spec := (t, a) => AttributeValue(a, t, GroupsOf(authorIds), lookupText, predictOffense);
    RunWritesOnlyNeeded(tweets, attributes, overwrite, spec);
    if out.failure == None {
      RunWritesAllNeeded(tweets, attributes, overwrite, spec);
    }
  }

  /** The outer loop: each tweet's attributes in turn, stopping at the first
      exception. */
  method RunLoop(tweets: seq<seq<Entry>>, attributes: seq<string>, overwrite: bool,
                 valueOf: (seq<Entry>, string) -> Result<Value>)
    returns (out: Outcome)
    ensures out == Run(tweets, attributes, overwrite, valueOf)
  {
    var writes: seq<Write> := [];
    for i := 0 to |tweets|
      invariant Run(tweets[..i], attributes, overwrite, valueOf) == Outcome(writes, None)
    {
      var longer := tweets[..i + 1];
      assert longer[..|longer| - 1] == tweets[..i] && longer[|longer| - 1] == tweets[i];
      var step := TweetLoop(i, tweets[i], attributes, overwrite, valueOf);
      writes := writes + step.writes;
      if step.failure.Some? {
        RunFailsEarly(tweets, attributes, i + 1, overwrite, valueOf);
        return Outcome(writes, step.failure);
      }
    }
    assert tweets[..|tweets|] == tweets;
    return Outcome(writes, None);
  }

  /** The inner loop: every requested attribute the tweet needs, computed
      and written, stopping at the first exception. */
  method TweetLoop(i: nat, tweet: seq<Entry>, attributes: seq<string>, overwrite: bool,
                   valueOf: (seq<Entry>, string) -> Result<Value>)
    returns (out: Outcome)
    ensures out == TweetRun(i, tweet, attributes, overwrite, valueOf)
  {
    var writes: seq<Write> := [];
    for j := 0 to |attributes|
      invariant TweetRun(i, tweet, attributes[..j], overwrite, valueOf) == Outcome(writes, None)
    {
      var attribute := attributes[j];
      var wider := attributes[..j + 1];
      assert wider[..|wider| - 1] == attributes[..j] && wider[|wider| - 1] == attribute;
      if NeedsComputing(tweet, attribute, overwrite) {
        var value := valueOf(tweet, attribute);
        if value.Err? {
          TweetRunFailsEarly(i, tweet, attributes, j + 1, overwrite, valueOf);
          return Outcome(writes, Some(value.error));
        }
        writes := writes + [Write(i, attribute, value.value)];
      }
    }
    assert attributes[..|attributes|] == attributes;
    return Outcome(writes, None);
  }

  /** Once the inner loop has failed, later attributes change nothing. */
  lemma {:induction false} TweetRunFailsEarly(i: nat, tweet: seq<Entry>, attributes: seq<string>, n: nat,
                                              overwrite: bool, valueOf: (seq<Entry>, string) -> Result<Value>)
    requires n <= |attributes| && TweetRun(i, tweet, attributes[..n], overwrite, valueOf).failure.Some?
    ensures TweetRun(i, tweet, attributes, overwrite, valueOf) == TweetRun(i, tweet, attributes[..n], overwrite, valueOf)
    decreases |attributes| - n
  {
    if n < |attributes| {
      var longer := attributes[..n + 1];
      assert longer[..|longer| - 1] == attributes[..n];
      TweetRunFailsEarly(i, tweet, attributes, n + 1, overwrite, valueOf);
    } else {
      assert attributes[..n] == attributes;
    }
  }

  /** Once the outer loop has failed, later tweets change nothing. */
  lemma {:induction false} RunFailsEarly(tweets: seq<seq<Entry>>, attributes: seq<string>, n: nat,
                                         overwrite: bool, valueOf: (seq<Entry>, string) -> Result<Value>)
    requires n <= |tweets| && Run(tweets[..n], attributes, overwrite, valueOf).failure.Some?
    ensures Run(tweets, attributes, overwrite, valueOf) == Run(tweets[..n], attributes, overwrite, valueOf)
    decreases |tweets| - n
  {
    if n < |tweets| {
      var longer := tweets[..n + 1];
      assert longer[..|longer| - 1] == tweets[..n];
      RunFailsEarly(tweets, attributes, n + 1, overwrite, valueOf);
    } else {
      assert tweets[..n] == tweets;
    }
  }
}
