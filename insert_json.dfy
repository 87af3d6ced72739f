/** Cleaning a file of JSON lines before it is loaded: the lines that hold
    no tweets (the `newest_id` bookkeeping and the `users` and `media`
    includes) are dropped and counted, every other line is copied. The files
    are sequences of lines. */
module InsertJson {

  /** What the first eight characters of a line say about it. */
  datatype LineKind = Newest | UsersLine | MediaLine | TweetLine

  function Classify(line: string): (k: LineKind)
    ensures k != TweetLine ==> |line| >= 8
    ensures k == Newest <==> |line| >= 8 && line[..8] == "{\"newest"
    ensures k == UsersLine <==> |line| >= 8 && line[..8] == "{\"users\""
    ensures k == MediaLine <==> |line| >= 8 && line[..8] == "{\"media\""
  {
    var first := if |line| < 8 then line else line[..8];
    if first == "{\"newest" then Newest
    else if first == "{\"users\"" then UsersLine
    else if first == "{\"media\"" then MediaLine
    else TweetLine
  }

  /** The lines copied to the output, in their order. */
  function Kept(lines: seq<string>): (r: seq<string>)
    ensures |r| <= |lines|
    decreases |lines|
  {
    if |lines| == 0 then []
    else
      var init := Kept(lines[..|lines| - 1]);
      var last := lines[|lines| - 1];
      if Classify(last) == TweetLine then init + [last] else init
  }

  /** How many lines are of the given kind. */
  function Count(lines: seq<string>, kind: LineKind): (n: nat)
    ensures n <= |lines|
    decreases |lines|
  {
    if |lines| == 0 then 0
    else Count(lines[..|lines| - 1], kind) + (if Classify(lines[|lines| - 1]) == kind then 1 else 0)
  }

  /** `clean_json` with the input file as its lines: the lines written and
      the report `(newest, users, media)` of the lines removed. */
  method CleanJson(lines: seq<string>) returns (written: seq<string>, newest: nat, users: nat, media: nat)
    ensures written == Kept(lines)
    ensures newest == Count(lines, Newest) && users == Count(lines, UsersLine) && media == Count(lines, MediaLine)
  {
    written, newest, users, media := [], 0, 0, 0;
    for i := 0 to |lines|
      invariant written == Kept(lines[..i])
      invariant newest == Count(lines[..i], Newest)
      invariant users == Count(lines[..i], UsersLine)
      invariant media == Count(lines[..i], MediaLine)
    {
      var longer := lines[..i + 1];
      assert longer[..|longer| - 1] == lines[..i] && longer[|longer| - 1] == lines[i];
      var row := lines[i];
      var first := if |row| < 8 then row else row[..8];
      if first == "{\"newest" {
        newest := newest + 1;
      } else if first == "{\"users\"" {
        users := users + 1;
      } else if first == "{\"media\"" {
        media := media + 1;
      } else {
        written := written + [row];
      }
    }
    assert lines[..|lines|] == lines;
  }

  /** Every line is either removed and counted or written: the three counts
      and the written lines add up to the input. */
  lemma {:induction false} CountsAddUp(lines: seq<string>)
    ensures Count(lines, Newest) + Count(lines, UsersLine) + Count(lines, MediaLine) + |Kept(lines)| == |lines|
    decreases |lines|
  {
    if |lines| > 0 {
      CountsAddUp(lines[..|lines| - 1]);
    }
  }

  /** The loop's output agrees with the front-to-back filter: the written
      lines are exactly the input's tweet lines, in their order. */
  lemma {:induction false} KeptIsFilter(lines: seq<string>)
    ensures Kept(lines) == FilterTweets(lines)
    decreases |lines|
  {
    if |lines| > 0 {
      KeptIsFilter(lines[..|lines| - 1]);
      FilterTweetsAppend(lines[..|lines| - 1], lines[|lines| - 1]);
      assert lines[..|lines| - 1] + [lines[|lines| - 1]] == lines;
    }
  }

  /** The tweet lines of `lines`, front to back. */
  function FilterTweets(lines: seq<string>): (r: seq<string>)
    ensures |r| <= |lines|
    ensures forall k :: 0 <= k < |r| ==> Classify(r[k]) == TweetLine
    decreases |lines|
  {
    if |lines| == 0 then []
    else (if Classify(lines[0]) == TweetLine then [lines[0]] else []) + FilterTweets(lines[1..])
  }

  lemma {:induction false} FilterTweetsAppend(a: seq<string>, x: string)
    ensures FilterTweets(a + [x]) == FilterTweets(a) + (if Classify(x) == TweetLine then [x] else [])
    decreases |a|
  {
    if |a| > 0 {
      assert (a + [x])[0] == a[0] && (a + [x])[1..] == a[1..] + [x];
      FilterTweetsAppend(a[1..], x);
    } else {
      assert a + [x] == [x] && [x][1..] == [];
    }
  }

  /** A line shorter than eight characters is always written. */
  lemma {:induction false} ShortLinesKept(lines: seq<string>, i: nat)
    requires i < |lines| && |lines[i]| < 8
    ensures lines[i] in Kept(lines)
    decreases |lines|
  {
    if i < |lines| - 1 {
      ShortLinesKept(lines[..|lines| - 1], i);
    }
  }

  /** A line starting with one of the three markers is never written. */
  lemma {:induction false} MarkedLinesDropped(lines: seq<string>, x: string)
    requires Classify(x) != TweetLine
    ensures x !in Kept(lines)
    decreases |lines|
  {
    if |lines| > 0 {
      MarkedLinesDropped(lines[..|lines| - 1], x);
    }
  }
}
