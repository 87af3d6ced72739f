/** `remove_leading_hashtag` of lib/utils/regex_helpers.py:
    `re.sub("#", "", hashtag, 1)` on every string of a list. */
module Hashtags {

  /** The position of the first '#', or `|s|` when there is none. */
  function FirstHash(s: string): (i: nat)
    ensures i <= |s|
    ensures forall j :: 0 <= j < i ==> s[j] != '#'
    ensures i < |s| ==> s[i] == '#'
  {
    if |s| == 0 || s[0] == '#' then 0 else 1 + FirstHash(s[1..])
  }

  /** The string with its first '#' removed, wherever it is. */
  function RemoveFirstHash(s: string): (r: string)
    ensures |r| <= |s| <= |r| + 1
    ensures r == s <==> '#' !in s
  {
    var i := FirstHash(s);
    if i == |s| then s else s[..i] + s[i + 1..]
  }

  /** Exactly the first '#' goes when there is one, and nothing else
      changes: strings without '#' come back unchanged, the others lose the
      '#' at the first position holding one, the characters around it kept
      in order. */
  lemma RemoveFirstHashEffect(s: string)
    ensures '#' !in s ==> RemoveFirstHash(s) == s
    ensures '#' in s ==> exists i :: 0 <= i < |s| && s[i] == '#' && '#' !in s[..i]
                                     && RemoveFirstHash(s) == s[..i] + s[i + 1..]
    ensures '#' in s ==> |RemoveFirstHash(s)| == |s| - 1
                         && multiset(RemoveFirstHash(s)) == multiset(s) - multiset{'#'}
  {
    var i := FirstHash(s);
    if '#' in s {
      var j :| 0 <= j < |s| && s[j] == '#';
      assert i < |s|;
      assert '#' !in s[..i];
      assert s == s[..i] + [s[i]] + s[i + 1..];
    }
  }

  /** Only one '#' goes per call: "##a" becomes "#a", so applying the
      function twice differs from applying it once. */
  lemma NotIdempotent()
    ensures RemoveFirstHash("##a") == "#a"
    ensures RemoveFirstHash(RemoveFirstHash("##a")) == "a"
  {
    assert FirstHash("##a") == 0;
    assert "##a"[..0] + "##a"[1..] == "#a";
    assert FirstHash("#a") == 0;
    assert "#a"[..0] + "#a"[1..] == "a";
  }

  /** `remove_leading_hashtag(hashtags)`: every string with its first '#'
      removed, same count, same order. */
  function RemoveLeadingHashtag(hashtags: seq<string>): (r: seq<string>)
    ensures |r| == |hashtags|
    ensures forall i :: 0 <= i < |hashtags| ==> |r[i]| <= |hashtags[i]| <= |r[i]| + 1
    ensures forall i :: 0 <= i < |hashtags| && '#' !in hashtags[i] ==> r[i] == hashtags[i]
    ensures forall i :: 0 <= i < |hashtags| ==> r[i] == RemoveFirstHash(hashtags[i])
  {
    var r := seq(|hashtags|, i requires 0 <= i < |hashtags| => RemoveFirstHash(hashtags[i]));
    forall i | 0 <= i < |hashtags| ensures |r[i]| <= |hashtags[i]| <= |r[i]| + 1 {
      RemoveFirstHashEffect(hashtags[i]);
    }
    forall i | 0 <= i < |hashtags| && '#' !in hashtags[i] ensures r[i] == hashtags[i] {
      RemoveFirstHashEffect(hashtags[i]);
    }
    r
  }
}
