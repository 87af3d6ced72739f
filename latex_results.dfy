/** The two text passes that turn a printed table of logistic-regression
    results into LaTeX: the first keeps the interesting lines and rewrites
    each into a table row with a significance mark, the second wraps the rows
    of every firestorm into a table of its own. Files are sequences of lines
    (as `readlines()` gives them, each with its line break) and the output is
    the concatenation of everything written. */
module LatexResults {
  import opened Wrappers
  import opened PyStrings

  /** The renamings applied to every kept line, in the dictionary's order. */
  const ReplaceDict: seq<(string, string)> := [
    ("midnight_to_six_am", "12am-06am"),
    ("six_am_to_noon", "06am-12pm"),
    ("noon_to_six_pm", "12pm-06pm"),
    ("after", "post-hype"),
    ("before", "pre-hype"),
    ("original_tweet", "original tweet"),
    ("reply", "reply"),
    ("retweet_with_comment", "quoted"),
    ("hyper_active", "hyperactive"),
    ("laggard", "lurker"),
    ("Intercept", "\\textbf{Intercept}")
  ]

  /** The end of every row LaTeX needs: a forced line break and a newline. */
  const RowEnd: string := "\\\\ \n"

  predicate PatternsNonEmpty(pairs: seq<(string, string)>) {
    forall k :: 0 <= k < |pairs| ==> |pairs[k].0| > 0
  }

  /** Applies every `(old, new)` renaming in turn. */
  function ReplaceEach(s: string, pairs: seq<(string, string)>): (r: string)
    requires PatternsNonEmpty(pairs)
    ensures (forall k :: 0 <= k < |pairs| ==> !IsSubstring(pairs[k].0, s)) ==> r == s
    decreases |pairs|
  {
    if |pairs| == 0 then s
    else
      var once := ReplaceAll(s, pairs[0].0, pairs[0].1);
      if !IsSubstring(pairs[0].0, s) then
        ReplaceAbsent(s, pairs[0].0, pairs[0].1);
        ReplaceEach(once, pairs[1..])
      else ReplaceEach(once, pairs[1..])
  }

  /** `include_line`: the line names one of the renamed terms or one of the
      queried firestorms (`queryKeys`, the keys of the query table). */
  predicate IncludeLine(line: string, queryKeys: seq<string>) {
    (exists k :: 0 <= k < |ReplaceDict| && IsSubstring(ReplaceDict[k].0, line))
    || (exists k :: 0 <= k < |queryKeys| && IsSubstring(queryKeys[k], line))
  }

  /** The mark a p-value earns, each level divided by the twelve firestorms
      (Bonferroni correction). */
  function Stars(p: real): (r: string)
    ensures r == "***" <==> p < 0.001 / 12.0
    ensures r == "**" <==> 0.001 / 12.0 <= p < 0.01 / 12.0
    ensures r == "*" <==> 0.01 / 12.0 <= p < 0.05 / 12.0
    ensures r == "\U{2020}" <==> 0.05 / 12.0 <= p < 0.1 / 12.0
    ensures r == "" <==> 0.1 / 12.0 <= p
  {
    if p < 0.001 / 12.0 then "***"
    else if p < 0.01 / 12.0 then "**"
    else if p < 0.05 / 12.0 then "*"
    else if p < 0.1 / 12.0 then "\U{2020}"
    else ""
  }

  /** A smaller p-value never earns fewer stars. */
  lemma StarsMonotone(p: real, q: real)
    requires p <= q
    ensures |Stars(p)| >= |Stars(q)| || Stars(q) == "\U{2020}"
    ensures Stars(q) == "\U{2020}" ==> Stars(p) != ""
  {
  }

  /** `prettify_line`: a line holding one token (a firestorm's name) keeps it;
      any other line must have at least five tokens, the fifth a number (the
      p-value), and its first five become the cells of a row marked by the
      p-value. Too few tokens is an IndexError, an unparsable p-value a
      ValueError (`toFloat` is Python's `float()`). */
  function PrettifyLine(line: string, toFloat: string -> Option<real>): (r: Result<string>)
    ensures var w := Words(line);
      r.Err? <==> |w| != 1 && (|w| < 5 || toFloat(w[4]).None?)
    ensures var w := Words(line);
      |w| < 1 || (1 < |w| < 5) ==> r == Err(IndexError)
    ensures var w := Words(line);
      r.Ok? && |w| == 1 ==> r.value == ReplaceEach(w[0], ReplaceDict) + RowEnd
    ensures var w := Words(line);
      r.Ok? && |w| >= 5 ==> r.value == ReplaceEach(Join(" & ", w[..5]), ReplaceDict) + Stars(toFloat(w[4]).value) + RowEnd
  {
    var w := Words(line);
    if |w| == 1 then Ok(ReplaceEach(w[0], ReplaceDict) + RowEnd)
    else if |w| < 5 then Err(IndexError)
    else match toFloat(w[4])
      case None => Err(ValueError)
      case Some(p) => Ok(ReplaceEach(Join(" & ", w[..5]), ReplaceDict) + Stars(p) + RowEnd)
  }

  /** Every prettified line ends with the LaTeX row end. */
  lemma PrettifiedEndsRow(line: string, toFloat: string -> Option<real>)
    requires PrettifyLine(line, toFloat).Ok?
    ensures var s := PrettifyLine(line, toFloat).value;
      |s| >= |RowEnd| && s[|s| - |RowEnd|..] == RowEnd
  {
  }

  /** `prettify_results` over the lines read: the prettified kept lines, in
      order; the first line that cannot be prettified ends the pass. */
  function Prettified(lines: seq<string>, queryKeys: seq<string>, toFloat: string -> Option<real>): (r: Result<string>)
    ensures r.Ok? ==> forall k :: 0 <= k < |lines| && IncludeLine(lines[k], queryKeys) ==> PrettifyLine(lines[k], toFloat).Ok?
    decreases |lines|
  {
    if |lines| == 0 then Ok("")
    else match Prettified(lines[..|lines| - 1], queryKeys, toFloat)
      case Err(e) => Err(e)
      case Ok(out) =>
        var line := lines[|lines| - 1];
        if !IncludeLine(line, queryKeys) then Ok(out)
        else match PrettifyLine(line, toFloat)
          case Err(e) => Err(e)
          case Ok(row) => Ok(out + row)
  }

  /** Once a prefix fails, so does the whole pass, with the same error. */
  lemma {:induction false} PrettifiedFailsEarly(lines: seq<string>, n: nat, queryKeys: seq<string>, toFloat: string -> Option<real>)
    requires n <= |lines| && Prettified(lines[..n], queryKeys, toFloat).Err?
    ensures Prettified(lines, queryKeys, toFloat) == Prettified(lines[..n], queryKeys, toFloat)
    decreases |lines| - n
  {
    if n < |lines| {
      var longer := lines[..n + 1];
      assert longer[..|longer| - 1] == lines[..n];
      PrettifiedFailsEarly(lines, n + 1, queryKeys, toFloat);
    } else {
      assert lines[..n] == lines;
    }
  }

  /** Lines that name nothing of interest are dropped, whatever they hold. */
  lemma {:induction false} PrettifiedSkipsUnnamed(lines: seq<string>, queryKeys: seq<string>, toFloat: string -> Option<real>)
    requires forall k :: 0 <= k < |lines| ==> !IncludeLine(lines[k], queryKeys)
    ensures Prettified(lines, queryKeys, toFloat) == Ok("")
    decreases |lines|
  {
    if |lines| > 0 {
      PrettifiedSkipsUnnamed(lines[..|lines| - 1], queryKeys, toFloat);
    }
  }

  /** `prettify_results`, with the file reading and writing replaced by the
      lines read and the text that would be written. */
  method PrettifyResults(lines: seq<string>, queryKeys: seq<string>, toFloat: string -> Option<real>)
    returns (r: Result<string>)
    ensures r == Prettified(lines, queryKeys, toFloat)
  {
    var out := "";
    for i := 0 to |lines|
      invariant Prettified(lines[..i], queryKeys, toFloat) == Ok(out)
    {
      var longer := lines[..i + 1];
      assert longer[..|longer| - 1] == lines[..i] && longer[|longer| - 1] == lines[i];
      if IncludeLine(lines[i], queryKeys) {
        var row := PrettifyLine(lines[i], toFloat);
        if row.Err? {
          PrettifiedFailsEarly(lines, i + 1, queryKeys, toFloat);
          return Err(row.error);
        }
        out := out + row.value;
      }
    }
    assert lines[..|lines|] == lines;
    return Ok(out);
  }

  // ------------------------------------------------------------ latex_pass

  const FirestormPhaseHeader: string := "\t\\textbf{Firestorm Phase}\\\\ \n"
  const UserActivityHeader: string := "\t\\textbf{User Activity}\\\\ \n"
  const TweetTypeHeader: string := "\t\\textbf{Tweet Type}\\\\ \n"
  const TimeOfDayHeader: string := "\t\\textbf{Time of the Day}\\\\ \n"

  /** `categorical_var_header`: the first row of each categorical variable
      (the first level of it the regression printed) gets a bold header
      above it; every other line none. */
  function CategoricalVarHeader(lineStart: string): (r: string)
    ensures r == "" <==> !StartsWith(lineStart, "post-hype") && !StartsWith(lineStart, "hyperactive")
                         && !StartsWith(lineStart, "original tweet") && !StartsWith(lineStart, "12am-06am")
  {
    if StartsWith(lineStart, "post-hype") then FirestormPhaseHeader
    else if StartsWith(lineStart, "hyperactive") then UserActivityHeader
    else if StartsWith(lineStart, "original tweet") then TweetTypeHeader
    else if StartsWith(lineStart, "12am-06am") then TimeOfDayHeader
    else ""
  }

  /** The four first levels begin with different characters, so the order
      in which they are tried does not matter: each one gets its own header. */
  lemma HeaderOfFirstLevel(lineStart: string)
    ensures StartsWith(lineStart, "post-hype") ==> CategoricalVarHeader(lineStart) == FirestormPhaseHeader
    ensures StartsWith(lineStart, "hyperactive") ==> CategoricalVarHeader(lineStart) == UserActivityHeader
    ensures StartsWith(lineStart, "original tweet") ==> CategoricalVarHeader(lineStart) == TweetTypeHeader
    ensures StartsWith(lineStart, "12am-06am") ==> CategoricalVarHeader(lineStart) == TimeOfDayHeader
  {
    FirstCharOf(lineStart, "post-hype");
    FirstCharOf(lineStart, "hyperactive");
    FirstCharOf(lineStart, "original tweet");
    FirstCharOf(lineStart, "12am-06am");
  }

  lemma FirstCharOf(s: string, prefix: string)
    requires |prefix| > 0
    ensures StartsWith(s, prefix) ==> s[0] == prefix[0]
  {
    if StartsWith(s, prefix) {
      assert s[..|prefix|][0] == prefix[0];
    }
  }

  /** The table head written after a firestorm's title. */
  const Preamble: string :=
    "\n\\begin{table}[ht]\n    \\centering\n"
    + "    \\begin{tabular}{~L{0.3\\linewidth}^C{0.14\\linewidth}^C{0.14\\linewidth}^C{0.14\\linewidth}^C{0.14\\linewidth}}\n"
    + "    \\rowstyle{\\bfseries}\n"
    + "        Y: Tweet is Aggressive & Coef. & Std.Err. & z & P>|z|\\\\\n"
    + "        \\hline\n"

  const EpilogueHead: string :=
    "\n        \\hline\n    \\end{tabular}\n"
    + "    Significance: \U{2020} p < .00833 | * p < .00417 | ** p < .00083 | *** p < .00008\n    "

  function Caption(name: string): string {
    "\\caption{" + name + " logistic regression results}\n"
  }

  function Label(name: string): string {
    "    \\label{table:" + name + "_log_reg_results}\n"
  }

  /** `epilogue`: closes the table and names it after the firestorm; with no
      firestorm seen (`None`) concatenating the name is a TypeError. */
  function Epilogue(fsName: Option<string>): (r: Result<string>)
    ensures r.Err? <==> fsName.None?
    ensures r.Err? ==> r.error == TypeError
    ensures r.Ok? ==> IsSubstring(Caption(fsName.value), r.value) && IsSubstring(Label(fsName.value), r.value)
  {
    match fsName
    case None => Err(TypeError)
    case Some(name) =>
      var head := EpilogueHead;
      var caption := Caption(name);
      var lab := Label(name);
      var tail := "\\end{table}\n\n\n";
      SubstringIn(head, caption, lab + tail);
      SubstringIn(head + caption, lab, tail);
      assert head + caption + (lab + tail) == head + caption + lab + tail;
      Ok(head + caption + lab + tail)
  }

  /** `x` occurs in any `a + x + b`. */
  lemma {:induction false} SubstringIn(a: string, x: string, b: string)
    ensures IsSubstring(x, a + x + b)
    decreases |a|
  {
    if |a| == 0 {
      assert a + x + b == x + b;
      assert (x + b)[..|x|] == x;
    } else {
      assert (a + x + b)[1..] == a[1..] + x + b;
      SubstringIn(a[1..], x, b);
    }
  }

  /** The firestorm a title line names: its single token without `*` and `\`. */
  function FsName(token: string): (r: string)
    ensures '*' !in r && '\\' !in r
  {
    var r := RemoveAll(RemoveAll(token, '*'), '\\');
    RemoveAllKeepsAbsent(RemoveAll(token, '*'), '\\', '*');
    r
  }

  /** Removing one character brings back no other. */
  lemma {:induction false} RemoveAllKeepsAbsent(s: string, c: char, d: char)
    requires d !in s
    ensures d !in RemoveAll(s, c)
  {
    if |s| > 0 {
      RemoveAllKeepsAbsent(s[1..], c, d);
    }
  }

  /** What `latex_pass` writes for a title line. */
  function TitleBlock(name: string): string {
    TitleComment(name) + ParHeader(name) + Preamble
  }

  function TitleComment(name: string): string {
    "%" + Upper(name) + "\n\n"
  }

  function ParHeader(name: string): string {
    "\\parheader{" + Upper(name) + "}\n\n"
  }

  /** What `latex_pass` writes for any other line: the header of a new
      categorical variable if the line starts one, then the line, indented
      unless it is the intercept row. */
  function RowBlock(line: string): string {
    CategoricalVarHeader(line[..if |line| < 30 then |line| else 30]) + "\t"
      + (if !StartsWith(line, "\\textbf{Intercept}") then "\\hspace{2ex}" else "")
      + line
  }

  /** The firestorm `latex_pass` is writing after the given lines: the one
      the last title line (a line of a single token) named, none before the
      first title. */
  function CurrentFs(lines: seq<string>): (r: Option<string>)
    ensures r.None? <==> forall k :: 0 <= k < |lines| ==> |Words(lines[k])| != 1
    decreases |lines|
  {
    if |lines| == 0 then None
    else
      var w := Words(lines[|lines| - 1]);
      if |w| == 1 then Some(FsName(w[0])) else CurrentFs(lines[..|lines| - 1])
  }

  /** The text the loop of `latex_pass` writes for the given lines. A title
      line closes the previous table only when that firestorm's name is
      non-empty (Python's truthiness of a string). */
  function Written(lines: seq<string>): (r: string)
    ensures forall k :: 0 <= k < |lines| && |Words(lines[k])| != 1 ==> IsSubstring(lines[k], r)
    decreases |lines|
  {
    if |lines| == 0 then ""
    else
      var init := lines[..|lines| - 1];
      var line := lines[|lines| - 1];
      var w := Words(line);
      if |w| == 1 then
        RowsKept(init, |init|, Written(init), Closing(init));
        RowsExtend(lines, init, Written(init) + Closing(init), TitleBlock(FsName(w[0])));
        Written(init) + Closing(init) + TitleBlock(FsName(w[0]))
      else
        RowBlockEndsWithLine(line);
        RowsExtend(lines, init, Written(init), RowBlock(line));
        Written(init) + RowBlock(line)
  }

  /** What a title line writes first: the epilogue of the firestorm being
      written, when there is one with a non-empty name. */
  function Closing(lines: seq<string>): string {
    var prev := CurrentFs(lines);
    if prev.Some? && |prev.value| > 0 then Epilogue(prev).value else ""
  }

  /** Text written after the rows of the first `n` lines keeps them. */
  lemma RowsKept(lines: seq<string>, n: nat, a: string, b: string)
    requires n <= |lines|
    requires forall k :: 0 <= k < n && |Words(lines[k])| != 1 ==> IsSubstring(lines[k], a)
    ensures forall k :: 0 <= k < n && |Words(lines[k])| != 1 ==> IsSubstring(lines[k], a + b)
  {
    forall k | 0 <= k < n && |Words(lines[k])| != 1
      ensures IsSubstring(lines[k], a + b)
    {
      SubstringPrefix(a, lines[k], b);
    }
  }

  /** One more line: the rows before it stay in the text whatever follows,
      and a row line is kept when what follows holds it. */
  lemma RowsExtend(lines: seq<string>, init: seq<string>, a: string, b: string)
    requires |lines| > 0 && init == lines[..|lines| - 1]
    requires forall k :: 0 <= k < |init| && |Words(init[k])| != 1 ==> IsSubstring(init[k], a)
    requires |Words(lines[|lines| - 1])| != 1 ==> IsSubstring(lines[|lines| - 1], b)
    ensures forall k :: 0 <= k < |lines| && |Words(lines[k])| != 1 ==> IsSubstring(lines[k], a + b)
  {
    forall k | 0 <= k < |lines| && |Words(lines[k])| != 1
      ensures IsSubstring(lines[k], a + b)
    {
      if k < |lines| - 1 {
        assert init[k] == lines[k];
        SubstringPrefix(a, lines[k], b);
      } else {
        SubstringSuffix(a, lines[k], b);
      }
    }
  }

  /** A row's block ends with the row's line itself. */
  lemma RowBlockEndsWithLine(line: string)
    ensures IsSubstring(line, RowBlock(line))
  {
    var head := CategoricalVarHeader(line[..if |line| < 30 then |line| else 30]) + "\t"
      + (if !StartsWith(line, "\\textbf{Intercept}") then "\\hspace{2ex}" else "");
    SubstringIn(head, line, "");
    assert head + line + "" == RowBlock(line);
  }

  /** A substring of `a` is a substring of `a + b`. */
  lemma {:induction false} SubstringPrefix(a: string, x: string, b: string)
    requires IsSubstring(x, a)
    ensures IsSubstring(x, a + b)
    decreases |a|
  {
    if StartsWith(a, x) {
      assert (a + b)[..|x|] == a[..|x|];
    } else {
      assert (a + b)[1..] == a[1..] + b;
      SubstringPrefix(a[1..], x, b);
    }
  }

  /** `latex_pass`: the loop, then the epilogue of the last firestorm. */
  function LatexPass(lines: seq<string>): (r: Result<string>)
    ensures r.Ok? ==> forall k :: 0 <= k < |lines| && |Words(lines[k])| != 1 ==> IsSubstring(lines[k], r.value)
  {
    match Epilogue(CurrentFs(lines))
    case Err(e) => Err(e)
    case Ok(close) =>
      RowsKept(lines, |lines|, Written(lines), close);
      Ok(Written(lines) + close)
  }

  /** The firestorm being written is the one the last title line named. */
  lemma {:induction false} CurrentIsLastTitle(lines: seq<string>, j: nat)
    requires j < |lines| && |Words(lines[j])| == 1
    requires forall k :: j < k < |lines| ==> |Words(lines[k])| != 1
    ensures CurrentFs(lines) == Some(FsName(Words(lines[j])[0]))
    decreases |lines|
  {
    if j < |lines| - 1 {
      var init := lines[..|lines| - 1];
      assert forall k :: 0 <= k < |init| ==> init[k] == lines[k];
      CurrentIsLastTitle(init, j);
    }
  }

  /** `latex_pass` fails, with a TypeError from the final epilogue, exactly
      when no line is a firestorm title. */
  lemma LatexPassFailsIffNoTitle(lines: seq<string>)
    ensures LatexPass(lines).Err? <==> forall k :: 0 <= k < |lines| ==> |Words(lines[k])| != 1
    ensures LatexPass(lines).Err? ==> LatexPass(lines).error == TypeError
  {
  }

  /** The table written last carries the name of the last title line. */
  lemma LatexPassNamesLastTable(lines: seq<string>, j: nat)
    requires j < |lines| && |Words(lines[j])| == 1
    requires forall k :: j < k < |lines| ==> |Words(lines[k])| != 1
    ensures LatexPass(lines).Ok?
    ensures IsSubstring(Caption(FsName(Words(lines[j])[0])), LatexPass(lines).value)
  {
    CurrentIsLastTitle(lines, j);
    var close := Epilogue(CurrentFs(lines)).value;
    SubstringSuffix(Written(lines), Caption(FsName(Words(lines[j])[0])), close);
  }

  /** A substring of `b` is a substring of `a + b`. */
  lemma {:induction false} SubstringSuffix(a: string, x: string, b: string)
    requires IsSubstring(x, b)
    ensures IsSubstring(x, a + b)
    decreases |a|
  {
    if |a| == 0 {
      assert a + b == b;
    } else {
      assert (a + b)[1..] == a[1..] + b;
      SubstringSuffix(a[1..], x, b);
    }
  }

  /** `latex_pass` itself: one write per step, as the source does, into the
      text that would end up in the output file. */
  method LatexPassLoop(lines: seq<string>) returns (r: Result<string>)
    ensures r == LatexPass(lines)
  {
    var currentFs: Option<string> := None;
    var out := "";
    for i := 0 to |lines|
      invariant currentFs == CurrentFs(lines[..i])
      invariant out == Written(lines[..i])
    {
      var longer := lines[..i + 1];
      assert longer[..|longer| - 1] == lines[..i] && longer[|longer| - 1] == lines[i];
      var w := Words(lines[i]);
      if |w| == 1 {
        var close := "";
        if currentFs.Some? && |currentFs.value| > 0 {
          close := Epilogue(currentFs).value;
        }
        out := out + close;
        var name := FsName(w[0]);
        currentFs := Some(name);
        out := WriteTitle(out, name);
      } else {
        out := WriteRow(out, lines[i]);
      }
    }
    assert lines[..|lines|] == lines;
    var close := Epilogue(currentFs);
    if close.Err? {
      return Err(close.error);
    }
    return Ok(out + close.value);
  }

  /** The three writes that open a firestorm's table. */
  method WriteTitle(out: string, name: string) returns (r: string)
    ensures r == out + TitleBlock(name)
  {
    r := out + TitleComment(name);
    r := r + ParHeader(name);
    AppendAssoc(out, TitleComment(name), ParHeader(name));
    r := r + Preamble;
    AppendAssoc(out, TitleComment(name) + ParHeader(name), Preamble);
  }

  /** Appending in two writes or in one gives the same text. */
  lemma AppendAssoc(a: string, b: string, c: string)
    ensures a + b + c == a + (b + c)
  {
  }

  /** The writes for a row line. */
  method WriteRow(out: string, line: string) returns (r: string)
    ensures r == out + RowBlock(line)
  {
    r := out + CategoricalVarHeader(line[..if |line| < 30 then |line| else 30]);
    r := r + "\t";
    if !StartsWith(line, "\\textbf{Intercept}") {
      r := r + "\\hspace{2ex}";
    }
    r := r + line;
  }
}
