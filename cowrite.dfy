/**
 * The text handling of the Cowrite class: unwrapping a fenced reply
 * (`without_quotes`), reading the edit reply of `diff` (the LINES marker,
 * the dropped last line, the unwrapped and chomped section), splicing the
 * section into the original lines and classifying the exit status of the
 * external diff tool (`generate_diff`), and cleaning the file-list reply
 * of `files`. The completion service, git, the file system and the diff
 * tool itself stay outside: their results are parameters.
 */
module Cowrite {
  import opened Wrappers
  import opened Ruby

  // ---------------------------------------------------------------------
  // without_quotes
  // ---------------------------------------------------------------------

  /** The `\s` class of a Ruby regular expression (unlike strip, it leaves out NUL). */
  predicate IsRegexSpace(c: char) {
    ('\t' <= c <= '\r') || c == ' '
  }

  /** Every character of `s` is in `\S`. */
  predicate NoRegexSpace(s: string) {
    forall i | 0 <= i < |s| :: !IsRegexSpace(s[i])
  }

  const Backticks: string := "```"

  /** A fenced block with language tag `tag` around `content`. */
  function Fence(tag: string, content: string): string {
    Backticks + tag + "\n" + content + Backticks
  }

  /** The length of the longest prefix of `s` that `\S*` matches. */
  function NonSpaceRun(s: string): (k: nat)
    ensures k <= |s| && NoRegexSpace(s[..k])
    ensures k < |s| ==> IsRegexSpace(s[k])
  {
    if s != [] && !IsRegexSpace(s[0]) then
      var k := 1 + NonSpaceRun(s[1..]);
      assert s[..k] == [s[0]] + s[1..][..k - 1];
      k
    else 0
  }

  /**
   * The match of /\A```\S*\n(.*)```\z/m against the whole of `t`: Some of
   * the captured content when `t` is one fenced block, None otherwise.
   * `\S*` cannot pass a whitespace character, so the "\n" is the first
   * whitespace after the opening backticks; the greedy `(.*)` then runs to
   * the closing backticks at the very end.
   */
  function FenceContent(t: string): (r: Option<string>)
    ensures r.Some? ==> |r.value| + 4 <= |t| && t[..3] == Backticks && t[|t| - 3..] == Backticks
    ensures r.Some? ==> t[|t| - 3 - |r.value|..|t| - 3] == r.value
  {
    if |t| < 3 || t[..3] != Backticks then None
    else
      var k := 3 + NonSpaceRun(t[3..]);
      if k < |t| && t[k] == '\n' && k + 4 <= |t| && t[|t| - 3..] == Backticks
      then Some(t[k + 1..|t| - 3])
      else None
  }

  /** FenceContent recognises exactly the fenced blocks whose tag has no whitespace, and captures their content. */
  lemma FenceContentIsFence(t: string, content: string)
    ensures FenceContent(t) == Some(content) <==>
            exists tag :: NoRegexSpace(tag) && t == Fence(tag, content)
  {
    if FenceContent(t) == Some(content) {
      var k := 3 + NonSpaceRun(t[3..]);
      var tag := t[3..k];
      assert t == Fence(tag, content);
    }
    if exists tag :: NoRegexSpace(tag) && t == Fence(tag, content) {
      var tag :| NoRegexSpace(tag) && t == Fence(tag, content);
      FenceContentOfFence(tag, content);
    }
  }

  lemma NonSpaceRunOf(x: string, y: string)
    requires NoRegexSpace(x) && y != [] && IsRegexSpace(y[0])
    ensures NonSpaceRun(x + y) == |x|
  {
    assert (x + y)[|x|] == y[0];
  }

  lemma FenceContentOfFence(tag: string, content: string)
    requires NoRegexSpace(tag)
    ensures FenceContent(Fence(tag, content)) == Some(content)
  {
    var t := Fence(tag, content);
    var rest := "\n" + content + Backticks;
    assert t == Backticks + (tag + rest);
    assert t[..3] == Backticks;
    assert t[3..] == tag + rest;
    NonSpaceRunOf(tag, rest);
    var k := 3 + |tag|;
    assert t[k] == '\n';
    assert t[|t| - 3..] == Backticks;
    assert t[k + 1..|t| - 3] == content;
  }

  /** `without_quotes`: the stripped reply, minus one enclosing fence when the whole stripped reply is a fenced block. */
  function WithoutQuotes(answer: string): (r: string)
    ensures var t := Strip(answer);
            r == t || (|r| + 4 <= |t| && t[|t| - 3 - |r|..|t| - 3] == r)
  {
    var t := Strip(answer);
    match FenceContent(t)
    case Some(content) => content
    case None => t
  }

  lemma FenceIsStripped(tag: string, content: string)
    ensures IsStripped(Fence(tag, content))
  {
    var t := Fence(tag, content);
    assert t[0] == '`' && t[|t| - 1] == '`';
  }

  /** A fenced block, with any whitespace around it, is unwrapped to exactly its content. */
  lemma WithoutQuotesUnwraps(pre: string, tag: string, content: string, post: string)
    requires AllStripSpace(pre) && AllStripSpace(post) && NoRegexSpace(tag)
    ensures WithoutQuotes(pre + Fence(tag, content) + post) == content
  {
    FenceIsStripped(tag, content);
    StripSurrounded(pre, Fence(tag, content), post);
    FenceContentOfFence(tag, content);
  }

  /** Only one fence layer is removed: a fence inside a fence comes out as the inner fence. */
  lemma WithoutQuotesRemovesOneLayer(outer: string, inner: string, content: string)
    requires NoRegexSpace(outer) && NoRegexSpace(inner)
    ensures WithoutQuotes(Fence(outer, Fence(inner, content))) == Fence(inner, content)
  {
    WithoutQuotesUnwraps("", outer, Fence(inner, content), "");
    assert "" + Fence(outer, Fence(inner, content)) + "" == Fence(outer, Fence(inner, content));
  }

  /** A reply that is not one fenced block once stripped comes back stripped and otherwise unchanged. */
  lemma WithoutQuotesKeepsUnfenced(answer: string)
    requires forall tag, content :: NoRegexSpace(tag) ==> Strip(answer) != Fence(tag, content)
    ensures WithoutQuotes(answer) == Strip(answer)
  {
    var t := Strip(answer);
    if FenceContent(t).Some? {
      FenceContentIsFence(t, FenceContent(t).value);
    }
  }

  // ---------------------------------------------------------------------
  // diff: reading the edit reply
  // ---------------------------------------------------------------------

  /**
   * `answer.sub!(/.*\z/, "")`. Without /m, `.` does not match "\n", so the
   * leftmost match starts just after the last "\n" (or at 0 when there is
   * none) and runs to the end; what is left is the text up to and
   * including the last "\n".
   */
  function DropLastLine(s: string): (r: string)
    ensures |r| <= |s| && r == s[..|r|]
    ensures r == [] || r[|r| - 1] == '\n'
    ensures '\n' !in s[|r|..]
  {
    if s == [] then []
    else if s[|s| - 1] == '\n' then s
    else
      var r := DropLastLine(s[..|s| - 1]);
      assert s[|r|..] == s[..|s| - 1][|r|..] + [s[|s| - 1]];
      r
  }

  /** Cutting after the last "\n" is determined by where that "\n" is: text ending in "\n" followed by text with none loses exactly the second part. */
  lemma DropLastLineOf(u: string, v: string)
    requires u == [] || u[|u| - 1] == '\n'
    requires '\n' !in v
    ensures DropLastLine(u + v) == u
  {
    var s := u + v;
    var r := DropLastLine(s);
    assert s[..|u|] == u;
  }

  const LinesMarker: string := "LINES: "

  /** The length of the longest prefix of `s` made of ASCII digits. */
  function DigitRun(s: string): (k: nat)
    ensures k <= |s| && forall i | 0 <= i < k :: IsDigit(s[i])
    ensures k < |s| ==> !IsDigit(s[k])
  {
    if s != [] && IsDigit(s[0]) then 1 + DigitRun(s[1..]) else 0
  }

  /**
   * A match of /LINES: (\d+)-(\d+)/ that starts at the first character of
   * `t`, with its two captures. The first `\d+` must stop at the "-", so it
   * is the whole digit run; the second is greedy and takes every digit.
   */
  function LinesMatchAt(t: string): (r: Option<(string, string)>)
    ensures r.Some? ==> IsDigits(r.value.0) && IsDigits(r.value.1)
    ensures r.Some? ==> |t| > 0 && t[0] == 'L'
  {
    if |t| < |LinesMarker| || t[..|LinesMarker|] != LinesMarker then None
    else
      var u := t[|LinesMarker|..];
      var i := DigitRun(u);
      if i == 0 || i == |u| || u[i] != '-' then None
      else
        var v := u[i + 1..];
        var j := DigitRun(v);
        if j == 0 then None else Some((u[..i], v[..j]))
  }

  /** The text `LINES: <from>-<to>`. */
  function LinesText(from: string, to: string): string {
    LinesMarker + from + "-" + to
  }

  lemma DigitRunOf(x: string, y: string)
    requires forall i | 0 <= i < |x| :: IsDigit(x[i])
    requires y == [] || !IsDigit(y[0])
    ensures DigitRun(x + y) == |x|
  {
    assert forall i | 0 <= i < |x| :: (x + y)[i] == x[i];
    assert |x| < |x + y| ==> (x + y)[|x|] == y[0];
  }

  /** The text `m + rest` starts with `m`, followed by the first character of `rest`. */
  lemma StartsWith(m: string, rest: string)
    ensures (m + rest)[..|m|] == m
    ensures |rest| > 0 ==> (m + rest)[|m|] == rest[0]
  {
  }

  /** Cutting `u` at a "-" in position `i` and again at position `j` of what follows. */
  lemma CutAtDash(u: string, i: nat, j: nat)
    requires i < |u| && u[i] == '-' && j <= |u| - (i + 1)
    ensures u == u[..i] + "-" + u[i + 1..][..j] + u[i + 1..][j..]
  {
    var v := u[i + 1..];
    assert u == u[..i] + "-" + v;
    assert v == v[..j] + v[j..];
  }

  /** The pieces a match at the start of `t` is made of: the marker, the first digit run, "-", the second digit run. */
  lemma LinesMatchAtParts(t: string, from: string, to: string)
    requires LinesMatchAt(t) == Some((from, to))
    ensures |LinesMarker| <= |t| && t[..|LinesMarker|] == LinesMarker
    ensures var u := t[|LinesMarker|..];
            var i := DigitRun(u);
            var j := DigitRun(u[i + 1..]);
            && i < |u| && u[i] == '-' && j <= |u| - (i + 1)
            && from == u[..i] && to == u[i + 1..][..j]
            && (u[i + 1..][j..] == [] || !IsDigit(u[i + 1..][j..][0]))
  {
  }

  lemma LinesTextThen(from: string, to: string, rest: string)
    ensures LinesText(from, to) + rest == LinesMarker + (from + "-" + to + rest)
  {
  }

  /** Text that starts with the marker, a run, "-" and a second run not followed by a digit begins with exactly that LINES text. */
  lemma MarkerThenRuns(t: string, i: nat, j: nat)
    requires |LinesMarker| <= |t| && t[..|LinesMarker|] == LinesMarker
    requires var u := t[|LinesMarker|..];
             && i < |u| && u[i] == '-' && j <= |u| - (i + 1)
             && (u[i + 1..][j..] == [] || !IsDigit(u[i + 1..][j..][0]))
    ensures var u := t[|LinesMarker|..];
            var m := LinesText(u[..i], u[i + 1..][..j]);
            |m| <= |t| && t[..|m|] == m && (|t| == |m| || !IsDigit(t[|m|]))
  {
    var u := t[|LinesMarker|..];
    var rest := u[i + 1..][j..];
    CutAtDash(u, i, j);
    var m := LinesText(u[..i], u[i + 1..][..j]);
    assert t == LinesMarker + u;
    LinesTextThen(u[..i], u[i + 1..][..j], rest);
    StartsWith(m, rest);
  }

  lemma LinesMatchAtSound(t: string, from: string, to: string)
    requires LinesMatchAt(t) == Some((from, to))
    ensures var m := LinesText(from, to);
            |m| <= |t| && t[..|m|] == m && (|t| == |m| || !IsDigit(t[|m|]))
  {
    LinesMatchAtParts(t, from, to);
    var u := t[|LinesMarker|..];
    var i := DigitRun(u);
    MarkerThenRuns(t, i, DigitRun(u[i + 1..]));
  }

  /** How `<from>-<to><rest>` falls apart into its digit runs. */
  lemma DigitsDashDigits(from: string, to: string, rest: string)
    requires IsDigits(from) && IsDigits(to)
    requires rest == [] || !IsDigit(rest[0])
    ensures var u := from + "-" + to + rest;
            var i := DigitRun(u);
            && i == |from| && i < |u| && u[i] == '-' && u[..i] == from
            && u[i + 1..] == to + rest
            && DigitRun(to + rest) == |to| && (to + rest)[..|to|] == to
  {
    var v := to + rest;
    var u := from + "-" + to + rest;
    assert u == from + ("-" + v);
    DigitRunOf(from, "-" + v);
    assert u[|from|] == '-';
    assert u[..|from|] == from;
    assert u[|from| + 1..] == v;
    DigitRunOf(to, rest);
    assert v[..|to|] == to;
  }

  /** The LINES text of two digit runs, followed by anything but a digit, is matched with those runs as captures. */
  lemma LinesTextMatches(from: string, to: string, rest: string)
    requires IsDigits(from) && IsDigits(to)
    requires rest == [] || !IsDigit(rest[0])
    ensures LinesMatchAt(LinesText(from, to) + rest) == Some((from, to))
  {
    var t := LinesText(from, to) + rest;
    var u := from + "-" + to + rest;
    LinesTextThen(from, to, rest);
    assert t[..|LinesMarker|] == LinesMarker;
    assert t[|LinesMarker|..] == u;
    DigitsDashDigits(from, to, rest);
  }

  lemma LinesMatchAtComplete(t: string, from: string, to: string)
    requires IsDigits(from) && IsDigits(to)
    requires var m := LinesText(from, to);
             |m| <= |t| && t[..|m|] == m && (|t| == |m| || !IsDigit(t[|m|]))
    ensures LinesMatchAt(t) == Some((from, to))
  {
    var m := LinesText(from, to);
    var rest := t[|m|..];
    assert t == m + rest;
    LinesTextMatches(from, to, rest);
  }

  /** LinesMatchAt finds `LINES: <digits>-<digits>` at the start of `t`, with the second number not followed by a further digit. */
  lemma LinesMatchAtIsMarker(t: string, from: string, to: string)
    ensures LinesMatchAt(t) == Some((from, to)) <==>
            IsDigits(from) && IsDigits(to) &&
            |LinesText(from, to)| <= |t| && t[..|LinesText(from, to)|] == LinesText(from, to) &&
            (|t| == |LinesText(from, to)| || !IsDigit(t[|LinesText(from, to)|]))
  {
    if LinesMatchAt(t) == Some((from, to)) {
      LinesMatchAtSound(t, from, to);
    }
    var m := LinesText(from, to);
    if IsDigits(from) && IsDigits(to) && |m| <= |t| && t[..|m|] == m && (|t| == |m| || !IsDigit(t[|m|])) {
      LinesMatchAtComplete(t, from, to);
    }
  }

  /** A match of the LINES pattern at offset `at`, with its two captures. */
  datatype LinesMatch = LinesMatch(at: nat, from: string, to: string)

  /** `String#match`: the leftmost match of the LINES pattern at or after offset `start`. */
  function FirstLinesMatch(s: string, start: nat): (m: Option<LinesMatch>)
    requires start <= |s|
    ensures m.Some? ==> start <= m.value.at <= |s| &&
                        LinesMatchAt(s[m.value.at..]) == Some((m.value.from, m.value.to))
    ensures forall j | start <= j <= |s| && (m.None? || j < m.value.at) :: LinesMatchAt(s[j..]).None?
    decreases |s| - start
  {
    match LinesMatchAt(s[start..])
    case Some((from, to)) => Some(LinesMatch(start, from, to))
    case None => if start == |s| then None else FirstLinesMatch(s, start + 1)
  }

  /** What `diff` hands to `generate_diff`: the 1-based inclusive line range and the replacement text. */
  datatype Edit = Edit(from: nat, to: nat, section: string)

  /** The ways the edit path raises. */
  datatype Error =
    | LinesMissing                 // no LINES marker: `lines[1]` on nil raises NoMethodError
    | InvalidInteger(text: string) // Integer() rejects a leading-zero number with an 8 or a 9
    | RangeOutOfBounds             // the slice assignment raises RangeError
    | NoDiffFound                  // diff exited 0: the edit changes nothing
    | DiffFailed(output: string)   // diff exited with a status other than 0 and 1
  {
    /** The message of the RuntimeErrors that `generate_diff` raises. */
    function Message(): string {
      match this
      case NoDiffFound => "No diff found"
      case DiffFailed(output) => "diff failed: " + output
      case LinesMissing => "undefined method '[]' for nil"
      case InvalidInteger(text) => "invalid value for Integer(): " + text
      case RangeOutOfBounds => "out of range"
    }
  }

  /**
   * Lines 60-63 of `diff`: the range comes from the first LINES match of
   * the reply, the section is the reply without its last line, unwrapped
   * and chomped. Without a match the reply is rejected.
   */
  function ParseEdit(answer: string): (r: Result<Edit, Error>)
    ensures r == Err(LinesMissing) <==>
            forall j | 0 <= j <= |answer| :: LinesMatchAt(answer[j..]).None?
    ensures r.Err? && r.error.InvalidInteger? ==>
              var m := FirstLinesMatch(answer, 0).value;
              r.error.text in {m.from, m.to} && Integer(r.error.text).None?
    ensures r.Err? && r.error.InvalidInteger? ==>
              var m := FirstLinesMatch(answer, 0).value;
              r.error.text == (if Integer(m.from).None? then m.from else m.to)
    ensures r.Ok? ==>
              var m := FirstLinesMatch(answer, 0).value;
              && Integer(m.from) == Some(r.value.from) && Integer(m.to) == Some(r.value.to)
              && r.value.section == Chomp(WithoutQuotes(DropLastLine(answer)))
    ensures r.Err? ==> r.error.LinesMissing? || r.error.InvalidInteger?
  {
    match FirstLinesMatch(answer, 0)
    case None => Err(LinesMissing)
    case Some(LinesMatch(at, from, to)) =>
      assert LinesMatchAt(answer[at..]) == Some((from, to));
      var section := Chomp(WithoutQuotes(DropLastLine(answer)));
      match Integer(from)
      case None => Err(InvalidInteger(from))
      case Some(f) =>
        match Integer(to)
        case None => Err(InvalidInteger(to))
        case Some(t) => Ok(Edit(f, t, section))
  }

  /** The reply the prompt asks for: the changed content in one fenced block, then the LINES line. */
  function Reply(tag: string, body: string, from: nat, to: nat): string {
    Fence(tag, body + "\n") + "\n" + LinesText(DecimalString(from), DecimalString(to))
  }

  lemma DecimalStringHasNoLetter(n: nat)
    ensures 'L' !in DecimalString(n) && '\n' !in DecimalString(n)
  {
    var s := DecimalString(n);
    assert forall i | 0 <= i < |s| :: IsDigit(s[i]);
  }

  /** No position of `t` starts a match of the LINES pattern. */
  predicate NoLinesMatch(t: string) {
    forall j | 0 <= j <= |t| :: LinesMatchAt(t[j..]).None?
  }

  lemma LinesTextHasNoNewline(from: string, to: string)
    requires IsDigits(from) && IsDigits(to)
    ensures '\n' !in LinesText(from, to)
  {
    assert '\n' !in from && '\n' !in to;
  }

  /** A LINES match holds no "\n", so a match that starts before a line break ends before it. */
  lemma MatchBeforeNewline(y: string, z: string, from: string, to: string)
    requires z == [] || z[0] == '\n'
    requires LinesMatchAt(y + z) == Some((from, to))
    ensures LinesMatchAt(y) == Some((from, to))
  {
    var t := y + z;
    var m := LinesText(from, to);
    LinesMatchAtIsMarker(t, from, to);
    LinesTextHasNoNewline(from, to);
    assert forall i | 0 <= i < |m| :: t[i] != '\n' by {
      assert forall i | 0 <= i < |m| :: t[i] == m[i];
    }
    assert |y| < |t| ==> t[|y|] == '\n';
    assert |m| <= |y|;
    assert y[..|m|] == t[..|m|];
    assert |y| > |m| ==> y[|m|] == t[|m|];
    LinesMatchAtIsMarker(y, from, to);
  }

  /** No match starts inside a piece `y` that holds none and is followed by a line break or by nothing. */
  lemma NoMatchInLine(x: string, y: string, z: string, j: nat)
    requires NoLinesMatch(y)
    requires z == [] || z[0] == '\n'
    requires |x| <= j < |x| + |y|
    ensures LinesMatchAt((x + y + z)[j..]).None?
  {
    var i := j - |x|;
    assert (x + y + z)[j..] == y[i..] + z;
    match LinesMatchAt(y[i..] + z)
    case None =>
    case Some((f, t)) =>
      MatchBeforeNewline(y[i..], z, f, t);
      assert false;
  }

  /** No LINES match starts in the fenced block of a reply, nor in the line break after it. */
  lemma ReplyHeadHasNoMatch(tag: string, body: string, from: nat, to: nat)
    requires NoLinesMatch(tag) && NoLinesMatch(body)
    ensures forall j | 0 <= j <= |Fence(tag, body + "\n")| :: LinesMatchAt(Reply(tag, body, from, to)[j..]).None?
  {
    var head := Fence(tag, body + "\n") + "\n";
    var tail := LinesText(DecimalString(from), DecimalString(to));
    var s := Reply(tag, body, from, to);
    var beforeTag := Backticks;
    var afterTag := "\n" + body + "\n" + Backticks + "\n" + tail;
    var beforeBody := Backticks + tag + "\n";
    var afterBody := "\n" + Backticks + "\n" + tail;
    assert s == head + tail;
    assert s == beforeTag + tag + afterTag;
    assert s == beforeBody + body + afterBody;
    forall j | 0 <= j < |head|
      ensures LinesMatchAt(s[j..]).None?
    {
      if |beforeTag| <= j < |beforeTag| + |tag| {
        NoMatchInLine(beforeTag, tag, afterTag, j);
      } else if |beforeBody| <= j < |beforeBody| + |body| {
        NoMatchInLine(beforeBody, body, afterBody, j);
      } else {
        assert s[j..][0] == head[j] != 'L';
      }
    }
  }

  /** In a reply of the requested shape the first LINES match is the one on the last line. */
  lemma ReplyFirstMatch(tag: string, body: string, from: nat, to: nat)
    requires NoLinesMatch(tag) && NoLinesMatch(body)
    ensures FirstLinesMatch(Reply(tag, body, from, to), 0) ==
            Some(LinesMatch(|Fence(tag, body + "\n")| + 1, DecimalString(from), DecimalString(to)))
  {
    var head := Fence(tag, body + "\n") + "\n";
    var d1, d2 := DecimalString(from), DecimalString(to);
    var tail := LinesText(d1, d2);
    var s := Reply(tag, body, from, to);
    ReplyHeadHasNoMatch(tag, body, from, to);
    assert s[|head|..] == tail;
    LinesMatchAtIsMarker(tail, d1, d2);
  }

  lemma ReplyLastLine(tag: string, body: string, from: nat, to: nat)
    ensures DropLastLine(Reply(tag, body, from, to)) == Fence(tag, body + "\n") + "\n"
  {
    var head := Fence(tag, body + "\n") + "\n";
    var d1, d2 := DecimalString(from), DecimalString(to);
    var tail := LinesText(d1, d2);
    DecimalStringHasNoLetter(from);
    DecimalStringHasNoLetter(to);
    assert tail == LinesMarker + d1 + "-" + d2;
    assert '\n' !in tail;
    assert head[|head| - 1] == '\n';
    DropLastLineOf(head, tail);
  }

  /** In a reply of the requested shape the section is the fenced content without its final newline. */
  lemma ReplySection(tag: string, body: string, from: nat, to: nat)
    requires NoRegexSpace(tag)
    requires body == [] || body[|body| - 1] != '\r'
    ensures Chomp(WithoutQuotes(DropLastLine(Reply(tag, body, from, to)))) == body
  {
    var w := DropLastLine(Reply(tag, body, from, to));
    ReplyLastLine(tag, body, from, to);
    assert w == "" + Fence(tag, body + "\n") + "\n";
    assert AllStripSpace("\n");
    WithoutQuotesUnwraps("", tag, body + "\n", "\n");
    assert WithoutQuotes(w) == body + "\n";
    ChompNewline(body);
  }

  /**
   * Reading a reply of the requested shape gives back the range and the
   * changed content it was written from, provided neither the tag nor the
   * content holds a LINES match of its own and the content does not end in
   * "\r".
   */
  lemma ParseEditOfReply(tag: string, body: string, from: nat, to: nat)
    requires NoRegexSpace(tag) && NoLinesMatch(tag) && NoLinesMatch(body)
    requires body == [] || body[|body| - 1] != '\r'
    ensures ParseEdit(Reply(tag, body, from, to)) == Ok(Edit(from, to, body))
  {
    ReplyFirstMatch(tag, body, from, to);
    ReplySection(tag, body, from, to);
    IntegerOfDecimal(from);
    IntegerOfDecimal(to);
  }

  // ---------------------------------------------------------------------
  // generate_diff
  // ---------------------------------------------------------------------

  /**
   * The content written to the second temporary file: the lines of
   * `original` with lines from..to (1-based, inclusive) replaced by the
   * lines of `changed`, joined with "\n". Ruby's slice assignment raises
   * only when the start index, -1 for `from` = 0, still counts back past
   * the front of the array, that is for an empty original.
   */
  function ModifiedContent(original: string, changed: string, from: nat, to: nat): (r: Result<string, Error>)
    ensures r.Err? <==> (from == 0 && original == "") || from - 1 > LongMax || to - 1 > LongMax
    ensures r.Err? ==> r.error == RangeOutOfBounds
    ensures to == 0 && 1 <= from <= |SplitLines(original)| + 1 && from - 1 <= LongMax ==>
              r == Ok(Join(SplitLines(original)[..from - 1] + SplitLines(changed)))
  {
    match RangeAssign(SplitLines(original), from - 1, to - 1, SplitLines(changed), "")
    case None => Err(RangeOutOfBounds)
    case Some(lines) => Ok(Join(lines))
  }

  /** The lines after the edit, for a range inside the original. */
  function SplicedLines(original: string, changed: string, from: nat, to: nat): seq<string>
    requires 1 <= from <= to + 1 && to <= |SplitLines(original)|
  {
    var lines := SplitLines(original);
    lines[..from - 1] + SplitLines(changed) + lines[to..]
  }

  /**
   * For a range inside the original (an empty range when `to` = `from` - 1),
   * the modified content is the lines before the range, the lines of the
   * replacement and the lines after the range, joined again.
   */
  lemma ModifiedContentSplices(original: string, changed: string, from: nat, to: nat)
    requires 1 <= from <= to + 1 && 1 <= to <= |SplitLines(original)| && to <= LongMax
    ensures ModifiedContent(original, changed, from, to) == Ok(Join(SplicedLines(original, changed, from, to)))
  {
    var lines := SplitLines(original);
    assert RangeAssign(lines, from - 1, to - 1, SplitLines(changed), "") == Some(SplicedLines(original, changed, from, to));
  }

  /**
   * A range that runs past the last line is cut at the end of the file:
   * every line from `from` on is replaced.
   */
  lemma ModifiedContentTruncates(original: string, changed: string, from: nat, to: nat)
    requires 1 <= from <= |SplitLines(original)| + 1 && |SplitLines(original)| <= to <= LongMax
    ensures ModifiedContent(original, changed, from, to) ==
            Ok(Join(SplitLines(original)[..from - 1] + SplitLines(changed)))
  {
    var lines := SplitLines(original);
    var rpl := SplitLines(changed);
    if from - 1 == |lines| {
      assert lines + Repeat("", 0) + rpl == lines[..from - 1] + rpl;
    }
  }

  /**
   * `from` = 0 on a non-empty file gives the start index -1, the last line:
   * a range reaching the last line (or `to` = 0) replaces the last line,
   * and a range ending before it inserts the section before the last line.
   */
  lemma ModifiedContentFromZero(original: string, changed: string, to: nat)
    requires original != "" && |SplitLines(original)| <= LongMax
    ensures var lines := SplitLines(original);
            to == 0 || |lines| <= to <= LongMax ==>
              ModifiedContent(original, changed, 0, to) == Ok(Join(lines[..|lines| - 1] + SplitLines(changed)))
    ensures var lines := SplitLines(original);
            1 <= to < |lines| ==>
              ModifiedContent(original, changed, 0, to) ==
              Ok(Join(lines[..|lines| - 1] + SplitLines(changed) + lines[|lines| - 1..]))
  {
    var lines := SplitLines(original);
    RangeAssignCountsFromEnd(lines, -1, to - 1, SplitLines(changed), "");
  }

  /** The spliced lines hold no line break, so splitting the modified content gives them back (unless they are one empty line). */
  lemma SplicedLinesSplitBack(original: string, changed: string, from: nat, to: nat)
    requires 1 <= from <= to + 1 && to <= |SplitLines(original)|
    ensures var spliced := SplicedLines(original, changed, from, to);
            && NoNewline(spliced)
            && (spliced != [""] ==> SplitLines(Join(spliced)) == spliced)
  {
    var spliced := SplicedLines(original, changed, from, to);
    SpliceNoNewline(SplitLines(original), from - 1, to, SplitLines(changed));
    if spliced != [""] {
      SplitLinesJoin(spliced);
    }
  }

  /** Where the pieces of `a` end up in `b`, which is `a` with a[p..q] replaced by `x`. */
  lemma SpliceParts<T>(a: seq<T>, p: nat, q: nat, x: seq<T>, b: seq<T>)
    requires p <= q <= |a| && b == a[..p] + x + a[q..]
    ensures |b| == |a| + (|x| - (q - p))
    ensures forall i | 0 <= i < p :: b[i] == a[i]
    ensures forall i | 0 <= i < |x| :: b[p + i] == x[i]
    ensures forall i | q <= i < |a| :: b[i + (|x| - (q - p))] == a[i]
  {
  }

  /** Replacing lines by lines, none holding a "\n", gives lines holding no "\n". */
  lemma SpliceNoNewline(a: seq<string>, p: nat, q: nat, x: seq<string>)
    requires p <= q <= |a| && NoNewline(a) && NoNewline(x)
    ensures NoNewline(a[..p] + x + a[q..])
  {
    var b := a[..p] + x + a[q..];
    SpliceParts(a, p, q, x, b);
    forall i | 0 <= i < |b| ensures '\n' !in b[i] {
      if i < p {
        assert b[i] == a[i];
      } else if i < p + |x| {
        assert b[p + (i - p)] == x[i - p];
      } else {
        assert b[(i - p - |x| + q) + (|x| - (q - p))] == a[i - p - |x| + q];
      }
    }
  }

  /** The outcome of running the external diff tool on two texts. */
  datatype DiffRun = DiffRun(status: int, output: string)

  /** The exit-status convention of diff(1) that `generate_diff` relies on: 0 exactly when the two inputs are identical. */
  ghost predicate ReportsIdentical(diffTool: (string, string) -> DiffRun) {
    forall a, b :: diffTool(a, b).status == 0 <==> a == b
  }

  /**
   * `generate_diff`: the modified content is compared with the original by
   * the external tool; exit 0 raises "No diff found", exit 1 returns the
   * tool's output, any other exit raises "diff failed".
   */
  function GenerateDiff(original: string, changed: string, from: nat, to: nat,
                        diffTool: (string, string) -> DiffRun): (r: Result<string, Error>)
    ensures r.Ok? <==> ModifiedContent(original, changed, from, to).Ok? &&
                       diffTool(original, ModifiedContent(original, changed, from, to).value).status == 1
    ensures r.Ok? ==> r.value == diffTool(original, ModifiedContent(original, changed, from, to).value).output
    ensures r == Err(NoDiffFound) <==>
              ModifiedContent(original, changed, from, to).Ok? &&
              diffTool(original, ModifiedContent(original, changed, from, to).value).status == 0
    ensures r.Err? && r.error.DiffFailed? <==>
              ModifiedContent(original, changed, from, to).Ok? &&
              diffTool(original, ModifiedContent(original, changed, from, to).value).status !in {0, 1}
    ensures r.Err? && r.error.DiffFailed? ==>
              r.error.output == diffTool(original, ModifiedContent(original, changed, from, to).value).output
  {
    match ModifiedContent(original, changed, from, to)
    case Err(e) => Err(e)
    case Ok(modified) =>
      var run := diffTool(original, modified);
      if run.status == 0 then Err(NoDiffFound)
      else if run.status != 1 then Err(DiffFailed(run.output))
      else Ok(run.output)
  }

  /** Replacing a[p..q] by x gives back `a` exactly when x is a[p..q]. */
  lemma SpliceIsIdentity<T>(a: seq<T>, p: nat, q: nat, x: seq<T>)
    requires p <= q <= |a|
    ensures a[..p] + x + a[q..] == a <==> x == a[p..q]
  {
    if a[..p] + x + a[q..] == a {
      assert |x| == q - p;
      assert (a[..p] + x + a[q..])[p..q] == x;
    }
    if x == a[p..q] {
      assert a[..p] + a[p..q] + a[q..] == a;
    }
  }

  /** With a tool that follows diff's convention, "No diff found" is raised exactly when the modified content equals the original. */
  lemma NoDiffExactlyWhenUnchanged(original: string, changed: string, from: nat, to: nat,
                                   diffTool: (string, string) -> DiffRun)
    requires ReportsIdentical(diffTool)
    ensures GenerateDiff(original, changed, from, to, diffTool) == Err(NoDiffFound) <==>
            ModifiedContent(original, changed, from, to) == Ok(original)
  {
    var m := ModifiedContent(original, changed, from, to);
    if m.Ok? {
      assert diffTool(original, m.value).status == 0 <==> original == m.value;
    }
  }

  /**
   * For a range inside the original, "No diff found" is raised exactly when
   * the lines of the replacement are the lines the range covers.
   */
  lemma NoDiffExactlyWhenSameLines(original: string, changed: string, from: nat, to: nat,
                                   diffTool: (string, string) -> DiffRun)
    requires ReportsIdentical(diffTool)
    requires 1 <= from <= to + 1 && 1 <= to <= |SplitLines(original)| && to <= LongMax
    ensures GenerateDiff(original, changed, from, to, diffTool) == Err(NoDiffFound) <==>
            SplitLines(changed) == SplitLines(original)[from - 1..to]
  {
    var lines := SplitLines(original);
    var rpl := SplitLines(changed);
    var spliced := SplicedLines(original, changed, from, to);
    NoDiffExactlyWhenUnchanged(original, changed, from, to, diffTool);
    ModifiedContentSplices(original, changed, from, to);
    SplicedLinesSplitBack(original, changed, from, to);
    SpliceIsIdentity(lines, from - 1, to, rpl);
    JoinSplitLines(original);
    if Join(spliced) == original {
      SplitLinesNotSingleEmpty(original);
      JoinInjective(spliced, lines);
    }
  }


  /** `LINES: 1-9223372036854775809` names an end that does not fit in a `long`, so the slice assignment raises. */
  lemma ModifiedContentBoundTooLarge()
    ensures ModifiedContent("a", "x", 1, 9223372036854775809) == Err(RangeOutOfBounds)
  {
  }

  /**
   * `to` = 0 gives the slice end -1, the last line: the range runs from
   * `from` to the end of the file, so a reply saying `LINES: 1-0` replaces
   * the whole file by the section.
   */
  lemma ModifiedContentWholeFile(original: string, changed: string)
    ensures ModifiedContent(original, changed, 1, 0) == Ok(changed)
  {
    assert SplitLines(original)[..0] + SplitLines(changed) == SplitLines(changed);
    JoinSplitLines(changed);
  }

  /** A text without "\n" is one line. */
  lemma SplitLinesOfOneLine(x: string)
    requires x != "" && '\n' !in x
    ensures SplitLines(x) == [x]
  {
  }

  /** Replacing lines 2..3 of a four-line file by a copy of its third line drops the second line. */
  lemma ModifiedContentDropsSecondLine(w: string, x: string, y: string, z: string)
    requires NoNewline([w, x, y, z]) && y != ""
    ensures ModifiedContent(w + "\n" + x + "\n" + y + "\n" + z, y, 2, 3) == Ok(w + "\n" + y + "\n" + z)
  {
    var lines := [w, x, y, z];
    var spliced := [w, y, z];
    var original := w + "\n" + x + "\n" + y + "\n" + z;
    assert Join([y, z]) == y + "\n" + z by {
      assert [y, z][1..] == [z];
    }
    assert Join([x, y, z]) == x + "\n" + (y + "\n" + z) by {
      assert [x, y, z][1..] == [y, z];
    }
    assert Join(lines) == original by {
      assert lines[1..] == [x, y, z];
    }
    SplitLinesJoin(lines);
    assert '\n' !in y by {
      assert lines[2] == y;
    }
    SplitLinesOfOneLine(y);
    ModifiedContentSplices(original, y, 2, 3);
    assert SplicedLines(original, y, 2, 3) == spliced by {
      assert lines[..1] + [y] + lines[3..] == spliced;
    }
    assert Join(spliced) == w + "\n" + y + "\n" + z by {
      assert spliced[1..] == [y, z];
      assert w + "\n" + (y + "\n" + z) == w + "\n" + y + "\n" + z;
    }
  }

  /** Replacing lines 2..3 of "a\nb\nc\nd" by "c" leaves "a\nc\nd". */
  lemma ModifiedContentExample()
    ensures ModifiedContent("a\nb\nc\nd", "c", 2, 3) == Ok("a\nc\nd")
  {
    assert NoNewline(["a", "b", "c", "d"]);
    ModifiedContentDropsSecondLine("a", "b", "c", "d");
    assert "a" + "\n" + "b" + "\n" + "c" + "\n" + "d" == "a\nb\nc\nd";
    assert "a" + "\n" + "c" + "\n" + "d" == "a\nc\nd";
  }

  /** Replacing the only line of "a" by "a" changes nothing, so "No diff found" is raised. */
  lemma NoDiffExample(diffTool: (string, string) -> DiffRun)
    requires ReportsIdentical(diffTool)
    ensures GenerateDiff("a", "a", 1, 1, diffTool) == Err(NoDiffFound)
    ensures GenerateDiff("a", "a", 1, 1, diffTool).error.Message() == "No diff found"
  {
    assert Join(["a"]) == "a";
    SplitLinesJoin(["a"]);
    NoDiffExactlyWhenSameLines("a", "a", 1, 1, diffTool);
  }

  /** A tool that exits with a status other than 0 and 1 makes `generate_diff` raise "diff failed" with the tool's output. */
  lemma DiffFailedExample(diffTool: (string, string) -> DiffRun)
    requires forall a, b :: diffTool(a, b).status == 127
    ensures GenerateDiff("a", "a", 1, 1, diffTool) == Err(DiffFailed(diffTool("a", "a").output))
    ensures GenerateDiff("a", "a", 1, 1, diffTool).error.Message()[..|"diff failed"|] == "diff failed"
  {
    assert Join(["a"]) == "a";
    SplitLinesJoin(["a"]);
    assert RangeAssign(["a"], 0, 0, ["a"], "") == Some(["a"]) by {
      assert ["a"][..0] + ["a"] + ["a"][1..] == ["a"];
    }
  }

  /** `diff`: read the reply, then build the diff of the file content. */
  function Diff(content: string, answer: string, diffTool: (string, string) -> DiffRun): (r: Result<string, Error>)
    ensures r.Err? && (r.error.LinesMissing? || r.error.InvalidInteger?) <==> ParseEdit(answer).Err?
  {
    match ParseEdit(answer)
    case Err(e) => Err(e)
    case Ok(edit) => GenerateDiff(content, edit.section, edit.from, edit.to, diffTool)
  }

  /**
   * End to end: `diff` on a reply of the requested shape builds the diff for
   * exactly the range and the content the reply was written from.
   */
  lemma DiffOfReply(content: string, tag: string, body: string, from: nat, to: nat,
                    diffTool: (string, string) -> DiffRun)
    requires NoRegexSpace(tag) && NoLinesMatch(tag) && NoLinesMatch(body)
    requires body == [] || body[|body| - 1] != '\r'
    ensures Diff(content, Reply(tag, body, from, to), diffTool) == GenerateDiff(content, body, from, to, diffTool)
  {
    ParseEditOfReply(tag, body, from, to);
  }

  /**
   * End to end: for a reply of the requested shape with a range inside the
   * file, `diff` raises "No diff found" exactly when the fenced content
   * repeats the lines of the range.
   */
  lemma DiffOfReplyNoDiff(content: string, tag: string, body: string, from: nat, to: nat,
                          diffTool: (string, string) -> DiffRun)
    requires ReportsIdentical(diffTool)
    requires NoRegexSpace(tag) && NoLinesMatch(tag) && NoLinesMatch(body)
    requires body == [] || body[|body| - 1] != '\r'
    requires 1 <= from <= to + 1 && 1 <= to <= |SplitLines(content)| && to <= LongMax
    ensures Diff(content, Reply(tag, body, from, to), diffTool) == Err(NoDiffFound) <==>
            SplitLines(body) == SplitLines(content)[from - 1..to]
  {
    DiffOfReply(content, tag, body, from, to, diffTool);
    NoDiffExactlyWhenSameLines(content, body, from, to, diffTool);
  }

  // ---------------------------------------------------------------------
  // files
  // ---------------------------------------------------------------------

  /** Line 33 of `files`: unwrap the reply, split it into lines and strip each line. */
  function Files(answer: string): (names: seq<string>)
    ensures forall i | 0 <= i < |names| :: IsStripped(names[i])
  {
    var lines := Split(WithoutQuotes(answer));
    seq(|lines|, i requires 0 <= i < |lines| => Strip(lines[i]))
  }

  /**
   * The names are the stripped lines of the unwrapped reply, in order;
   * only empty lines at the end are left out, and the last line kept was
   * not empty before stripping.
   */
  lemma FilesAreStrippedLines(answer: string)
    ensures var lines := SplitLines(WithoutQuotes(answer));
            var names := Files(answer);
            && |names| <= |lines|
            && (forall i | 0 <= i < |names| :: names[i] == Strip(lines[i]))
            && (forall i | |names| <= i < |lines| :: lines[i] == "")
            && (names != [] ==> lines[|names| - 1] != "")
  {
  }

  /** A reply naming one file gives that one name. */
  lemma FilesOfOneName()
    ensures Files("x") == ["x"]
  {
    WithoutQuotesOfShortText("x");
    SplitLinesOfOneLine("x");
    assert Split("x") == ["x"];
    StripOfStripped("x");
    assert Files("x") == [Strip("x")];
  }

  /** A stripped text too short to hold a fence comes back unchanged. */
  lemma WithoutQuotesOfShortText(t: string)
    requires IsStripped(t) && |t| < 3
    ensures WithoutQuotes(t) == t
  {
    StripOfStripped(t);
  }

}
