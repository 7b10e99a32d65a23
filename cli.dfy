/**
 * `remove_shell_colors` of the command-line front end: one left-to-right
 * pass of `gsub` that deletes every ANSI colour sequence, ESC "[" followed
 * by digit groups separated by ";" and a final "m".
 */
module CowriteCli {
  import opened Wrappers
  import opened Ruby

  /** The escape character that `\e` denotes. */
  const Esc: char := '\U{1B}'

  predicate IsParamChar(c: char) {
    IsDigit(c) || c == ';'
  }

  /** The language of `(\d+)(;\d+)*`: non-empty digit groups separated by single semicolons. */
  predicate IsParamList(p: string) {
    && |p| > 0 && IsDigit(p[0]) && IsDigit(p[|p| - 1])
    && (forall i | 0 <= i < |p| :: IsParamChar(p[i]))
    && (forall i | 0 <= i < |p| - 1 :: p[i] == ';' ==> IsDigit(p[i + 1]))
  }

  /** A text that /\e\[(\d+)(;\d+)*m/ matches in full. */
  predicate IsColorCode(w: string) {
    |w| >= 4 && w[0] == Esc && w[1] == '[' && w[|w| - 1] == 'm' && IsParamList(w[2..|w| - 1])
  }

  /** A colour code starts at the first character of `t`. */
  ghost predicate StartsWithCode(t: string) {
    exists k | 0 <= k <= |t| :: IsColorCode(t[..k])
  }

  /** A colour code occurs somewhere in `s`. */
  ghost predicate ContainsCode(s: string) {
    exists i, j | 0 <= i <= j <= |s| :: IsColorCode(s[i..j])
  }

  /** The length of the longest prefix of `s` made of digits and semicolons. */
  function ParamRun(s: string): (k: nat)
    ensures k <= |s| && forall i | 0 <= i < k :: IsParamChar(s[i])
    ensures k < |s| ==> !IsParamChar(s[k])
  {
    if s != [] && IsParamChar(s[0]) then 1 + ParamRun(s[1..]) else 0
  }

  /**
   * The length of the colour code that starts at the first character of
   * `s`, if one does. The parameters end at the first character that is
   * neither a digit nor ";", which must then be the "m".
   */
  function ColorCodeAt(s: string): (r: Option<nat>)
    ensures r.Some? ==> 4 <= r.value <= |s| && IsColorCode(s[..r.value])
  {
    if |s| < 2 || s[0] != Esc || s[1] != '[' then None
    else
      var k := 2 + ParamRun(s[2..]);
      if k < |s| && s[k] == 'm' && IsParamList(s[2..k]) then
        assert s[..k + 1][2..k] == s[2..k];
        Some(k + 1)
      else None
  }

  /** Every colour code at the start of `s` is found, with its exact length: matches at one position are unique. */
  lemma ColorCodeAtFinds(s: string, k: nat)
    requires k <= |s| && IsColorCode(s[..k])
    ensures ColorCodeAt(s) == Some(k)
  {
    var p := s[2..k - 1];
    assert s[..k][2..k - 1] == p;
    assert forall i | 0 <= i < |p| :: s[2..][i] == p[i];
    assert s[2..][k - 3] == s[..k][k - 1] == 'm';
  }

  /** `string.gsub(/\e\[(\d+)(;\d+)*m/, "")`. */
  function RemoveShellColors(s: string): (r: string)
    ensures |r| <= |s|
    ensures Esc !in s ==> r == s
    decreases |s|
  {
    if s == [] then []
    else
      match ColorCodeAt(s)
      case Some(k) => RemoveShellColors(s[k..])
      case None =>
        assert Esc !in s ==> Esc !in s[1..];
        [s[0]] + RemoveShellColors(s[1..])
  }

  /** A character that does not open a colour code is kept, and the pass moves on by one character. */
  lemma KeepsFirstChar(s: string)
    requires s != [] && ColorCodeAt(s).None?
    ensures RemoveShellColors(s) == [s[0]] + RemoveShellColors(s[1..])
  {
  }

  /** Text without an escape character passes through unchanged, and the pass carries on after it. */
  lemma {:induction false} KeepsTextWithoutEsc(u: string, v: string)
    requires Esc !in u
    ensures RemoveShellColors(u + v) == u + RemoveShellColors(v)
    decreases |u|
  {
    if u != [] {
      var s := u + v;
      assert s[0] == u[0];
      KeepsFirstChar(s);
      assert s[1..] == u[1..] + v;
      KeepsTextWithoutEsc(u[1..], v);
      assert u == [u[0]] + u[1..];
    } else {
      assert u + v == v;
    }
  }

  /** A colour code is removed whole, and the pass resumes right after it. */
  lemma RemovesCode(w: string, v: string)
    requires IsColorCode(w)
    ensures RemoveShellColors(w + v) == RemoveShellColors(v)
  {
    assert (w + v)[..|w|] == w;
    ColorCodeAtFinds(w + v, |w|);
    assert (w + v)[|w|..] == v;
  }

  /** An escape character that does not open a colour code is kept, and the pass moves on by one character. */
  lemma KeepsLoneEsc(v: string)
    requires !StartsWithCode([Esc] + v)
    ensures RemoveShellColors([Esc] + v) == [Esc] + RemoveShellColors(v)
  {
    var s := [Esc] + v;
    assert s[1..] == v;
  }

  /** Text without a colour code has none at its start either. */
  lemma NoCodeAtStart(s: string)
    requires !ContainsCode(s)
    ensures ColorCodeAt(s).None?
  {
    forall k | 0 <= k <= |s|
      ensures !IsColorCode(s[..k])
    {
      assert s[..k] == s[0..k];
    }
  }

  /** Text without a colour code has none after its first character either. */
  lemma NoCodeInTail(s: string)
    requires s != [] && !ContainsCode(s)
    ensures !ContainsCode(s[1..])
  {
    forall i, j | 0 <= i <= j <= |s| - 1
      ensures !IsColorCode(s[1..][i..j])
    {
      assert s[1..][i..j] == s[i + 1..j + 1];
    }
  }

  lemma {:induction false} UnchangedWithoutCode(s: string)
    requires !ContainsCode(s)
    ensures RemoveShellColors(s) == s
    decreases |s|
  {
    if s != [] {
      NoCodeAtStart(s);
      KeepsFirstChar(s);
      NoCodeInTail(s);
      UnchangedWithoutCode(s[1..]);
      assert s == [s[0]] + s[1..];
    }
  }

  lemma {:induction false} ShrinksWithCode(s: string, i: nat, j: nat)
    requires i <= j <= |s| && IsColorCode(s[i..j])
    ensures |RemoveShellColors(s)| < |s|
    decreases i
  {
    match ColorCodeAt(s)
    case Some(k) =>
    case None =>
      if i == 0 {
        assert s[..j] == s[i..j];
        ColorCodeAtFinds(s, j);
      } else {
        assert s[1..][i - 1..j - 1] == s[i..j];
        ShrinksWithCode(s[1..], i - 1, j - 1);
      }
  }

  /** The text comes back unchanged exactly when no colour code occurs in it. */
  lemma UnchangedIffNoCode(s: string)
    ensures RemoveShellColors(s) == s <==> !ContainsCode(s)
  {
    if ContainsCode(s) {
      var i, j :| 0 <= i <= j <= |s| && IsColorCode(s[i..j]);
      ShrinksWithCode(s, i, j);
    } else {
      UnchangedWithoutCode(s);
    }
  }

  /** The coloured last line of "a\nb\nc" loses its two colour codes. */
  lemma RemovesColoredLastLine()
    ensures RemoveShellColors("a\nb\n" + [Esc] + "[34mc" + [Esc] + "[0m") == "a\nb\nc"
  {
    var blue := [Esc] + "[34m";
    var reset := [Esc] + "[0m";
    assert IsColorCode(blue) by {
      assert blue[2..|blue| - 1] == "34";
    }
    assert IsColorCode(reset) by {
      assert reset[2..|reset| - 1] == "0";
    }
    assert "a\nb\n" + [Esc] + "[34mc" + [Esc] + "[0m" == "a\nb\n" + (blue + ("c" + (reset + "")));
    KeepsTextWithoutEsc("a\nb\n", blue + ("c" + (reset + "")));
    RemovesCode(blue, "c" + (reset + ""));
    KeepsTextWithoutEsc("c", reset + "");
    RemovesCode(reset, "");
  }

  /** A sequence without digits, ESC "[m", is not a colour code and is kept. */
  lemma KeepsCodeWithoutDigits()
    ensures RemoveShellColors([Esc] + "[m") == [Esc] + "[m"
  {
    var s := [Esc] + "[m";
    assert !ContainsCode(s);
    UnchangedWithoutCode(s);
  }
}
