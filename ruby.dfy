/**
 * The behaviour of the Ruby core methods that the editing code relies on:
 * String#strip, String#chomp, String#split on "\n" (with and without the
 * -1 limit), Array#join("\n"), Kernel#Integer applied to a run of decimal
 * digits, and Array#[]= with an inclusive range.
 */
module Ruby {
  import opened Wrappers

  // ---------------------------------------------------------------------
  // String#strip
  // ---------------------------------------------------------------------

  /**
   * The characters strip removes: NUL, space, and tab, line feed, vertical
   * tab, form feed and carriage return, which are the codes 9 to 13.
   */
  predicate IsStripSpace(c: char) {
    c == '\0' || ('\t' <= c <= '\r') || c == ' '
  }

  predicate AllStripSpace(s: string) {
    forall i | 0 <= i < |s| :: IsStripSpace(s[i])
  }

  /** Neither end of `s` is whitespace: the shape of every result of strip. */
  predicate IsStripped(s: string) {
    s == [] || (!IsStripSpace(s[0]) && !IsStripSpace(s[|s| - 1]))
  }

  /** The number of whitespace characters at the front of `s`: what lstrip removes. */
  function LeadingSpace(s: string): (k: nat)
    ensures k <= |s| && AllStripSpace(s[..k])
    ensures k < |s| ==> !IsStripSpace(s[k])
  {
    if s != [] && IsStripSpace(s[0]) then
      var k := 1 + LeadingSpace(s[1..]);
      assert s[..k] == [s[0]] + s[1..][..k - 1];
      k
    else 0
  }

  /** The number of whitespace characters at the back of `s`: what rstrip removes. */
  function TrailingSpace(s: string): (k: nat)
    ensures k <= |s| && AllStripSpace(s[|s| - k..])
    ensures k < |s| ==> !IsStripSpace(s[|s| - 1 - k])
  {
    if s != [] && IsStripSpace(s[|s| - 1]) then
      var k := 1 + TrailingSpace(s[..|s| - 1]);
      assert s[|s| - k..] == s[..|s| - 1][|s| - k..] + [s[|s| - 1]];
      k
    else 0
  }

  /**
   * String#strip: `s` with leading and trailing whitespace removed. The
   * result sits in `s` right after its leading whitespace, with only
   * whitespace after it.
   */
  function Strip(s: string): (r: string)
    ensures IsStripped(r)
    ensures var i := LeadingSpace(s);
            && i + |r| <= |s| && s[i..i + |r|] == r
            && AllStripSpace(s[..i]) && AllStripSpace(s[i + |r|..])
  {
    var i := LeadingSpace(s);
    if i == |s| then []
    else
      var k := TrailingSpace(s);
      s[i..|s| - k]
  }

  /** Whitespace followed by text that does not start with whitespace: exactly the whitespace is leading. */
  lemma {:induction false} LeadingSpaceOf(pre: string, rest: string)
    requires AllStripSpace(pre)
    requires rest == [] || !IsStripSpace(rest[0])
    ensures LeadingSpace(pre + rest) == |pre|
    decreases |pre|
  {
    if pre == [] {
      assert pre + rest == rest;
    } else {
      assert (pre + rest)[1..] == pre[1..] + rest;
      LeadingSpaceOf(pre[1..], rest);
    }
  }

  /** Text that does not end in whitespace followed by whitespace: exactly the whitespace is trailing. */
  lemma {:induction false} TrailingSpaceOf(rest: string, post: string)
    requires AllStripSpace(post)
    requires rest == [] || !IsStripSpace(rest[|rest| - 1])
    ensures TrailingSpace(rest + post) == |post|
    decreases |post|
  {
    if post == [] {
      assert rest + post == rest;
    } else {
      var p := post[..|post| - 1];
      assert (rest + post)[..|rest + post| - 1] == rest + p;
      TrailingSpaceOf(rest, p);
    }
  }

  /** Whatever whitespace surrounds a stripped text, strip gives back exactly that text. */
  lemma StripSurrounded(pre: string, mid: string, post: string)
    requires AllStripSpace(pre) && AllStripSpace(post) && IsStripped(mid)
    ensures Strip(pre + mid + post) == mid
  {
    var s := pre + mid + post;
    if mid == [] {
      assert s == (pre + post) + [];
      LeadingSpaceOf(pre + post, []);
    } else {
      assert s == pre + (mid + post);
      LeadingSpaceOf(pre, mid + post);
      assert s == (pre + mid) + post;
      TrailingSpaceOf(pre + mid, post);
      assert s[|pre|..|s| - |post|] == mid;
    }
  }


  /** strip leaves a text without whitespace at its ends unchanged. */
  lemma StripOfStripped(s: string)
    requires IsStripped(s)
    ensures Strip(s) == s
  {
    StripSurrounded("", s, "");
    assert "" + s + "" == s;
  }

  // ---------------------------------------------------------------------
  // String#chomp
  // ---------------------------------------------------------------------

  /** String#chomp with the default separator: one trailing "\r\n", "\n" or "\r" is removed. */
  function Chomp(s: string): (r: string)
    ensures |r| <= |s| && r == s[..|r|]
    ensures s[|r|..] in {"", "\n", "\r", "\r\n"}
    ensures s[|r|..] == "" <==> (s == [] || (s[|s| - 1] != '\n' && s[|s| - 1] != '\r'))
    ensures s[|r|..] == "\n" ==> r == [] || r[|r| - 1] != '\r'
  {
    if |s| >= 2 && s[|s| - 2..] == "\r\n" then s[..|s| - 2]
    else if s != [] && (s[|s| - 1] == '\n' || s[|s| - 1] == '\r') then
      assert s[|s| - 1..] == [s[|s| - 1]];
      s[..|s| - 1]
    else s
  }

  /** A line ending in a lone "\n" loses exactly that "\n". */
  lemma ChompNewline(s: string)
    requires s == [] || s[|s| - 1] != '\r'
    ensures Chomp(s + "\n") == s
  {
    var t := s + "\n";
    assert t[|t| - 1] == '\n';
    assert t[..|s|] == s;
  }

  // ---------------------------------------------------------------------
  // String#split on "\n" and Array#join("\n")
  // ---------------------------------------------------------------------

  predicate NoNewline(ls: seq<string>) {
    forall i | 0 <= i < |ls| :: '\n' !in ls[i]
  }

  /** The position of the first "\n" in `s`. */
  function FirstNewline(s: string): (i: nat)
    requires '\n' in s
    ensures i < |s| && s[i] == '\n' && '\n' !in s[..i]
  {
    if s[0] == '\n' then 0
    else
      assert s == [s[0]] + s[1..];
      var j := FirstNewline(s[1..]);
      assert s[..j + 1] == [s[0]] + s[1..][..j];
      j + 1
  }

  /** The texts between the "\n" characters of `s`: one more piece than there are "\n" characters. */
  function Pieces(s: string): (r: seq<string>)
    ensures |r| >= 1 && NoNewline(r)
    decreases |s|
  {
    if '\n' !in s then [s]
    else
      var i := FirstNewline(s);
      [s[..i]] + Pieces(s[i + 1..])
  }

  /** String#split("\n", -1): every piece is kept, trailing empty ones too; the empty string has no pieces. */
  function SplitLines(s: string): (r: seq<string>)
    ensures NoNewline(r)
    ensures r == [] <==> s == ""
  {
    if s == "" then [] else Pieces(s)
  }

  /** Array#join("\n"). */
  function Join(ls: seq<string>): (r: string)
    ensures r == "" <==> ls == [] || ls == [""]
  {
    if |ls| == 0 then ""
    else if |ls| == 1 then ls[0]
    else ls[0] + "\n" + Join(ls[1..])
  }

  lemma {:induction false} JoinPieces(s: string)
    ensures Join(Pieces(s)) == s
    decreases |s|
  {
    if '\n' in s {
      var i := FirstNewline(s);
      var rest := Pieces(s[i + 1..]);
      JoinPieces(s[i + 1..]);
      assert ([s[..i]] + rest)[1..] == rest;
      assert s == s[..i] + "\n" + s[i + 1..];
    }
  }

  /** Splitting keeping trailing empty pieces and joining back gives the text again, trailing newline included. */
  lemma JoinSplitLines(s: string)
    ensures Join(SplitLines(s)) == s
  {
    if s != "" {
      JoinPieces(s);
    }
  }

  /** The first "\n" of `u + "\n" + v` is the one after `u` when `u` has none. */
  lemma FirstNewlineOf(u: string, v: string)
    requires '\n' !in u
    ensures var s := u + "\n" + v;
            FirstNewline(s) == |u| && s[..|u|] == u && s[|u| + 1..] == v
  {
    var s := u + "\n" + v;
    assert s[|u|] == '\n';
    assert s[..|u|] == u;
    assert s[|u| + 1..] == v;
  }

  lemma {:induction false} PiecesJoin(ls: seq<string>)
    requires |ls| >= 1 && NoNewline(ls)
    ensures Pieces(Join(ls)) == ls
  {
    if |ls| > 1 {
      var s := Join(ls);
      var tail := Join(ls[1..]);
      assert s == ls[0] + "\n" + tail;
      FirstNewlineOf(ls[0], tail);
      assert '\n' in s;
      assert Pieces(s) == [ls[0]] + Pieces(tail);
      PiecesJoin(ls[1..]);
      assert ls == [ls[0]] + ls[1..];
    }
  }

  /** Joining lines that hold no "\n" and splitting again gives the same lines, unless they are the single empty line. */
  lemma SplitLinesJoin(ls: seq<string>)
    requires NoNewline(ls) && ls != [""]
    ensures SplitLines(Join(ls)) == ls
  {
    if ls != [] {
      PiecesJoin(ls);
    }
  }

  /** No text splits into the single empty line. */
  lemma SplitLinesNotSingleEmpty(s: string)
    ensures SplitLines(s) != [""]
  {
    JoinSplitLines(s);
  }

  /** Join is one-to-one on lines holding no "\n", apart from `[]` and `[""]` which both join to "". */
  lemma JoinInjective(a: seq<string>, b: seq<string>)
    requires NoNewline(a) && NoNewline(b) && a != [""] && b != [""]
    requires Join(a) == Join(b)
    ensures a == b
  {
    SplitLinesJoin(a);
    SplitLinesJoin(b);
  }

  /** Drops the empty strings at the end of `ls`. */
  function DropTrailingEmpty(ls: seq<string>): (r: seq<string>)
    ensures |r| <= |ls| && r == ls[..|r|]
    ensures forall i | |r| <= i < |ls| :: ls[i] == ""
    ensures r == [] || r[|r| - 1] != ""
  {
    if ls != [] && ls[|ls| - 1] == "" then DropTrailingEmpty(ls[..|ls| - 1]) else ls
  }

  /** String#split("\n") with no limit: the pieces of SplitLines with the trailing empty ones suppressed. */
  function Split(s: string): (r: seq<string>)
    ensures NoNewline(r)
    ensures |r| <= |SplitLines(s)| && r == SplitLines(s)[..|r|]
    ensures forall i | |r| <= i < |SplitLines(s)| :: SplitLines(s)[i] == ""
    ensures r == [] || r[|r| - 1] != ""
  {
    DropTrailingEmpty(SplitLines(s))
  }

  // ---------------------------------------------------------------------
  // Kernel#Integer on a run of ASCII digits
  // ---------------------------------------------------------------------

  /** The `\d` class of a Ruby regular expression: the ASCII digits. */
  predicate IsDigit(c: char) {
    '0' <= c <= '9'
  }

  /** A non-empty run of ASCII digits, what `(\d+)` captures. */
  predicate IsDigits(s: string) {
    |s| > 0 && forall i | 0 <= i < |s| :: IsDigit(s[i])
  }

  function DigitValue(c: char): nat
    requires IsDigit(c)
  {
    c as int - '0' as int
  }

  function DigitChar(d: nat): (c: char)
    requires d < 10
    ensures IsDigit(c) && DigitValue(c) == d
  {
    ('0' as int + d) as char
  }

  /** The value of the digits of `s` read in `base`, most significant first. */
  function ValueIn(s: string, base: nat): nat
    requires forall i | 0 <= i < |s| :: IsDigit(s[i])
  {
    if s == [] then 0 else ValueIn(s[..|s| - 1], base) * base + DigitValue(s[|s| - 1])
  }

  /**
   * Kernel#Integer on a run of ASCII digits. A leading "0" followed by
   * more digits selects octal, and an 8 or a 9 then raises ArgumentError
   * (None here).
   */
  function Integer(s: string): (r: Option<nat>)
    requires IsDigits(s)
    ensures r.None? <==> |s| > 1 && s[0] == '0' && exists i | 1 <= i < |s| :: s[i] == '8' || s[i] == '9'
  {
    if |s| > 1 && s[0] == '0' then
      if forall i | 1 <= i < |s| :: s[i] <= '7' then Some(ValueIn(s, 8)) else None
    else Some(ValueIn(s, 10))
  }

  /** The decimal numeral of `n`, without leading zeros. */
  function DecimalString(n: nat): (s: string)
    ensures IsDigits(s)
  {
    if n < 10 then [DigitChar(n)] else DecimalString(n / 10) + [DigitChar(n % 10)]
  }

  lemma {:induction false} DecimalStringValue(n: nat)
    ensures ValueIn(DecimalString(n), 10) == n
    ensures n > 0 ==> DecimalString(n)[0] != '0'
  {
    if n >= 10 {
      var s := DecimalString(n);
      DecimalStringValue(n / 10);
      assert s[..|s| - 1] == DecimalString(n / 10);
      assert s[0] == DecimalString(n / 10)[0];
    }
  }

  /** Integer reads the decimal numeral of every natural number back as that number. */
  lemma IntegerOfDecimal(n: nat)
    ensures Integer(DecimalString(n)) == Some(n)
  {
    DecimalStringValue(n);
  }

  /** The octal numeral of `n`, without leading zeros. */
  function OctalString(n: nat): (s: string)
    ensures IsDigits(s) && forall i | 0 <= i < |s| :: s[i] <= '7'
  {
    if n < 8 then [DigitChar(n)] else OctalString(n / 8) + [DigitChar(n % 8)]
  }

  lemma {:induction false} OctalStringValue(n: nat)
    ensures ValueIn(OctalString(n), 8) == n
  {
    if n >= 8 {
      var s := OctalString(n);
      OctalStringValue(n / 8);
      assert s[..|s| - 1] == OctalString(n / 8);
    }
  }

  /** A leading zero does not change the value of a numeral. */
  lemma {:induction false} ValueInLeadingZero(s: string, base: nat)
    requires forall i | 0 <= i < |s| :: IsDigit(s[i])
    ensures ValueIn("0" + s, base) == ValueIn(s, base)
    decreases |s|
  {
    if s != [] {
      var t := "0" + s;
      assert t[..|t| - 1] == "0" + s[..|s| - 1];
      ValueInLeadingZero(s[..|s| - 1], base);
    }
  }

  /** Integer reads a "0" followed by the octal numeral of a number back as that number. */
  lemma IntegerOfOctal(n: nat)
    ensures Integer("0" + OctalString(n)) == Some(n)
  {
    var s := "0" + OctalString(n);
    assert forall i | 1 <= i < |s| :: s[i] == OctalString(n)[i - 1];
    OctalStringValue(n);
    ValueInLeadingZero(OctalString(n), 8);
  }

  /** The numbers of `LINES: 010-012` are read in octal, as 8 and 10. */
  lemma IntegerReadsOctal()
    ensures Integer("010") == Some(8) && Integer("012") == Some(10)
  {
    assert "0" + OctalString(8) == "010";
    assert "0" + OctalString(10) == "012";
    IntegerOfOctal(8);
    IntegerOfOctal(10);
  }

  // ---------------------------------------------------------------------
  // Array#[]= with an inclusive range
  // ---------------------------------------------------------------------

  /** The range of a C `long`, the type both bounds of a range index are converted to. */
  const LongMin: int := -0x8000_0000_0000_0000
  const LongMax: int := 0x7FFF_FFFF_FFFF_FFFF

  predicate IsLong(x: int) {
    LongMin <= x <= LongMax
  }

  function Repeat<T>(x: T, k: nat): (r: seq<T>)
    ensures |r| == k && forall i | 0 <= i < k :: r[i] == x
  {
    seq(k, _ => x)
  }

  /**
   * `a[first..last] = rpl`. Both bounds are first converted to a C `long`,
   * which raises RangeError (None here) for a bound outside its range. A
   * negative bound counts from the end; a start still negative after that
   * raises RangeError too. The range
   * covers first..last clipped to the array, empty when last < first; a
   * start past the end pads the array with `nil` up to the start. So
   * `a[0..-1] = rpl` replaces the whole array.
   */
  function RangeAssign<T>(a: seq<T>, first: int, last: int, rpl: seq<T>, nil: T): (r: Option<seq<T>>)
    ensures r.None? <==> !IsLong(first) || !IsLong(last) || first < -|a|
    ensures IsLong(first) && IsLong(last) && 0 <= first <= last + 1 <= |a| && 0 <= last ==>
              r == Some(a[..first] + rpl + a[last + 1..])
    ensures IsLong(first) && IsLong(last) && 0 <= last < first <= |a| ==> r == Some(a[..first] + rpl + a[first..])
    ensures IsLong(first) && IsLong(last) && 0 <= first < |a| <= last + 1 ==> r == Some(a[..first] + rpl)
    ensures IsLong(first) && 0 <= first <= |a| && last == -1 ==> r == Some(a[..first] + rpl)
    ensures IsLong(first) && IsLong(last) && |a| <= first ==> r == Some(a + Repeat(nil, first - |a|) + rpl)
  {
    if !IsLong(first) || !IsLong(last) then None
    else
      var n := |a|;
      var beg := if first < 0 then first + n else first;
      if beg < 0 then None
      else
        var end := (if last < 0 then last + n else last) + 1;
        var len := if end - beg < 0 then 0 else end - beg;
        if beg >= n then
          assert beg == n ==> a + Repeat(nil, beg - n) + rpl == a[..beg] + rpl + a[beg..];
          assert beg == n ==> a + Repeat(nil, beg - n) + rpl == a[..beg] + rpl;
          Some(a + Repeat(nil, beg - n) + rpl)
        else
          var stop := if n < beg + len then n else beg + len;
          assert 0 <= first && last == -1 ==> a[..beg] + rpl + a[stop..] == a[..first] + rpl;
          assert 0 <= first && n <= last + 1 ==> a[..beg] + rpl + a[stop..] == a[..first] + rpl;
          Some(a[..beg] + rpl + a[stop..])
  }

  /** A negative start or end counts from the end of the array. */
  lemma RangeAssignCountsFromEnd<T>(a: seq<T>, first: int, last: int, rpl: seq<T>, nil: T)
    requires |a| <= LongMax
    ensures -|a| <= first < 0 ==> RangeAssign(a, first, last, rpl, nil) == RangeAssign(a, first + |a|, last, rpl, nil)
    ensures -|a| <= last < 0 ==> RangeAssign(a, first, last, rpl, nil) == RangeAssign(a, first, last + |a|, rpl, nil)
  {
  }

  /**
   * A range running past the end is cut at the end; a start of -1 counts
   * from the last element; an end too large for a `long` raises.
   */
  lemma RangeAssignExamples()
    ensures RangeAssign(["a", "b", "c"], 1, 9, ["x"], "") == Some(["a", "x"])
    ensures RangeAssign(["a", "b", "c"], -1, 1, ["x"], "") == Some(["a", "b", "x", "c"])
    ensures RangeAssign(["a", "b", "c"], 0, 9223372036854775808, ["x"], "") == None
  {
    var a := ["a", "b", "c"];
    RangeAssignCountsFromEnd(a, -1, 1, ["x"], "");
    assert a[..1] + ["x"] == ["a", "x"];
    assert a[..2] + ["x"] + a[2..] == ["a", "b", "x", "c"];
  }
}
