/** The patterns of grep (user/grep.c) and what it means for a line to match one. */
module Grep {
  // ----- what a pattern means -----

  /** One character, literal or '.', or any number of it. */
  datatype Item = One(c: char) | Star(c: char)

  predicate Fits(c: char, x: char) {
    c == '.' || c == x
  }

  /** The items of a pattern without its leading ^, and whether it ends in an end-of-text anchor. */
  function Items(re: string): (r: seq<Item>) {
    if re == "" then []
    else if |re| >= 2 && re[1] == '*' then [Star(re[0])] + Items(re[2..])
    else if re == "$" then []
    else [One(re[0])] + Items(re[1..])
  }

  predicate Anchored(re: string) {
    if re == "" then false
    else if |re| >= 2 && re[1] == '*' then Anchored(re[2..])
    else if re == "$" then true
    else Anchored(re[1..])
  }

  predicate AllFit(c: char, w: string) {
    forall i :: 0 <= i < |w| ==> Fits(c, w[i])
  }

  /** The word w is one character after another of what the items allow. */
  ghost predicate InLanguage(items: seq<Item>, w: string)
    decreases |items|
  {
    if items == [] then w == ""
    else
      match items[0]
      case One(c) => w != "" && Fits(c, w[0]) && InLanguage(items[1..], w[1..])
      case Star(c) => exists n :: 0 <= n <= |w| && AllFit(c, w[..n]) && InLanguage(items[1..], w[n..])
  }

  /** A word of the pattern's language starts the text; if the pattern is anchored, it is all of it. */
  ghost predicate Here(re: string, text: string) {
    exists k :: HereAt(re, text, k)
  }

  ghost predicate HereAt(re: string, text: string, k: int) {
    0 <= k <= |text| && InLanguage(Items(re), text[..k]) && (Anchored(re) ==> k == |text|)
  }

  /** The text matches: from its start if the pattern begins with ^, else from anywhere. */
  ghost predicate Matches(re: string, text: string) {
    if re != "" && re[0] == '^' then Here(re[1..], text) else exists j :: 0 <= j <= |text| && Here(re, text[j..])
  }

  // ----- one item at a time -----

  lemma HereEmpty(text: string)
    ensures Here("", text)
  {
    assert text[..0] == "";
    assert HereAt("", text, 0);
  }

  lemma HereEnd(text: string)
    ensures Here("$", text) <==> text == ""
  {
    if text == "" {
      assert HereAt("$", text, 0);
    }
  }

  lemma HereOne(re: string, text: string)
    requires re != "" && !(|re| >= 2 && re[1] == '*') && re != "$"
    ensures Here(re, text) <==> text != "" && Fits(re[0], text[0]) && Here(re[1..], text[1..])
  {
    assert Items(re)[1..] == Items(re[1..]);
    if Here(re, text) {
      var k :| HereAt(re, text, k);
      assert text[..k][1..] == text[1..][..k - 1];
      assert HereAt(re[1..], text[1..], k - 1);
    }
    if text != "" && Fits(re[0], text[0]) && Here(re[1..], text[1..]) {
      var k :| HereAt(re[1..], text[1..], k);
      assert text[..k + 1][1..] == text[1..][..k];
      assert HereAt(re, text, k + 1);
    }
  }

  /** After n characters that fit, the rest of the pattern starts. */
  ghost predicate StarAt(c: char, re: string, text: string, n: int) {
    0 <= n <= |text| && AllFit(c, text[..n]) && Here(re, text[n..])
  }

  lemma HereStar(re: string, text: string)
    requires |re| >= 2 && re[1] == '*'
    ensures Here(re, text) <==> exists n :: StarAt(re[0], re[2..], text, n)
  {
    var c, rest := re[0], re[2..];
    assert Items(re)[1..] == Items(rest);
    if Here(re, text) {
      var k :| HereAt(re, text, k);
      var w := text[..k];
      var n :| 0 <= n <= |w| && AllFit(c, w[..n]) && InLanguage(Items(rest), w[n..]);
      assert w[n..] == text[n..][..k - n] && w[..n] == text[..n];
      assert HereAt(rest, text[n..], k - n);
      assert StarAt(c, rest, text, n);
    }
    if exists n :: StarAt(c, rest, text, n) {
      var n :| StarAt(c, rest, text, n);
      var k :| HereAt(rest, text[n..], k);
      var w := text[..n + k];
      assert w[n..] == text[n..][..k] && w[..n] == text[..n];
      assert InLanguage(Items(re), w);
      assert HereAt(re, text, n + k);
    }
  }

  // ----- lines -----

  /** The position of the first newline, or the length. */
  function LineEnd(s: string): (e: nat)
    ensures e <= |s| && (e < |s| ==> s[e] == '\n') && forall i :: 0 <= i < e ==> s[i] != '\n'
  {
    if s == "" || s[0] == '\n' then 0 else 1 + LineEnd(s[1..])
  }

  /** The lines that match, each with its newline, in order; text behind the last newline does not count. */
  ghost function Matching(re: string, input: string): (out: string)
    decreases |input|
  {
    var e := LineEnd(input);
    if e == |input| then ""
    else (if Matches(re, input[..e]) then input[..e + 1] else "") + Matching(re, input[e + 1..])
  }

  const BUFSIZE: nat := 1024

  /** The lines that match, up to the first stretch that leaves no room for a newline in the buffer. */
  ghost function Printed(re: string, input: string): (out: string)
    decreases |input|
  {
    var e := LineEnd(input);
    if e == |input| || e >= BUFSIZE - 1 then ""
    else (if Matches(re, input[..e]) then input[..e + 1] else "") + Printed(re, input[e + 1..])
  }

  /** Every line that ends in a newline fits the buffer with it. */
  predicate LinesFit(input: string)
    decreases |input|
  {
    var e := LineEnd(input);
    e == |input| || (e < BUFSIZE - 1 && LinesFit(input[e + 1..]))
  }

  lemma {:induction false} FittingPrinted(re: string, input: string)
    requires LinesFit(input)
    ensures Printed(re, input) == Matching(re, input)
    decreases |input|
  {
    hide Matches;
    var e := LineEnd(input);
    if e < |input| {
      FittingPrinted(re, input[e + 1..]);
    }
  }

  /** The empty pattern matches every line, so a line that is too long is missed. */
  lemma {:induction false} LongLineLost(input: string)
    requires !LinesFit(input)
    ensures |Printed("", input)| < |Matching("", input)|
    decreases |input|
  {
    var e := LineEnd(input);
    HereEmpty(input[..e][0..]);
    if e < BUFSIZE - 1 {
      LongLineLost(input[e + 1..]);
    }
  }

  /** The matching lines are printed, whatever the pattern, exactly if the lines fit. */
  lemma PrintedExactly(input: string)
    ensures (forall re :: Printed(re, input) == Matching(re, input)) <==> LinesFit(input)
  {
    if LinesFit(input) {
      forall re
        ensures Printed(re, input) == Matching(re, input)
      {
        FittingPrinted(re, input);
      }
    } else {
      LongLineLost(input);
    }
  }
}
