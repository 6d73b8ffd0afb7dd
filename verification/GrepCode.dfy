/** grep as it runs (user/grep.c): the matcher with its cursors, and the loop that reads chunks into a fixed buffer. */
module GrepCode {
  import opened Grep

  method MatchHere(re: string, text: string) returns (b: bool)
    ensures b <==> Here(re, text)
    decreases |re|, 0
  {
    if re == "" {
      HereEmpty(text);
      return true;
    }
    if |re| >= 2 && re[1] == '*' {
      HereStar(re, text);
      b := MatchStar(re[0], re[2..], text);
      return;
    }
    if re[0] == '$' && |re| == 1 {
      assert re == "$";
      HereEnd(text);
      return text == "";
    }
    HereOne(re, text);
    if text != "" && (re[0] == '.' || re[0] == text[0]) {
      b := MatchHere(re[1..], text[1..]);
      return;
    }
    return false;
  }

  method MatchStar(c: char, re: string, text: string) returns (b: bool)
    ensures b <==> exists n :: StarAt(c, re, text, n)
    decreases |re|, 1
  {
    hide Here;
    var i := 0;
    while true
      invariant 0 <= i <= |text| && AllFit(c, text[..i])
      invariant forall n :: 0 <= n < i ==> !StarAt(c, re, text, n)
      decreases |text| - i
    {
      b := MatchHere(re, text[i..]);
      if b {
        assert StarAt(c, re, text, i);
        return;
      }
      if i < |text| && (text[i] == c || c == '.') {
        assert text[..i + 1] == text[..i] + [text[i]];
        i := i + 1;
      } else {
        StarStops(c, re, text, i);
        return;
      }
    }
  }

  lemma StarStops(c: char, re: string, text: string, i: nat)
    requires i <= |text| && (i < |text| ==> !Fits(c, text[i])) && !StarAt(c, re, text, i)
    requires forall n :: 0 <= n < i ==> !StarAt(c, re, text, n)
    ensures !exists n :: StarAt(c, re, text, n)
  {
    forall n
      ensures !StarAt(c, re, text, n)
    {
      if i < n <= |text| {
        assert text[..n][i] == text[i];
      }
    }
  }

  method Match(re: string, text: string) returns (b: bool)
    ensures b <==> Matches(re, text)
  {
    hide Here;
    if re != "" && re[0] == '^' {
      b := MatchHere(re[1..], text);
      return;
    }
    var i := 0;
    while true
      invariant 0 <= i <= |text| && forall j :: 0 <= j < i ==> !Here(re, text[j..])
      decreases |text| - i
    {
      b := MatchHere(re, text[i..]);
      if b || i == |text| {
        return;
      }
      i := i + 1;
    }
  }

  // ----- the buffer -----

  predicate NoNul(input: string) {
    forall i :: 0 <= i < |input| ==> input[i] != '\0'
  }

  predicate NoNewline(s: string) {
    forall i :: 0 <= i < |s| ==> s[i] != '\n'
  }

  /** strchr(p, '\n') in the string that ends at m: the position of the newline, or m. */
  method FindNewline(buf: array<char>, p: nat, m: nat) returns (q: nat)
    requires p <= m < buf.Length && buf[m] == '\0' && forall i :: p <= i < m ==> buf[i] != '\0'
    ensures p <= q <= m && q - p == LineEnd(buf[p..m])
  {
    q := p;
    while buf[q] != '\0' && buf[q] != '\n'
      invariant p <= q <= m && forall i :: p <= i < q ==> buf[i] != '\n'
      decreases m - q
    {
      q := q + 1;
    }
    LineEndIs(buf[p..m], q - p);
  }

  lemma LineEndIs(s: string, e: nat)
    requires e <= |s| && (e < |s| ==> s[e] == '\n') && forall i :: 0 <= i < e ==> s[i] != '\n'
    ensures LineEnd(s) == e
  {
  }

  /** Match the line buf[p..q] and put its newline back if it is written out; what follows stays as it is. */
  method OneLine(re: string, buf: array<char>, p: nat, q: nat) returns (piece: string)
    requires p <= q < buf.Length && buf[q] == '\n'
    modifies buf
    ensures piece == if Matches(re, old(buf[p..q])) then old(buf[p..q + 1]) else ""
    ensures forall i :: q < i < buf.Length ==> buf[i] == old(buf[i])
  {
    hide Matches;
    ghost var line := buf[p..q];
    assert buf[p..q + 1] == line + ['\n'];
    buf[q] := '\0';
    assert buf[p..q] == line;
    var hit := Match(re, buf[p..q]);
    piece := "";
    if hit {
      buf[q] := '\n';
      piece := buf[p..q + 1];
      assert piece == line + ['\n'];
    }
  }

  /** Write out the matching lines in buf[..m] and move what is left to the front. */
  method Lines(re: string, buf: array<char>, m: nat, ghost more: string) returns (out: string, left: nat)
    requires m < buf.Length == BUFSIZE && buf[m] == '\0' && forall i :: 0 <= i < m ==> buf[i] != '\0'
    modifies buf
    ensures left <= m && NoNewline(buf[..left]) && buf[..left] == old(buf[..m])[m - left..]
    ensures Printed(re, old(buf[..m]) + more) == out + Printed(re, buf[..left] + more)
  {
    hide Printed, Matches, LineEnd;
    ghost var text := buf[..m];
    var p := 0;
    out := "";
    assert text[0..] == text;
    while true
      invariant 0 <= p <= m && (forall i :: p <= i <= m ==> buf[i] == old(buf[i]))
      invariant Printed(re, text + more) == out + Printed(re, text[p..] + more)
      decreases m - p
    {
      var q := FindNewline(buf, p, m);
      assert buf[p..m] == text[p..];
      ghost var rest := text[p..];
      if q == m {
        WholeLine(rest);
        break;
      }
      LineOut(re, rest, more);
      FirstPart(buf, p, q, m);
      FirstPart(buf, p, q + 1, m);
      AtNewline(rest);
      var piece := OneLine(re, buf, p, q);
      assert rest[q - p + 1..] == text[q + 1..];
      Appended(out, piece, Printed(re, text[q + 1..] + more));
      out := out + piece;
      p := q + 1;
    }
    left := m - p;
    ghost var tail := buf[p..m];
    assert tail == text[p..];
    MoveDown(buf, p, left);
    assert buf[..left] == tail == text[m - left..];
  }

  lemma FirstPart(buf: array<char>, p: nat, q: nat, m: nat)
    requires p <= q <= m <= buf.Length
    ensures buf[p..m][..q - p] == buf[p..q]
  {
  }

  lemma Appended(a: string, b: string, c: string)
    ensures a + (b + c) == (a + b) + c
  {
  }

  lemma WholeLine(s: string)
    requires LineEnd(s) == |s|
    ensures NoNewline(s)
  {
  }

  lemma AtNewline(s: string)
    requires LineEnd(s) < |s|
    ensures s[LineEnd(s)] == '\n'
  {
  }

  lemma LineOut(re: string, s: string, more: string)
    requires LineEnd(s) < |s| < BUFSIZE
    ensures var e := LineEnd(s);
      Printed(re, s + more) == (if Matches(re, s[..e]) then s[..e + 1] else "") + Printed(re, s[e + 1..] + more)
  {
    hide Matches;
    var e := LineEnd(s);
    assert (s + more)[..e] == s[..e];
    LineEndIs(s + more, e);
    assert (s + more)[..e + 1] == s[..e + 1] && (s + more)[e + 1..] == s[e + 1..] + more;
  }

  /** memmove(buf, buf + p, n) */
  method MoveDown(buf: array<char>, p: nat, n: nat)
    requires p + n <= buf.Length
    modifies buf
    ensures buf[..n] == old(buf[p..p + n])
  {
    var i := 0;
    while i < n
      invariant 0 <= i <= n && buf[..i] == old(buf[p..p + i])
      invariant forall j :: p + i <= j < buf.Length ==> buf[j] == old(buf[j])
    {
      buf[i] := buf[p + i];
      i := i + 1;
    }
  }

  /** read(fd, buf + m, room): some of the remaining input, at least one character unless there is none or no room. */
  method Read(input: string, pos: nat, buf: array<char>, m: nat, room: nat) returns (n: nat)
    requires pos <= |input| && m + room <= buf.Length
    modifies buf
    ensures n <= room && pos + n <= |input| && (n == 0 <==> room == 0 || pos == |input|)
    ensures buf[..m] == old(buf[..m]) && buf[m..m + n] == input[pos..pos + n]
  {
    var most := if |input| - pos < room then |input| - pos else room;
    if most == 0 {
      return 0;
    }
    n :| 1 <= n <= most;
    var i := 0;
    while i < n
      invariant 0 <= i <= n && forall l :: 0 <= l < m ==> buf[l] == old(buf[l])
      invariant forall l :: m <= l < m + i ==> buf[l] == input[l - m + pos]
    {
      buf[m + i] := input[pos + i];
      i := i + 1;
    }
  }

  /** Read behind the m characters kept so far and put a NUL behind it all. */
  method Fill(input: string, pos: nat, buf: array<char>, m: nat) returns (n: nat)
    requires NoNul(input) && m <= pos <= |input| && m <= BUFSIZE - 1 && buf.Length == BUFSIZE
    requires buf[..m] == input[pos - m..pos]
    modifies buf
    ensures pos + n <= |input| && m + n < BUFSIZE && (n == 0 <==> pos == |input| || m == BUFSIZE - 1)
    ensures buf[..m + n] == input[pos - m..pos + n] && (n > 0 ==> buf[m + n] == '\0')
    ensures forall i :: 0 <= i < m + n ==> buf[i] != '\0'
  {
    n := Read(input, pos, buf, m, BUFSIZE - m - 1);
    SliceJoin(input, pos - m, pos, pos + n);
    assert buf[..m + n] == buf[..m] + buf[m..m + n];
    NoNuls(input, pos - m, pos + n);
    ghost var text := buf[..m + n];
    if n > 0 {
      buf[m + n] := '\0';
      assert buf[..m + n] == text;
    }
    forall i | 0 <= i < m + n
      ensures buf[i] != '\0'
    {
      assert buf[i] == text[i];
    }
  }

  /** The rest of a round: write out what is complete in the characters from..to of the input, which are in buf. */
  method Round(re: string, ghost input: string, ghost from: nat, ghost to: nat, buf: array<char>, m: nat)
    returns (out: string, left: nat)
    requires from <= to <= |input| && m == to - from < BUFSIZE == buf.Length
    requires buf[..m] == input[from..to] && buf[m] == '\0' && forall i :: 0 <= i < m ==> buf[i] != '\0'
    modifies buf
    ensures left <= m && buf[..left] == input[to - left..to] && NoNewline(input[to - left..to])
    ensures Printed(re, input[from..]) == out + Printed(re, input[to - left..])
  {
    hide Printed, NoNewline;
    out, left := Lines(re, buf, m, input[to..]);
    RoundAdds(re, input, from, to, left, out, buf[..left]);
  }

  lemma RoundAdds(re: string, input: string, from: nat, to: nat, left: nat, out: string, tail: string)
    requires from <= to <= |input| && left <= to - from && NoNewline(tail)
    requires tail == input[from..to][to - from - left..]
    requires Printed(re, input[from..to] + input[to..]) == out + Printed(re, tail + input[to..])
    ensures tail == input[to - left..to]
    ensures Printed(re, input[from..]) == out + Printed(re, input[to - left..])
  {
    hide Printed, NoNewline;
    SliceJoin(input, from, to, |input|);
    SliceTail(input, from, to, left);
    SliceJoin(input, to - left, to, |input|);
  }

  lemma SliceJoin(s: string, i: nat, j: nat, k: nat)
    requires i <= j <= k <= |s|
    ensures s[i..j] + s[j..k] == s[i..k] && (k == |s| ==> s[i..k] == s[i..] && s[j..k] == s[j..])
  {
  }

  lemma SliceTail(s: string, i: nat, j: nat, n: nat)
    requires i <= j <= |s| && n <= j - i
    ensures s[i..j][j - i - n..] == s[j - n..j] && s[i..j][j - i - n..j - i] == s[j - n..j]
  {
  }

  /** Whatever sizes the reads return, the output is the matching lines up to the first that does not fit. */
  method GrepFile(re: string, input: string) returns (out: string)
    requires NoNul(input)
    ensures out == Printed(re, input)
    ensures LinesFit(input) ==> out == Matching(re, input)
  {
    hide Printed, Matching, LinesFit, NoNewline;
    var buf := new char[BUFSIZE](_ => '\0');
    var m, pos := 0, 0;
    out := "";
    assert buf[..0] == "" == input[0..0] && input[0..] == input;
    EmptyLine();
    while true
      invariant 0 <= m <= pos <= |input| && m <= BUFSIZE - 1
      invariant buf[..m] == input[pos - m..pos] && NoNewline(input[pos - m..pos])
      invariant Printed(re, input) == out + Printed(re, input[pos - m..])
      decreases |input| - pos
    {
      var n := Fill(input, pos, buf, m);
      if n == 0 {
        break;
      }
      var o, left := Round(re, input, pos - m, pos + n, buf, m + n);
      Appended(out, o, Printed(re, input[pos + n - left..]));
      out := out + o;
      m, pos := left, pos + n;
    }
    NoLines(re, input[pos - m..], m) by { assert input[pos - m..][..m] == input[pos - m..pos]; }
    if LinesFit(input) { FittingPrinted(re, input); }
  }

  lemma EmptyLine()
    ensures NoNewline("")
  {
  }

  lemma NoNuls(input: string, i: nat, j: nat)
    requires NoNul(input) && i <= j <= |input|
    ensures forall k :: 0 <= k < j - i ==> input[i..j][k] != '\0'
  {
  }

  /** Nothing is printed of text without a newline, or with none that fits. */
  lemma NoLines(re: string, s: string, m: nat)
    requires m <= |s| && NoNewline(s[..m]) && (m == |s| || m == BUFSIZE - 1)
    ensures Printed(re, s) == ""
  {
    assert forall i :: 0 <= i < m ==> s[i] == s[..m][i];
  }
}
