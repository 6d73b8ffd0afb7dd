/** The parser as the shell runs it (user/sh.c): loops over a cursor into the line, and nulterminate writing into it. */
module ShellCode {
  import opened Shell
  import opened ShellGrammar
  import opened ShellPrint

  method SkipSpaces(text: string, ps: nat) returns (s: nat)
    requires ps <= |text|
    ensures s == SkipBlanks(text, ps)
  {
    s := ps;
    while s < |text| && Blank(text[s])
      invariant ps <= s <= |text| && SkipBlanks(text, s) == SkipBlanks(text, ps)
    {
      s := s + 1;
    }
  }

  method NextToken(text: string, ps: nat) returns (r: Lexed)
    requires ps <= |text|
    ensures r == GetToken(text, ps)
  {
    var s := SkipSpaces(text, ps);
    var q, tok := s, End;
    var c := CharAt(text, s);
    if s == |text| {
    } else if c == '>' {
      s := s + 1;
      tok := Sym('>');
      if CharAt(text, s) == '>' {
        tok := AppendSym;
        s := s + 1;
      }
    } else if Symbol(c) {
      s := s + 1;
      tok := Sym(c);
    } else {
      tok := Word;
      while s < |text| && !Blank(text[s]) && !Symbol(text[s])
        invariant q <= s <= |text| && SkipWord(text, s) == SkipWord(text, q)
      {
        s := s + 1;
      }
    }
    var eq := s;
    s := SkipSpaces(text, s);
    r := Lexed(tok, q, eq, s);
  }

  method PeekFor(text: string, ps: nat, toks: set<char>) returns (found: bool, s: nat)
    requires ps <= |text|
    ensures found == Peek(text, ps, toks) && s == SkipBlanks(text, ps)
  {
    s := SkipSpaces(text, ps);
    found := s < |text| && text[s] in toks;
  }

  /** Behind a character that was peeked at there is less to read. */
  lemma PeekMoves(text: string, s: nat, toks: set<char>)
    requires s <= |text| && Peek(text, s, toks)
    ensures s < GetToken(text, SkipBlanks(text, s)).pos
  {
    SkipTwice(text, s);
  }

  method ReadRedirs(text: string, cmd0: Cmd<Span>, ps: nat) returns (r: Parsed)
    requires ps <= |text|
    ensures r == ParseRedirs(text, cmd0, ps)
  {
    var cmd, s := cmd0, ps;
    while true
      invariant ps <= s <= |text| && ParseRedirs(text, cmd, s) == ParseRedirs(text, cmd0, ps)
      decreases |text| - s
    {
      var more;
      SkipTwice(text, s);
      more, s := PeekFor(text, s, {'<', '>'});
      if !more {
        return Ok(cmd, s);
      }
      var t := NextToken(text, s);
      var f := NextToken(text, t.pos);
      if f.tok != Word {
        return Panic;
      }
      match t.tok {
        case Sym(c) =>
          cmd := Redir(cmd, Span(f.q, f.eq), if c == '<' then Input else Output);
        case _ =>
          cmd := Redir(cmd, Span(f.q, f.eq), Append);
      }
      s := f.pos;
    }
  }

  method ReadExec(text: string, ps: nat) returns (r: Parsed)
    requires ps <= |text|
    ensures r == ParseExec(text, ps)
    decreases |text| - ps, 0
  {
    hide SkipBlanks, GetToken, ParseRedirs;
    SkipTwice(text, ps);
    var block, s := PeekFor(text, ps, {'('});
    if block {
      r := ReadBlock(text, s);
      return;
    }
    r := ReadRedirs(text, Exec([]), s);
    if r.Panic? {
      return;
    }
    var cmd, argc := r.cmd, 0;
    s := r.pos;
    while true
      invariant ps <= s <= |text| && ParseArgs(text, cmd, argc, s) == ParseExec(text, ps)
      decreases |text| - s
    {
      SkipTwice(text, s);
      var stop;
      stop, s := PeekFor(text, s, {'|', ')', '&', ';'});
      if stop {
        return Ok(cmd, s);
      }
      var t := NextToken(text, s);
      if t.tok.End? {
        return Ok(cmd, t.pos);
      }
      if t.tok != Word {
        return Panic;
      }
      cmd := AddArg(cmd, Span(t.q, t.eq));
      argc := argc + 1;
      if argc >= MAXARGS {
        return Panic;
      }
      r := ReadRedirs(text, cmd, t.pos);
      if r.Panic? {
        return;
      }
      cmd, s := r.cmd, r.pos;
    }
  }

  method ReadBlock(text: string, ps: nat) returns (r: Parsed)
    requires ps <= |text|
    ensures r == ParseBlock(text, ps)
    decreases |text| - ps, 0, 0
  {
    hide SkipBlanks, GetToken, ParseRedirs, ParseLine;
    var open, s := PeekFor(text, ps, {'('});
    if !open {
      return Panic;
    }
    PeekMoves(text, ps, {'('});
    var t := NextToken(text, s);
    r := ReadLine(text, t.pos);
    if r.Panic? {
      return;
    }
    var close;
    close, s := PeekFor(text, r.pos, {')'});
    if !close {
      return Panic;
    }
    t := NextToken(text, s);
    r := ReadRedirs(text, r.cmd, t.pos);
  }

  method ReadPipe(text: string, ps: nat) returns (r: Parsed)
    requires ps <= |text|
    ensures r == ParsePipe(text, ps)
    decreases |text| - ps, 1
  {
    hide SkipBlanks, GetToken, ParseExec;
    r := ReadExec(text, ps);
    if r.Panic? {
      return;
    }
    var cmd := r.cmd;
    var more, s := PeekFor(text, r.pos, {'|'});
    if !more {
      return Ok(cmd, s);
    }
    PeekMoves(text, r.pos, {'|'});
    var t := NextToken(text, s);
    r := ReadPipe(text, t.pos);
    if r.Ok? {
      r := Ok(Pipe(cmd, r.cmd), r.pos);
    }
  }

  method ReadLine(text: string, ps: nat) returns (r: Parsed)
    requires ps <= |text|
    ensures r == ParseLine(text, ps)
    decreases |text| - ps, 2
  {
    hide SkipBlanks, GetToken, ParsePipe;
    r := ReadPipe(text, ps);
    if r.Panic? {
      return;
    }
    var cmd, s := r.cmd, r.pos;
    ghost var b := ParseBacks(text, cmd, s);
    while true
      invariant ps <= s <= |text| && ParseBacks(text, cmd, s) == b
      decreases |text| - s
    {
      var back;
      ghost var s0 := s;
      back, s := PeekFor(text, s, {'&'});
      if !back {
        break;
      }
      PeekMoves(text, s0, {'&'});
      var t := NextToken(text, s);
      s := t.pos;
      cmd := Back(cmd);
    }
    var more;
    SkipTwice(text, s);
    ghost var s0 := s;
    more, s := PeekFor(text, s, {';'});
    if !more {
      return Ok(cmd, s);
    }
    PeekMoves(text, s0, {';'});
    var t := NextToken(text, s);
    r := ReadLine(text, t.pos);
    if r.Ok? {
      r := Ok(List(cmd, r.cmd), r.pos);
    }
  }

  // ----- the recorded words -----

  /** A maximal run of word characters. */
  predicate IsToken(text: string, w: Span) {
    && w.lo < w.hi <= |text| && (forall i :: w.lo <= i < w.hi ==> WordChar(text[i]))
    && (w.hi < |text| ==> !WordChar(text[w.hi]))
  }

  /** Every recorded word is a token, and no command has MAXARGS arguments or more. */
  predicate AllTokens(text: string, c: Cmd<Span>) {
    match c
    case Exec(argv) => |argv| < MAXARGS && forall i :: 0 <= i < |argv| ==> IsToken(text, argv[i])
    case Redir(d, f, _) => AllTokens(text, d) && IsToken(text, f)
    case Pipe(l, r) => AllTokens(text, l) && AllTokens(text, r)
    case List(l, r) => AllTokens(text, l) && AllTokens(text, r)
    case Back(d) => AllTokens(text, d)
  }

  /** c is a simple command with n arguments, perhaps with redirections around it. */
  predicate Simple(c: Cmd<Span>, n: nat) {
    match c
    case Exec(argv) => |argv| == n
    case Redir(d, _, _) => Simple(d, n)
    case _ => false
  }

  lemma {:induction false} WordRun(text: string, s: nat)
    requires s <= |text| && IsLine(text)
    ensures var e := SkipWord(text, s);
      (forall i :: s <= i < e ==> WordChar(text[i])) && (e < |text| ==> !WordChar(text[e]))
    decreases |text| - s
  {
    if s < |text| && !Blank(text[s]) && !Symbol(text[s]) {
      WordRun(text, s + 1);
    }
  }

  lemma WordIsToken(text: string, s: nat)
    requires s <= |text| && IsLine(text) && GetToken(text, s).tok.Word?
    ensures IsToken(text, Span(GetToken(text, s).q, GetToken(text, s).eq))
  {
    var q := SkipBlanks(text, s);
    WordStarts(text, s);
    WordRun(text, q);
  }

  lemma {:induction false} RedirTokens(text: string, c: Cmd<Span>, s: nat)
    requires s <= |text| && IsLine(text) && AllTokens(text, c)
    ensures ParseRedirs(text, c, s).Ok? ==> AllTokens(text, ParseRedirs(text, c, s).cmd)
    ensures ParseRedirs(text, c, s).Ok? ==> forall n :: Simple(c, n) ==> Simple(ParseRedirs(text, c, s).cmd, n)
    decreases |text| - s
  {
    hide GetToken, IsToken, SkipBlanks;
    var p := SkipBlanks(text, s);
    if Peek(text, s, {'<', '>'}) {
      var t := GetToken(text, p);
      var f := GetToken(text, t.pos);
      if f.tok.Word? {
        WordIsToken(text, t.pos);
        var mode := if t.tok == Sym('<') then Input else if t.tok == Sym('>') then Output else Append;
        RedirTokens(text, Redir(c, Span(f.q, f.eq), mode), f.pos);
      }
    }
  }

  lemma {:induction false} ArgTokens(text: string, c: Cmd<Span>, w: Span, n: nat)
    requires AllTokens(text, c) && IsToken(text, w) && Simple(c, n) && n + 1 < MAXARGS
    ensures AllTokens(text, AddArg(c, w)) && Simple(AddArg(c, w), n + 1)
  {
    if c.Redir? {
      ArgTokens(text, c.cmd, w, n);
    }
  }

  lemma {:induction false} ArgsTokens(text: string, c: Cmd<Span>, argc: nat, s: nat)
    requires s <= |text| && IsLine(text) && AllTokens(text, c) && Simple(c, argc)
    ensures ParseArgs(text, c, argc, s).Ok? ==> AllTokens(text, ParseArgs(text, c, argc, s).cmd)
    decreases |text| - s
  {
    hide GetToken, IsToken, SkipBlanks, ParseRedirs, AddArg, AllTokens, Simple;
    var p := SkipBlanks(text, s);
    if !Peek(text, s, {'|', ')', '&', ';'}) {
      var t := GetToken(text, p);
      if t.tok.Word? && argc + 1 < MAXARGS {
        WordIsToken(text, p);
        ArgTokens(text, c, Span(t.q, t.eq), argc);
        RedirTokens(text, AddArg(c, Span(t.q, t.eq)), t.pos);
        var r := ParseRedirs(text, AddArg(c, Span(t.q, t.eq)), t.pos);
        if r.Ok? {
          ArgsTokens(text, r.cmd, argc + 1, r.pos);
        }
      }
    }
  }

  lemma {:induction false} BackTokens(text: string, c: Cmd<Span>, s: nat)
    requires s <= |text| && AllTokens(text, c)
    ensures AllTokens(text, ParseBacks(text, c, s).cmd)
    decreases |text| - s
  {
    hide GetToken, IsToken, SkipBlanks;
    if Peek(text, s, {'&'}) {
      PeekMoves(text, s, {'&'});
      BackTokens(text, Back(c), GetToken(text, SkipBlanks(text, s)).pos);
    }
  }

  lemma {:induction false} ExecTokens(text: string, s: nat)
    requires s <= |text| && IsLine(text)
    ensures ParseExec(text, s).Ok? ==> AllTokens(text, ParseExec(text, s).cmd)
    decreases |text| - s, 0
  {
    hide GetToken, IsToken, SkipBlanks, ParseRedirs, ParseArgs;
    if Peek(text, s, {'('}) {
      var p := SkipBlanks(text, s);
      if Peek(text, p, {'('}) {
        var t := GetToken(text, SkipBlanks(text, p));
        PeekMoves(text, p, {'('});
        LineTokens(text, t.pos);
        var r := ParseLine(text, t.pos);
        if r.Ok? && Peek(text, r.pos, {')'}) {
          RedirTokens(text, r.cmd, GetToken(text, SkipBlanks(text, r.pos)).pos);
        }
      }
    } else {
      RedirTokens(text, Exec([]), SkipBlanks(text, s));
      var r := ParseRedirs(text, Exec([]), SkipBlanks(text, s));
      if r.Ok? {
        ArgsTokens(text, r.cmd, 0, r.pos);
      }
    }
  }

  lemma {:induction false} PipeTokens(text: string, s: nat)
    requires s <= |text| && IsLine(text)
    ensures ParsePipe(text, s).Ok? ==> AllTokens(text, ParsePipe(text, s).cmd)
    decreases |text| - s, 1
  {
    hide GetToken, IsToken, SkipBlanks, ParseExec;
    ExecTokens(text, s);
    var r := ParseExec(text, s);
    if r.Ok? && Peek(text, r.pos, {'|'}) {
      PeekMoves(text, r.pos, {'|'});
      PipeTokens(text, GetToken(text, SkipBlanks(text, r.pos)).pos);
    }
  }

  lemma {:induction false} LineTokens(text: string, s: nat)
    requires s <= |text| && IsLine(text)
    ensures ParseLine(text, s).Ok? ==> AllTokens(text, ParseLine(text, s).cmd)
    decreases |text| - s, 2
  {
    hide GetToken, IsToken, SkipBlanks, ParsePipe, ParseBacks;
    PipeTokens(text, s);
    var r := ParsePipe(text, s);
    if r.Ok? {
      BackTokens(text, r.cmd, r.pos);
      var b := ParseBacks(text, r.cmd, r.pos);
      if Peek(text, b.pos, {';'}) {
        PeekMoves(text, b.pos, {';'});
        LineTokens(text, GetToken(text, SkipBlanks(text, b.pos)).pos);
      }
    }
  }

  /** The parser builds writable trees only, so any line it accepts means the same as the line printed for its tree. */
  lemma ParsedIsWritable(text: string)
    requires IsLine(text) && ParseCmd(text).Ok?
    ensures Writable(Words(text, ParseCmd(text).cmd))
    ensures var line := PrintLine(Words(text, ParseCmd(text).cmd));
            ParseCmd(line).Ok? && Words(line, ParseCmd(line).cmd) == Words(text, ParseCmd(text).cmd)
  {
    hide IsCommand, Tree, Yield, Tokens, ParseCmd, Words, Writable, LineForm;
    ParserExact(text);
    var x :| IsCommand(x) && Yield(x) == Tokens(text, 0);
    TreeWritable(x);
    var t := Words(text, ParseCmd(text).cmd);
    PrintedIsLayout(t);
    RoundTrip(t, Spaces(|Yield(LineForm(t))|));
  }

  // ----- nulterminate -----

  /** buf holds the line and a final NUL, except that the ends of some words may have been overwritten with NULs. */
  predicate Marked(text: string, buf: seq<char>) {
    && |buf| == |text| + 1 && buf[|text|] == '\0'
    && forall i :: 0 <= i < |text| ==> buf[i] == text[i] || (buf[i] == '\0' && !WordChar(text[i]))
  }

  /** The string that starts at w in buf, up to its NUL, is the word w of the line. */
  predicate IsString(text: string, buf: seq<char>, w: Span) {
    && w.lo <= w.hi < |buf| && w.hi <= |text| && buf[w.lo..w.hi] == text[w.lo..w.hi] && buf[w.hi] == '\0'
    && (forall i :: w.lo <= i < w.hi ==> buf[i] != '\0')
  }

  predicate AllStrings(text: string, buf: seq<char>, c: Cmd<Span>) {
    match c
    case Exec(argv) => forall i :: 0 <= i < |argv| ==> IsString(text, buf, argv[i])
    case Redir(d, f, _) => AllStrings(text, buf, d) && IsString(text, buf, f)
    case Pipe(l, r) => AllStrings(text, buf, l) && AllStrings(text, buf, r)
    case List(l, r) => AllStrings(text, buf, l) && AllStrings(text, buf, r)
    case Back(d) => AllStrings(text, buf, d)
  }

  /** Where a NUL has been put it stays; nothing else is overwritten except ends of words. */
  predicate Further(buf: seq<char>, buf': seq<char>) {
    |buf'| == |buf| && forall i :: 0 <= i < |buf| ==> buf'[i] == buf[i] || buf'[i] == '\0'
  }

  lemma StringStays(text: string, buf: seq<char>, buf': seq<char>, w: Span)
    requires IsLine(text) && IsToken(text, w) && IsString(text, buf, w) && Marked(text, buf') && Further(buf, buf')
    ensures IsString(text, buf', w)
  {
    forall i | w.lo <= i < w.hi
      ensures buf'[i] == text[i] && buf'[i] != '\0'
    {
      assert WordChar(text[i]);
    }
  }

  lemma {:induction false} StringsStay(text: string, buf: seq<char>, buf': seq<char>, c: Cmd<Span>)
    requires IsLine(text) && AllTokens(text, c) && AllStrings(text, buf, c) && Marked(text, buf') && Further(buf, buf')
    ensures AllStrings(text, buf', c)
  {
    hide IsToken, IsString, Marked, Further;
    match c
    case Exec(argv) =>
      forall i | 0 <= i < |argv|
        ensures IsString(text, buf', argv[i])
      {
        StringStays(text, buf, buf', argv[i]);
      }
    case Redir(d, f, _) =>
      StringsStay(text, buf, buf', d);
      StringStays(text, buf, buf', f);
    case Pipe(l, r) =>
      StringsStay(text, buf, buf', l);
      StringsStay(text, buf, buf', r);
    case List(l, r) =>
      StringsStay(text, buf, buf', l);
      StringsStay(text, buf, buf', r);
    case Back(d) =>
      StringsStay(text, buf, buf', d);
  }

  /** Ending word w in place. */
  lemma WordEnded(text: string, buf: seq<char>, w: Span)
    requires IsLine(text) && IsToken(text, w) && Marked(text, buf)
    ensures var buf' := buf[w.hi := '\0']; Marked(text, buf') && Further(buf, buf') && IsString(text, buf', w)
  {
    var buf' := buf[w.hi := '\0'];
    forall i | w.lo <= i < w.hi
      ensures buf'[i] == text[i] && buf'[i] != '\0'
    {
      assert WordChar(text[i]);
    }
  }

  lemma FurtherTwice(a: seq<char>, b: seq<char>, c: seq<char>)
    requires Further(a, b) && Further(b, c)
    ensures Further(a, c)
  {
  }

  /** Put a NUL behind every recorded word. */
  method Nulterminate(ghost text: string, buf: array<char>, cmd: Cmd<Span>)
    requires IsLine(text) && AllTokens(text, cmd) && Marked(text, buf[..])
    modifies buf
    ensures Marked(text, buf[..]) && Further(old(buf[..]), buf[..]) && AllStrings(text, buf[..], cmd)
    decreases cmd
  {
    hide IsToken, IsString, Further;
    ghost var b0 := buf[..];
    assert Further(b0, b0) by {
      FurtherSelf(b0);
    }
    match cmd {
      case Exec(argv) =>
        var i := 0;
        while i < |argv|
          invariant 0 <= i <= |argv| && Marked(text, buf[..]) && Further(b0, buf[..])
          invariant forall j :: 0 <= j < i ==> IsString(text, buf[..], argv[j])
        {
          ghost var b := buf[..];
          EndWord(text, buf, argv[i]);
          FurtherTwice(b0, b, buf[..]);
          forall j | 0 <= j < i
            ensures IsString(text, buf[..], argv[j])
          {
            StringStays(text, b, buf[..], argv[j]);
          }
          i := i + 1;
        }
      case Redir(d, f, _) =>
        Nulterminate(text, buf, d);
        ghost var b := buf[..];
        EndWord(text, buf, f);
        FurtherTwice(b0, b, buf[..]);
        StringsStay(text, b, buf[..], d);
      case Pipe(l, r) =>
        Nulterminate(text, buf, l);
        ghost var b := buf[..];
        Nulterminate(text, buf, r);
        FurtherTwice(b0, b, buf[..]);
        StringsStay(text, b, buf[..], l);
      case List(l, r) =>
        Nulterminate(text, buf, l);
        ghost var b := buf[..];
        Nulterminate(text, buf, r);
        FurtherTwice(b0, b, buf[..]);
        StringsStay(text, b, buf[..], l);
      case Back(d) =>
        Nulterminate(text, buf, d);
    }
  }

  method EndWord(ghost text: string, buf: array<char>, w: Span)
    requires IsLine(text) && IsToken(text, w) && Marked(text, buf[..])
    modifies buf
    ensures Marked(text, buf[..]) && Further(old(buf[..]), buf[..]) && IsString(text, buf[..], w)
  {
    ghost var b := buf[..];
    WordEnded(text, b, w);
    buf[w.hi] := '\0';
    assert buf[..] == b[w.hi := '\0'];
  }

  lemma FurtherSelf(b: seq<char>)
    ensures Further(b, b)
  {
  }

  /** Parse a line that stands in buf with its NUL, and end its words in place; Panic on a syntax error. */
  method ReadCmd(text: string, buf: array<char>) returns (r: Parsed)
    requires IsLine(text) && buf[..] == text + ['\0']
    modifies buf
    ensures r == ParseCmd(text)
    ensures r.Ok? ==> AllStrings(text, buf[..], r.cmd)
  {
    r := ReadLine(text, 0);
    if r.Panic? {
      return;
    }
    var _, s := PeekFor(text, r.pos, {});
    if s != |text| {
      return Panic;
    }
    LineTokens(text, 0);
    Nulterminate(text, buf, r.cmd);
    r := Ok(r.cmd, s);
  }
}
