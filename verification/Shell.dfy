/** The shell's command language (user/sh.c): what the recursive-descent parser computes, as functions of the line and a
    position in it. */
module Shell {
  const MAXARGS: nat := 10

  predicate Blank(c: char) {
    c == ' ' || c == '\t' || c == '\r' || c == '\n' || c == 11 as char
  }

  predicate Symbol(c: char) {
    c == '<' || c == '|' || c == '>' || c == '&' || c == ';' || c == '(' || c == ')'
  }

  predicate WordChar(c: char) {
    !Blank(c) && !Symbol(c) && c != '\0'
  }

  /** A command line: the characters before the terminating NUL. */
  predicate IsLine(text: string) {
    forall i :: 0 <= i < |text| ==> text[i] != '\0'
  }

  /** The character at position s; the NUL at the end. */
  function CharAt(text: string, s: nat): char {
    if s < |text| then text[s] else '\0'
  }

  // ----- trees -----

  /** A word of the line, from its first character to just past its last. */
  datatype Span = Span(lo: nat, hi: nat)

  datatype Mode = Input | Output | Append

  datatype Cmd<W> =
    | Exec(argv: seq<W>) | Redir(cmd: Cmd<W>, file: W, mode: Mode)
    | Pipe(left: Cmd<W>, right: Cmd<W>) | List(left: Cmd<W>, right: Cmd<W>) | Back(cmd: Cmd<W>)

  datatype Parsed = Ok(cmd: Cmd<Span>, pos: nat) | Panic

  // ----- tokens -----

  function SkipBlanks(text: string, s: nat): (r: nat)
    ensures s <= r && (s <= |text| ==> r <= |text|)
    decreases |text| - s
  {
    if s < |text| && Blank(text[s]) then SkipBlanks(text, s + 1) else s
  }

  function SkipWord(text: string, s: nat): (r: nat)
    ensures s <= r && (s <= |text| ==> r <= |text|)
    decreases |text| - s
  {
    if s < |text| && !Blank(text[s]) && !Symbol(text[s]) then SkipWord(text, s + 1) else s
  }

  datatype Token = End | Word | Sym(c: char) | AppendSym

  /** A token, where it starts and ends, and the position of the next one. */
  datatype Lexed = Lexed(tok: Token, q: nat, eq: nat, pos: nat)

  function GetToken(text: string, s: nat): (r: Lexed)
    requires s <= |text|
    ensures s <= r.q <= r.eq <= r.pos <= |text|
    ensures r.tok.End? || s < r.pos
  {
    var q := SkipBlanks(text, s);
    var c := CharAt(text, q);
    if q == |text| then Lexed(End, q, q, q)
    else if c == '>' && CharAt(text, q + 1) == '>' then Lexed(AppendSym, q, q + 2, SkipBlanks(text, q + 2))
    else if Symbol(c) then Lexed(Sym(c), q, q + 1, SkipBlanks(text, q + 1))
    else
      WordStarts(text, s);
      var eq := SkipWord(text, q);
      Lexed(Word, q, eq, SkipBlanks(text, eq))
  }

  lemma {:induction false} NotBlankAfter(text: string, s: nat)
    requires s <= |text|
    ensures SkipBlanks(text, s) < |text| ==> !Blank(text[SkipBlanks(text, s)])
    decreases |text| - s
  {
    if s < |text| && Blank(text[s]) {
      NotBlankAfter(text, s + 1);
    }
  }

  lemma WordStarts(text: string, s: nat)
    requires s <= |text|
    ensures var q := SkipBlanks(text, s); q < |text| && !Symbol(text[q]) ==> q < SkipWord(text, q)
  {
    NotBlankAfter(text, s);
  }

  /** The next non-blank character is one of toks. */
  predicate Peek(text: string, s: nat, toks: set<char>) {
    var q := SkipBlanks(text, s);
    q < |text| && text[q] in toks
  }

  // ----- the parser -----

  function ParseRedirs(text: string, cmd: Cmd<Span>, s: nat): (r: Parsed)
    requires s <= |text|
    ensures r.Ok? ==> s <= r.pos <= |text|
    decreases |text| - s
  {
    var p := SkipBlanks(text, s);
    if !Peek(text, s, {'<', '>'}) then Ok(cmd, p)
    else
      var t := GetToken(text, p);
      var f := GetToken(text, t.pos);
      if !f.tok.Word? then Panic
      else
        var mode := if t.tok == Sym('<') then Input else if t.tok == Sym('>') then Output else Append;
        ParseRedirs(text, Redir(cmd, Span(f.q, f.eq), mode), f.pos)
  }

  /** Arguments added to the command that all the redirections so far are wrapped around. */
  function AddArg(cmd: Cmd<Span>, w: Span): (r: Cmd<Span>) {
    match cmd
    case Exec(argv) => Exec(argv + [w])
    case Redir(c, f, m) => Redir(AddArg(c, w), f, m)
    case _ => cmd
  }

  /** The arguments and redirections of a simple command, argc of them read so far. */
  function ParseArgs(text: string, cmd: Cmd<Span>, argc: nat, s: nat): (r: Parsed)
    requires s <= |text|
    ensures r.Ok? ==> s <= r.pos <= |text|
    decreases |text| - s
  {
    var p := SkipBlanks(text, s);
    if Peek(text, s, {'|', ')', '&', ';'}) then Ok(cmd, p)
    else
      var t := GetToken(text, p);
      if t.tok.End? then Ok(cmd, t.pos)
      else if !t.tok.Word? || argc + 1 >= MAXARGS then Panic
      else
        var r := ParseRedirs(text, AddArg(cmd, Span(t.q, t.eq)), t.pos);
        if r.Panic? then Panic else ParseArgs(text, r.cmd, argc + 1, r.pos)
  }

  function ParseExec(text: string, s: nat): (r: Parsed)
    requires s <= |text|
    ensures r.Ok? ==> s <= r.pos <= |text|
    decreases |text| - s, 0
  {
    if Peek(text, s, {'('}) then ParseBlock(text, SkipBlanks(text, s))
    else
      var r := ParseRedirs(text, Exec([]), SkipBlanks(text, s));
      if r.Panic? then Panic else ParseArgs(text, r.cmd, 0, r.pos)
  }

  function ParseBlock(text: string, s: nat): (r: Parsed)
    requires s <= |text|
    ensures r.Ok? ==> s <= r.pos <= |text|
    decreases |text| - s, 0, 0
  {
    if !Peek(text, s, {'('}) then Panic
    else
      var t := GetToken(text, SkipBlanks(text, s));
      var r := ParseLine(text, t.pos);
      if r.Panic? || !Peek(text, r.pos, {')'}) then Panic
      else ParseRedirs(text, r.cmd, GetToken(text, SkipBlanks(text, r.pos)).pos)
  }

  function ParsePipe(text: string, s: nat): (r: Parsed)
    requires s <= |text|
    ensures r.Ok? ==> s <= r.pos <= |text|
    decreases |text| - s, 1
  {
    var r := ParseExec(text, s);
    if r.Panic? then Panic
    else if !Peek(text, r.pos, {'|'}) then Ok(r.cmd, SkipBlanks(text, r.pos))
    else
      var rest := ParsePipe(text, GetToken(text, SkipBlanks(text, r.pos)).pos);
      if rest.Panic? then Panic else Ok(Pipe(r.cmd, rest.cmd), rest.pos)
  }

  /** The trailing & signs of a command. */
  function ParseBacks(text: string, cmd: Cmd<Span>, s: nat): (r: Parsed)
    requires s <= |text|
    ensures r.Ok? && s <= r.pos <= |text|
    decreases |text| - s
  {
    if Peek(text, s, {'&'}) then ParseBacks(text, Back(cmd), GetToken(text, SkipBlanks(text, s)).pos)
    else Ok(cmd, SkipBlanks(text, s))
  }

  function ParseLine(text: string, s: nat): (r: Parsed)
    requires s <= |text|
    ensures r.Ok? ==> s <= r.pos <= |text|
    decreases |text| - s, 2
  {
    var r := ParsePipe(text, s);
    if r.Panic? then Panic
    else
      var b := ParseBacks(text, r.cmd, r.pos);
      if !Peek(text, b.pos, {';'}) then Ok(b.cmd, SkipBlanks(text, b.pos))
      else
        var rest := ParseLine(text, GetToken(text, SkipBlanks(text, b.pos)).pos);
        if rest.Panic? then Panic else Ok(List(b.cmd, rest.cmd), rest.pos)
  }

  /** A whole line; leftovers are an error. */
  function ParseCmd(text: string): (r: Parsed) {
    var r := ParseLine(text, 0);
    if r.Panic? || SkipBlanks(text, r.pos) != |text| then Panic else Ok(r.cmd, |text|)
  }
}
