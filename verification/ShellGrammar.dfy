/** The grammar of command lines (user/sh.c): a line is read as a list of tokens, whatever the blanks between them, and
    the parser accepts exactly the lists that the grammar generates, with the tree the grammar gives them. */
module ShellGrammar {
  import opened Shell

  // ----- trees of words -----

  function Cut(text: string, w: Span): (s: string) {
    if w.lo <= w.hi <= |text| then text[w.lo..w.hi] else ""
  }

  function CutAll(text: string, ws: seq<Span>): (r: seq<string>)
    ensures |r| == |ws|
  {
    seq(|ws|, i requires 0 <= i < |ws| => Cut(text, ws[i]))
  }

  /** The tree with the words themselves in place of their positions. */
  function Words(text: string, c: Cmd<Span>): (t: Cmd<string>) {
    match c
    case Exec(argv) => Exec(CutAll(text, argv))
    case Redir(d, f, m) => Redir(Words(text, d), Cut(text, f), m)
    case Pipe(l, r) => Pipe(Words(text, l), Words(text, r))
    case List(l, r) => List(Words(text, l), Words(text, r))
    case Back(d) => Back(Words(text, d))
  }

  predicate IsWord(w: string) {
    w != "" && forall i :: 0 <= i < |w| ==> WordChar(w[i])
  }

  datatype Redirection = Redirection(file: string, mode: Mode)

  /** A command inside its redirections, the first one innermost. */
  function Wrap(t: Cmd<string>, rs: seq<Redirection>): (r: Cmd<string>)
    decreases |rs|
  {
    if rs == [] then t else Redir(Wrap(t, rs[..|rs| - 1]), rs[|rs| - 1].file, rs[|rs| - 1].mode)
  }

  lemma WrapMore(t: Cmd<string>, rs: seq<Redirection>, r: Redirection)
    ensures Wrap(t, rs + [r]) == Redir(Wrap(t, rs), r.file, r.mode)
  {
    assert (rs + [r])[..|rs|] == rs;
  }

  // ----- tokens -----

  datatype Tok = TWord(w: string) | TSym(c: char) | TAppend

  function Spelling(t: Tok): (s: string) {
    match t case TWord(w) => w case TSym(c) => [c] case TAppend => ">>"
  }

  predicate IsTok(t: Tok) {
    match t case TWord(w) => IsWord(w) case TSym(c) => Symbol(c) case TAppend => true
  }

  function TokOf(text: string, l: Lexed): (t: Tok)
    requires l.q <= l.eq <= |text| && !l.tok.End?
  {
    match l.tok
    case Word => TWord(text[l.q..l.eq])
    case Sym(c) => TSym(c)
    case _ => TAppend
  }

  /** The tokens of the line from position s on. */
  function Tokens(text: string, s: nat): (ts: seq<Tok>)
    requires s <= |text|
    decreases |text| - s
  {
    var l := GetToken(text, s);
    if l.tok.End? then [] else [TokOf(text, l)] + Tokens(text, l.pos)
  }

  // ----- the grammar -----

  /** A simple command is words and redirections in any order. */
  datatype Item = Arg(w: string) | Rd(r: Redirection)

  datatype Syntax =
    | Plain(items: seq<Item>) | Paren(body: Syntax, rs: seq<Redirection>)
    | Piped(first: Syntax, rest: Syntax) | Amp(body: Syntax) | Semi(first: Syntax, rest: Syntax)

  function Args(items: seq<Item>): (ws: seq<string>) {
    if items == [] then [] else (if items[0].Arg? then [items[0].w] else []) + Args(items[1..])
  }

  function Rds(items: seq<Item>): (rs: seq<Redirection>) {
    if items == [] then [] else (if items[0].Rd? then [items[0].r] else []) + Rds(items[1..])
  }

  predicate ItemOk(i: Item) {
    match i case Arg(w) => IsWord(w) case Rd(r) => IsWord(r.file)
  }

  predicate IsExec(x: Syntax)
    decreases x, 0
  {
    match x
    case Plain(items) => |Args(items)| < MAXARGS && forall i :: 0 <= i < |items| ==> ItemOk(items[i])
    case Paren(b, rs) => IsCommand(b) && forall i :: 0 <= i < |rs| ==> IsWord(rs[i].file)
    case _ => false
  }

  predicate IsPipe(x: Syntax)
    decreases x, 1
  {
    if x.Piped? then IsExec(x.first) && IsPipe(x.rest) else IsExec(x)
  }

  predicate IsBack(x: Syntax)
    decreases x, 2
  {
    if x.Amp? then IsBack(x.body) else IsPipe(x)
  }

  predicate IsCommand(x: Syntax)
    decreases x, 3
  {
    if x.Semi? then IsBack(x.first) && IsCommand(x.rest) else IsBack(x)
  }

  function Op(m: Mode): (t: Tok) {
    match m case Input => TSym('<') case Output => TSym('>') case Append => TAppend
  }

  function RedirToks(rs: seq<Redirection>): (ts: seq<Tok>) {
    if rs == [] then [] else [Op(rs[0].mode), TWord(rs[0].file)] + RedirToks(rs[1..])
  }

  function ItemToks(items: seq<Item>): (ts: seq<Tok>) {
    if items == [] then []
    else
      (match items[0] case Arg(w) => [TWord(w)] case Rd(r) => [Op(r.mode), TWord(r.file)]) + ItemToks(items[1..])
  }

  /** The tokens of a command. */
  function Yield(x: Syntax): (ts: seq<Tok>) {
    match x
    case Plain(items) => ItemToks(items)
    case Paren(b, rs) => [TSym('(')] + Yield(b) + [TSym(')')] + RedirToks(rs)
    case Piped(l, r) => Yield(l) + [TSym('|')] + Yield(r)
    case Amp(b) => Yield(b) + [TSym('&')]
    case Semi(l, r) => Yield(l) + [TSym(';')] + Yield(r)
  }

  /** What it means. */
  function Tree(x: Syntax): (t: Cmd<string>) {
    match x
    case Plain(items) => Wrap(Exec(Args(items)), Rds(items))
    case Paren(b, rs) => Wrap(Tree(b), rs)
    case Piped(l, r) => Pipe(Tree(l), Tree(r))
    case Amp(b) => Back(Tree(b))
    case Semi(l, r) => List(Tree(l), Tree(r))
  }

  // ----- reading tokens -----

  lemma {:induction false} SkipTwice(text: string, s: nat)
    requires s <= |text|
    ensures SkipBlanks(text, SkipBlanks(text, s)) == SkipBlanks(text, s)
    decreases |text| - s
  {
    if s < |text| && Blank(text[s]) {
      SkipTwice(text, s + 1);
    }
  }

  /** Leading blanks make no difference. */
  lemma BlanksFirst(text: string, s: nat)
    requires s <= |text|
    ensures GetToken(text, SkipBlanks(text, s)) == GetToken(text, s)
    ensures Tokens(text, SkipBlanks(text, s)) == Tokens(text, s)
  {
    hide SkipBlanks, SkipWord;
    SkipTwice(text, s);
  }

  /** The character a token starts with. */
  function Lead(t: Tok): (c: char)
    requires t.TWord? ==> t.w != ""
  {
    match t case TWord(w) => w[0] case TSym(c) => c case TAppend => '>'
  }

  predicate LeadIn(ts: seq<Tok>, toks: set<char>) {
    ts != [] && (ts[0].TWord? ==> ts[0].w != "") && Lead(ts[0]) in toks
  }

  /** Peeking looks at the first token. */
  lemma PeekIs(text: string, s: nat, toks: set<char>)
    requires s <= |text|
    ensures Peek(text, s, toks) <==> LeadIn(Tokens(text, s), toks)
  {
    hide SkipBlanks, SkipWord;
    WordStarts(text, s);
  }

  lemma FirstToken(text: string, s: nat)
    requires s <= |text|
    ensures var l := GetToken(text, s);
      if l.tok.End? then Tokens(text, s) == []
      else Tokens(text, s) != [] && Tokens(text, s)[0] == TokOf(text, l) && Tokens(text, l.pos) == Tokens(text, s)[1..]
  {
    hide GetToken;
  }

  /** Words of a line are words. */
  lemma {:induction false} WordChars(text: string, s: nat)
    requires IsLine(text) && s <= |text|
    ensures forall i :: s <= i < SkipWord(text, s) ==> WordChar(text[i])
    decreases |text| - s
  {
    if s < |text| && !Blank(text[s]) && !Symbol(text[s]) {
      WordChars(text, s + 1);
    }
  }

  lemma TokenOk(text: string, s: nat)
    requires IsLine(text) && s <= |text|
    ensures var l := GetToken(text, s); !l.tok.End? ==> IsTok(TokOf(text, l))
  {
    hide SkipBlanks, SkipWord, WordChar;
    var q := SkipBlanks(text, s);
    WordStarts(text, s);
    WordChars(text, q);
  }

  // ----- every command the grammar generates is read -----

  const ENDS: set<char> := {'|', ')', '&', ';'}

  /** What may follow: nothing, or one of these symbols. */
  predicate Stops(rest: seq<Tok>, stops: set<char>) {
    rest == [] || (rest[0].TSym? && rest[0].c in stops)
  }

  lemma {:induction false} WrapFirst(t: Cmd<string>, r: Redirection, rs: seq<Redirection>)
    ensures Wrap(Redir(t, r.file, r.mode), rs) == Wrap(t, [r] + rs)
    decreases |rs|
  {
    if rs == [] {
      assert ([r] + rs)[..0] == [];
    } else {
      WrapFirst(t, r, rs[..|rs| - 1]);
      assert ([r] + rs)[..|rs|] == [r] + rs[..|rs| - 1];
    }
  }

  /** One redirection. */
  lemma RedirStep(text: string, c: Cmd<Span>, s: nat, r: Redirection, rest: seq<Tok>) returns (f: Lexed)
    requires s <= |text| && Tokens(text, s) == [Op(r.mode), TWord(r.file)] + rest && IsWord(r.file)
    ensures f.q <= f.eq <= f.pos <= |text| && s < f.pos && Cut(text, Span(f.q, f.eq)) == r.file
    ensures ParseRedirs(text, c, s) == ParseRedirs(text, Redir(c, Span(f.q, f.eq), r.mode), f.pos)
    ensures Tokens(text, f.pos) == rest
  {
    hide GetToken, SkipBlanks, Peek, Tokens, TokOf;
    PeekIs(text, s, {'<', '>'});
    BlanksFirst(text, s);
    var t := GetToken(text, s);
    FirstToken(text, s);
    f := GetToken(text, t.pos);
    FirstToken(text, t.pos);
    KindOf(text, s);
    KindOf(text, t.pos);
  }

  lemma KindOf(text: string, s: nat)
    requires s <= |text|
    ensures var l := GetToken(text, s);
      && (l.tok.End? || match TokOf(text, l)
          case TWord(w) => l.tok.Word? && w == Cut(text, Span(l.q, l.eq))
          case TSym(c) => l.tok == Sym(c)
          case TAppend => l.tok.AppendSym?)
  {
    hide GetToken;
  }

  lemma {:induction false} RedirsRead(text: string, c: Cmd<Span>, s: nat, rs: seq<Redirection>, rest: seq<Tok>)
    requires s <= |text| && Tokens(text, s) == RedirToks(rs) + rest && !LeadIn(rest, {'<', '>'})
    requires forall i :: 0 <= i < |rs| ==> IsWord(rs[i].file)
    ensures var r := ParseRedirs(text, c, s);
      r.Ok? && Tokens(text, r.pos) == rest && Words(text, r.cmd) == Wrap(Words(text, c), rs)
    decreases |rs|
  {
    hide GetToken, SkipBlanks, Peek, Tokens, IsWord, Cut;
    if rs == [] {
      PeekIs(text, s, {'<', '>'});
      BlanksFirst(text, s);
    } else {
      assert Tokens(text, s) == [Op(rs[0].mode), TWord(rs[0].file)] + (RedirToks(rs[1..]) + rest);
      var f := RedirStep(text, c, s, rs[0], RedirToks(rs[1..]) + rest);
      RedirsRead(text, Redir(c, Span(f.q, f.eq), rs[0].mode), f.pos, rs[1..], rest);
      WrapFirst(Words(text, c), rs[0], rs[1..]);
      assert [rs[0]] + rs[1..] == rs;
    }
  }

  /** Redirections, then words each with the redirections behind it. */
  function ParseItems(text: string, c: Cmd<Span>, argc: nat, s: nat): (r: Parsed)
    requires s <= |text|
    ensures r.Ok? ==> s <= r.pos <= |text|
  {
    var r := ParseRedirs(text, c, s);
    if r.Panic? then Panic else ParseArgs(text, r.cmd, argc, r.pos)
  }

  lemma {:induction false} AddArgWords(text: string, c: Cmd<Span>, w: Span, args: seq<string>, rs: seq<Redirection>)
    requires Words(text, c) == Wrap(Exec(args), rs)
    ensures Words(text, AddArg(c, w)) == Wrap(Exec(args + [Cut(text, w)]), rs)
  {
    hide Cut;
    if c.Redir? {
      AddArgWords(text, c.cmd, w, args, rs[..|rs| - 1]);
    } else {
      assert CutAll(text, c.argv + [w]) == CutAll(text, c.argv) + [Cut(text, w)];
    }
  }

  lemma ItemsEnd(text: string, c: Cmd<Span>, argc: nat, s: nat)
    requires s <= |text| && Stops(Tokens(text, s), ENDS)
    ensures var r := ParseItems(text, c, argc, s); r.Ok? && r.cmd == c && Tokens(text, r.pos) == Tokens(text, s)
  {
    hide GetToken, SkipBlanks, Peek, Tokens;
    var q := SkipBlanks(text, s);
    BlanksFirst(text, s);
    PeekIs(text, s, {'<', '>'});
    PeekIs(text, q, ENDS);
    BlanksFirst(text, q);
    FirstToken(text, q);
    if GetToken(text, q).tok.End? {
      NothingBehind(text, q);
    }
  }

  lemma NothingBehind(text: string, s: nat)
    requires s <= |text| && GetToken(text, s).tok.End?
    ensures Tokens(text, GetToken(text, s).pos) == []
  {
    hide SkipWord;
    SkipTwice(text, s);
  }

  lemma WordStep(text: string, c: Cmd<Span>, argc: nat, s: nat, w: string, rest: seq<Tok>) returns (l: Lexed)
    requires s <= |text| && Tokens(text, s) == [TWord(w)] + rest && IsWord(w) && argc + 1 < MAXARGS
    ensures l.q <= l.eq <= l.pos <= |text| && s < l.pos && Cut(text, Span(l.q, l.eq)) == w
    ensures ParseItems(text, c, argc, s) == ParseItems(text, AddArg(c, Span(l.q, l.eq)), argc + 1, l.pos)
    ensures Tokens(text, l.pos) == rest
  {
    hide GetToken, SkipBlanks, Peek, Tokens, TokOf;
    var q := SkipBlanks(text, s);
    BlanksFirst(text, s);
    BlanksFirst(text, q);
    PeekIs(text, s, {'<', '>'});
    PeekIs(text, q, ENDS);
    l := GetToken(text, q);
    FirstToken(text, q);
    KindOf(text, q);
  }

  lemma {:induction false} ItemsRead(text: string, c: Cmd<Span>, argc: nat, s: nat, args: seq<string>,
                                     rs: seq<Redirection>, items: seq<Item>, rest: seq<Tok>)
    requires s <= |text| && Tokens(text, s) == ItemToks(items) + rest && Stops(rest, ENDS)
    requires (forall i :: 0 <= i < |items| ==> ItemOk(items[i])) && argc + |Args(items)| < MAXARGS
    requires Words(text, c) == Wrap(Exec(args), rs)
    ensures var r := ParseItems(text, c, argc, s);
      && r.Ok? && Tokens(text, r.pos) == rest
      && Words(text, r.cmd) == Wrap(Exec(args + Args(items)), rs + Rds(items))
    decreases |items|
  {
    hide GetToken, SkipBlanks, Peek, Tokens, IsWord, Cut, Wrap, AddArg, ParseItems, Args, Rds, ItemToks;
    ItemParts(items);
    if items == [] {
      ItemsEnd(text, c, argc, s);
      assert args + [] == args && rs + [] == rs && [] + rest == rest;
    } else {
      assert ItemOk(items[0]);
      var tail := ItemToks(items[1..]) + rest;
      match items[0]
      case Arg(w) =>
        assert Tokens(text, s) == [TWord(w)] + tail;
        var l := WordStep(text, c, argc, s, w, tail);
        var span := Span(l.q, l.eq);
        AddArgWords(text, c, span, args, rs);
        ItemsRead(text, AddArg(c, span), argc + 1, l.pos, args + [w], rs, items[1..], rest);
        assert args + [w] + Args(items[1..]) == args + Args(items);
      case Rd(r) =>
        assert Tokens(text, s) == [Op(r.mode), TWord(r.file)] + tail;
        var f := RedirStep(text, c, s, r, tail);
        var d := Redir(c, Span(f.q, f.eq), r.mode);
        SameItems(text, c, d, argc, s, f.pos);
        WrapMore(Exec(args), rs, r);
        ItemsRead(text, d, argc, f.pos, args, rs + [r], items[1..], rest);
        assert rs + [r] + Rds(items[1..]) == rs + Rds(items);
    }
  }

  /** A command's words, redirections and tokens, first item first. */
  lemma ItemParts(items: seq<Item>)
    ensures items == [] ==> Args(items) == [] && Rds(items) == [] && ItemToks(items) == []
    ensures items != [] ==>
      match items[0]
      case Arg(w) =>
        && Args(items) == [w] + Args(items[1..]) && Rds(items) == Rds(items[1..])
        && ItemToks(items) == [TWord(w)] + ItemToks(items[1..])
      case Rd(r) =>
        && Args(items) == Args(items[1..]) && Rds(items) == [r] + Rds(items[1..])
        && ItemToks(items) == [Op(r.mode), TWord(r.file)] + ItemToks(items[1..])
  {
  }

  lemma SameItems(text: string, c: Cmd<Span>, d: Cmd<Span>, argc: nat, s: nat, t: nat)
    requires s <= |text| && t <= |text| && ParseRedirs(text, c, s) == ParseRedirs(text, d, t)
    ensures ParseItems(text, c, argc, s) == ParseItems(text, d, argc, t)
  {
  }

  lemma {:induction false} ExecRead(text: string, s: nat, x: Syntax, rest: seq<Tok>)
    requires s <= |text| && IsExec(x) && Tokens(text, s) == Yield(x) + rest && Stops(rest, ENDS)
    ensures var r := ParseExec(text, s);
      r.Ok? && Tokens(text, r.pos) == rest && Words(text, r.cmd) == Tree(x)
    decreases x, 0
  {
    hide GetToken, SkipBlanks, Peek, Tokens, IsWord, Cut, Wrap, ParseRedirs, ParseArgs, ParseBlock;
    BlanksFirst(text, s);
    PeekIs(text, s, {'('});
    match x
    case Plain(items) =>
      FirstItem(items, rest);
      NoRedirections();
      ItemsRead(text, Exec([]), 0, SkipBlanks(text, s), [], [], items, rest);
      assert [] + Args(items) == Args(items) && [] + Rds(items) == Rds(items);
    case Paren(b, rs) =>
      assert Yield(x) + rest == [TSym('(')] + (Yield(b) + ([TSym(')')] + (RedirToks(rs) + rest)));
      BlockRead(text, SkipBlanks(text, s), b, rs, rest);
  }

  lemma NoRedirections()
    ensures Wrap(Exec([]), []) == Exec([]) && CutAll("", []) == []
  {
  }

  lemma FirstItem(items: seq<Item>, rest: seq<Tok>)
    requires (forall i :: 0 <= i < |items| ==> ItemOk(items[i])) && Stops(rest, ENDS)
    ensures !LeadIn(ItemToks(items) + rest, {'('})
  {
    if items != [] {
      hide ItemToks, WordChar;
      var t := FirstOf(items);
      assert (ItemToks(items) + rest)[0] == t;
    }
  }

  lemma FirstOf(items: seq<Item>) returns (t: Tok)
    requires items != [] && ItemOk(items[0])
    ensures ItemToks(items) != [] && ItemToks(items)[0] == t && (t.TWord? ==> t.w != "") && Lead(t) != '('
  {
    t := match items[0] case Arg(w) => TWord(w) case Rd(r) => Op(r.mode);
  }

  /** A token that is a symbol. */
  lemma SymbolStep(text: string, s: nat, c: char, rest: seq<Tok>) returns (p: nat)
    requires s <= |text| && Tokens(text, s) == [TSym(c)] + rest
    ensures p == GetToken(text, SkipBlanks(text, s)).pos && s < p <= |text| && Tokens(text, p) == rest
    ensures forall toks :: Peek(text, s, toks) <==> c in toks
  {
    hide GetToken, SkipBlanks, Peek, Tokens;
    BlanksFirst(text, s);
    FirstToken(text, s);
    p := GetToken(text, SkipBlanks(text, s)).pos;
    forall toks
      ensures Peek(text, s, toks) <==> c in toks
    {
      PeekIs(text, s, toks);
    }
  }

  lemma {:induction false} BlockRead(text: string, s: nat, b: Syntax, rs: seq<Redirection>, rest: seq<Tok>)
    requires s <= |text| && IsCommand(b) && (forall i :: 0 <= i < |rs| ==> IsWord(rs[i].file)) && Stops(rest, ENDS)
    requires Tokens(text, s) == [TSym('(')] + (Yield(b) + ([TSym(')')] + (RedirToks(rs) + rest)))
    ensures var r := ParseBlock(text, s);
      r.Ok? && Tokens(text, r.pos) == rest && Words(text, r.cmd) == Wrap(Tree(b), rs)
    decreases b, 4
  {
    hide GetToken, SkipBlanks, Peek, Tokens, IsWord, Cut, Wrap, ParseRedirs, ParseLine;
    var tail := [TSym(')')] + (RedirToks(rs) + rest);
    var p := SymbolStep(text, s, '(', Yield(b) + tail);
    CommandRead(text, p, b, tail);
    var r := ParseLine(text, p);
    var q := SymbolStep(text, r.pos, ')', RedirToks(rs) + rest);
    RedirsRead(text, r.cmd, q, rs, rest);
  }

  lemma {:induction false} PipeRead(text: string, s: nat, x: Syntax, rest: seq<Tok>)
    requires s <= |text| && IsPipe(x) && Tokens(text, s) == Yield(x) + rest && Stops(rest, {')', '&', ';'})
    ensures var r := ParsePipe(text, s);
      r.Ok? && Tokens(text, r.pos) == rest && Words(text, r.cmd) == Tree(x)
    decreases x, 1
  {
    hide GetToken, SkipBlanks, Peek, Tokens, ParseExec;
    if x.Piped? {
      assert Yield(x) + rest == Yield(x.first) + ([TSym('|')] + (Yield(x.rest) + rest));
      ExecRead(text, s, x.first, [TSym('|')] + (Yield(x.rest) + rest));
      var m := ParseExec(text, s).pos;
      var p := SymbolStep(text, m, '|', Yield(x.rest) + rest);
      PipeRead(text, p, x.rest, rest);
    } else {
      ExecRead(text, s, x, rest);
      var m := ParseExec(text, s).pos;
      PeekIs(text, m, {'|'});
      BlanksFirst(text, m);
    }
  }

  /** A pipeline and the & signs behind it: reading on from there is like having c and reading on from p. */
  lemma {:induction false} BackRead(text: string, s: nat, x: Syntax, rest: seq<Tok>) returns (c: Cmd<Span>, p: nat)
    requires s <= |text| && IsBack(x) && Tokens(text, s) == Yield(x) + rest && Stops(rest, {')', '&', ';'})
    ensures p <= |text| && Tokens(text, p) == rest && Words(text, c) == Tree(x)
    ensures var r := ParsePipe(text, s); r.Ok? && ParseBacks(text, r.cmd, r.pos) == ParseBacks(text, c, p)
    decreases x, 2
  {
    hide GetToken, SkipBlanks, Peek, Tokens, ParsePipe;
    if x.Amp? {
      assert Yield(x) + rest == Yield(x.body) + ([TSym('&')] + rest);
      var m;
      c, m := BackRead(text, s, x.body, [TSym('&')] + rest);
      p := SymbolStep(text, m, '&', rest);
      c := Back(c);
    } else {
      PipeRead(text, s, x, rest);
      c, p := ParsePipe(text, s).cmd, ParsePipe(text, s).pos;
    }
  }

  lemma {:induction false} CommandRead(text: string, s: nat, x: Syntax, rest: seq<Tok>)
    requires s <= |text| && IsCommand(x) && Tokens(text, s) == Yield(x) + rest && Stops(rest, {')'})
    ensures var r := ParseLine(text, s);
      r.Ok? && Tokens(text, r.pos) == rest && Words(text, r.cmd) == Tree(x)
    decreases x, 3
  {
    hide GetToken, SkipBlanks, Peek, Tokens, ParsePipe;
    if x.Semi? {
      var tail := [TSym(';')] + (Yield(x.rest) + rest);
      assert Yield(x) + rest == Yield(x.first) + tail;
      var c, p := BackRead(text, s, x.first, tail);
      var q := SymbolStep(text, p, ';', Yield(x.rest) + rest);
      BlanksEnd(text, c, p);
      CommandRead(text, q, x.rest, rest);
    } else {
      var c, p := BackRead(text, s, x, rest);
      PeekIs(text, p, {'&'});
      PeekIs(text, p, {';'});
      BlanksEnd(text, c, p);
    }
  }

  /** Where there is no & left. */
  lemma BlanksEnd(text: string, c: Cmd<Span>, p: nat)
    requires p <= |text| && !Peek(text, p, {'&'})
    ensures var q := SkipBlanks(text, p);
      && ParseBacks(text, c, p) == Ok(c, q)
      && GetToken(text, SkipBlanks(text, q)) == GetToken(text, SkipBlanks(text, p))
      && SkipBlanks(text, q) == q && Tokens(text, q) == Tokens(text, p) && Peek(text, q, {';'}) == Peek(text, p, {';'})
  {
    hide GetToken, SkipBlanks, Tokens;
    SkipTwice(text, p);
    BlanksFirst(text, p);
  }

  // ----- and nothing else is -----

  lemma WordLead(t: Tok)
    requires IsTok(t)
    ensures t.TWord? ==> t.w != "" && !Symbol(Lead(t))
  {
  }

  lemma Levels(x: Syntax)
    ensures IsPipe(x) ==> IsBack(x)
    ensures IsBack(x) ==> IsCommand(x)
  {
    if x.Amp? || x.Semi? {
      assert !IsExec(x);
      assert !IsPipe(x);
    }
    if x.Semi? {
      assert !IsBack(x);
    }
  }

  /** One redirection has been read. */
  lemma RedirReadStep(text: string, c: Cmd<Span>, s: nat) returns (r: Redirection, f: Lexed)
    requires IsLine(text) && s <= |text| && ParseRedirs(text, c, s).Ok? && Peek(text, s, {'<', '>'})
    ensures f.q <= f.eq <= f.pos <= |text| && s < f.pos && IsWord(r.file) && r.file == Cut(text, Span(f.q, f.eq))
    ensures ParseRedirs(text, c, s) == ParseRedirs(text, Redir(c, Span(f.q, f.eq), r.mode), f.pos)
    ensures Tokens(text, s) == [Op(r.mode), TWord(r.file)] + Tokens(text, f.pos)
  {
    hide GetToken, SkipBlanks, Peek, Tokens, TokOf, IsWord;
    BlanksFirst(text, s);
    PeekIs(text, s, {'<', '>'});
    var t := GetToken(text, s);
    FirstToken(text, s);
    KindOf(text, s);
    f := GetToken(text, t.pos);
    FirstToken(text, t.pos);
    KindOf(text, t.pos);
    TokenOk(text, s);
    WordLead(Tokens(text, s)[0]);
    TokenOk(text, t.pos);
    var mode := if t.tok == Sym('<') then Input else if t.tok == Sym('>') then Output else Append;
    r := Redirection(Cut(text, Span(f.q, f.eq)), mode);
    assert Tokens(text, s) == [Tokens(text, s)[0]] + ([Tokens(text, t.pos)[0]] + Tokens(text, t.pos)[1..]);
  }

  lemma {:induction false} RedirsDerive(text: string, c: Cmd<Span>, s: nat) returns (rs: seq<Redirection>)
    requires IsLine(text) && s <= |text| && ParseRedirs(text, c, s).Ok?
    ensures var r := ParseRedirs(text, c, s);
      && (forall i :: 0 <= i < |rs| ==> IsWord(rs[i].file)) && Tokens(text, s) == RedirToks(rs) + Tokens(text, r.pos)
      && Words(text, r.cmd) == Wrap(Words(text, c), rs)
    decreases |text| - s
  {
    hide GetToken, SkipBlanks, Peek, Tokens, IsWord, Cut;
    if Peek(text, s, {'<', '>'}) {
      var r, f := RedirReadStep(text, c, s);
      var d := Redir(c, Span(f.q, f.eq), r.mode);
      rs := RedirsDerive(text, d, f.pos);
      WrapFirst(Words(text, c), r, rs);
      rs := [r] + rs;
      assert rs[1..] == rs[1..];
    } else {
      rs := [];
      BlanksFirst(text, s);
    }
  }

  /** A word has been read. */
  lemma WordReadStep(text: string, c: Cmd<Span>, argc: nat, s: nat) returns (w: string, l: Lexed)
    requires IsLine(text) && s <= |text| && !Peek(text, s, {'<', '>'}) && !Stops(Tokens(text, s), ENDS)
    requires ParseItems(text, c, argc, s).Ok?
    ensures l.q <= l.eq <= l.pos <= |text| && s < l.pos && IsWord(w) && Cut(text, Span(l.q, l.eq)) == w
    ensures argc + 1 < MAXARGS && Tokens(text, s) == [TWord(w)] + Tokens(text, l.pos)
    ensures ParseItems(text, c, argc, s) == ParseItems(text, AddArg(c, Span(l.q, l.eq)), argc + 1, l.pos)
  {
    hide GetToken, SkipBlanks, Peek, Tokens, TokOf, IsWord;
    var q := SkipBlanks(text, s);
    BlanksFirst(text, s);
    BlanksFirst(text, q);
    PeekIs(text, q, ENDS);
    l := GetToken(text, q);
    FirstToken(text, q);
    KindOf(text, q);
    TokenOk(text, q);
    WordLead(Tokens(text, q)[0]);
    w := Cut(text, Span(l.q, l.eq));
  }

  lemma {:induction false} ItemsDerive(text: string, c: Cmd<Span>, argc: nat, s: nat, args: seq<string>,
                                       rs: seq<Redirection>) returns (items: seq<Item>)
    requires IsLine(text) && s <= |text| && ParseItems(text, c, argc, s).Ok? && argc < MAXARGS
    requires Words(text, c) == Wrap(Exec(args), rs)
    ensures var r := ParseItems(text, c, argc, s);
      && (forall i :: 0 <= i < |items| ==> ItemOk(items[i])) && argc + |Args(items)| < MAXARGS
      && Tokens(text, s) == ItemToks(items) + Tokens(text, r.pos)
      && Words(text, r.cmd) == Wrap(Exec(args + Args(items)), rs + Rds(items))
    decreases |text| - s
  {
    hide GetToken, SkipBlanks, Peek, Tokens, IsWord, Cut, Wrap, AddArg, ParseItems, Args, Rds, ItemToks;
    if Peek(text, s, {'<', '>'}) {
      FirstPart(text, c, argc, s);
      var r, f := RedirReadStep(text, c, s);
      var d := Redir(c, Span(f.q, f.eq), r.mode);
      SameItems(text, c, d, argc, s, f.pos);
      WrapMore(Exec(args), rs, r);
      var more := ItemsDerive(text, d, argc, f.pos, args, rs + [r]);
      items := [Rd(r)] + more;
      ItemParts(items);
      assert items[1..] == more && rs + [r] + Rds(more) == rs + Rds(items);
    } else if Stops(Tokens(text, s), ENDS) {
      items := [];
      ItemsEnd(text, c, argc, s);
      ItemParts(items);
      assert args + [] == args && rs + [] == rs;
    } else {
      var w, l := WordReadStep(text, c, argc, s);
      AddArgWords(text, c, Span(l.q, l.eq), args, rs);
      var more := ItemsDerive(text, AddArg(c, Span(l.q, l.eq)), argc + 1, l.pos, args + [w], rs);
      items := [Arg(w)] + more;
      ItemParts(items);
      assert items[1..] == more && args + [w] + Args(more) == args + Args(items);
    }
  }

  lemma FirstPart(text: string, c: Cmd<Span>, argc: nat, s: nat)
    requires s <= |text| && ParseItems(text, c, argc, s).Ok?
    ensures ParseRedirs(text, c, s).Ok?
  {
  }

  /** A symbol has been read. */
  lemma SymbolReadStep(text: string, s: nat, c: char) returns (p: nat)
    requires s <= |text| && Peek(text, s, {c}) && Symbol(c) && c != '>'
    ensures p == GetToken(text, SkipBlanks(text, s)).pos && s < p <= |text|
    ensures Tokens(text, s) == [TSym(c)] + Tokens(text, p)
  {
    hide SkipBlanks, Tokens, SkipWord;
    BlanksFirst(text, s);
    PeekIs(text, s, {c});
    FirstToken(text, s);
    p := GetToken(text, s).pos;
  }

  lemma {:induction false} ExecDerive(text: string, s: nat) returns (x: Syntax)
    requires IsLine(text) && s <= |text| && ParseExec(text, s).Ok?
    ensures var r := ParseExec(text, s);
      IsExec(x) && Tokens(text, s) == Yield(x) + Tokens(text, r.pos) && Words(text, r.cmd) == Tree(x)
    decreases |text| - s, 0
  {
    hide GetToken, SkipBlanks, Peek, Tokens, IsWord, Cut, Wrap, ParseRedirs, ParseArgs, ParseBlock, ItemOk;
    BlanksFirst(text, s);
    var q := SkipBlanks(text, s);
    if Peek(text, s, {'('}) {
      x := BlockDerive(text, q);
    } else {
      NoRedirections();
      var items := ItemsDerive(text, Exec([]), 0, q, [], []);
      x := Plain(items);
      assert [] + Args(items) == Args(items) && [] + Rds(items) == Rds(items);
    }
  }

  lemma {:induction false} BlockDerive(text: string, s: nat) returns (x: Syntax)
    requires IsLine(text) && s <= |text| && ParseBlock(text, s).Ok?
    ensures var r := ParseBlock(text, s);
      IsExec(x) && Tokens(text, s) == Yield(x) + Tokens(text, r.pos) && Words(text, r.cmd) == Tree(x)
    decreases |text| - s, 0, 0
  {
    hide GetToken, SkipBlanks, Peek, Tokens, IsWord, Cut, Wrap, ParseRedirs, ParseLine;
    var p := SymbolReadStep(text, s, '(');
    var b := CommandDerive(text, p);
    var r := ParseLine(text, p);
    var q := SymbolReadStep(text, r.pos, ')');
    var rs := RedirsDerive(text, r.cmd, q);
    x := Paren(b, rs);
  }

  lemma {:induction false} PipeDerive(text: string, s: nat) returns (x: Syntax)
    requires IsLine(text) && s <= |text| && ParsePipe(text, s).Ok?
    ensures var r := ParsePipe(text, s);
      IsPipe(x) && Tokens(text, s) == Yield(x) + Tokens(text, r.pos) && Words(text, r.cmd) == Tree(x)
    decreases |text| - s, 1
  {
    hide GetToken, SkipBlanks, Peek, Tokens, ParseExec;
    x := ExecDerive(text, s);
    var m := ParseExec(text, s).pos;
    if Peek(text, m, {'|'}) {
      var p := SymbolReadStep(text, m, '|');
      var y := PipeDerive(text, p);
      x := Piped(x, y);
    } else {
      BlanksFirst(text, m);
    }
  }

  lemma {:induction false} BackDerive(text: string, c: Cmd<Span>, s: nat, x: Syntax) returns (y: Syntax)
    requires s <= |text| && IsBack(x) && Words(text, c) == Tree(x)
    ensures var r := ParseBacks(text, c, s);
      IsBack(y) && Yield(x) + Tokens(text, s) == Yield(y) + Tokens(text, r.pos) && Words(text, r.cmd) == Tree(y)
    decreases |text| - s
  {
    hide GetToken, SkipBlanks, Peek, Tokens, Yield, Tree, IsBack;
    if Peek(text, s, {'&'}) {
      var p := SymbolReadStep(text, s, '&');
      AmpOf(x, Tokens(text, p));
      y := BackDerive(text, Back(c), p, Amp(x));
    } else {
      y := x;
      BlanksFirst(text, s);
    }
  }

  lemma AmpOf(x: Syntax, rest: seq<Tok>)
    requires IsBack(x)
    ensures IsBack(Amp(x)) && Tree(Amp(x)) == Back(Tree(x))
    ensures Yield(x) + ([TSym('&')] + rest) == Yield(Amp(x)) + rest
  {
    assert Yield(Amp(x)) == Yield(x) + [TSym('&')];
  }

  lemma {:induction false} CommandDerive(text: string, s: nat) returns (x: Syntax)
    requires IsLine(text) && s <= |text| && ParseLine(text, s).Ok?
    ensures var r := ParseLine(text, s);
      IsCommand(x) && Tokens(text, s) == Yield(x) + Tokens(text, r.pos) && Words(text, r.cmd) == Tree(x)
    decreases |text| - s, 2
  {
    hide GetToken, SkipBlanks, Peek, Tokens, ParsePipe, ParseBacks, IsBack;
    x := PipeDerive(text, s);
    Levels(x);
    var r := ParsePipe(text, s);
    x := BackDerive(text, r.cmd, r.pos, x);
    Levels(x);
    var m := ParseBacks(text, r.cmd, r.pos).pos;
    if Peek(text, m, {';'}) {
      var p := SymbolReadStep(text, m, ';');
      var y := CommandDerive(text, p);
      x := Semi(x, y);
    } else {
      BlanksFirst(text, m);
    }
  }

  /** The parser accepts a line exactly if the grammar generates its tokens, and gives it the tree that the grammar
      does: so no line has two. */
  lemma ParserExact(text: string)
    requires IsLine(text)
    ensures ParseCmd(text).Ok? <==> exists x :: IsCommand(x) && Yield(x) == Tokens(text, 0)
    ensures forall x :: IsCommand(x) && Yield(x) == Tokens(text, 0) ==>
      ParseCmd(text).Ok? && Words(text, ParseCmd(text).cmd) == Tree(x)
  {
    hide GetToken, SkipBlanks, ParseLine, IsCommand, Yield, Tree, Words;
    forall x | IsCommand(x) && Yield(x) == Tokens(text, 0)
      ensures ParseCmd(text).Ok? && Words(text, ParseCmd(text).cmd) == Tree(x)
    {
      assert Yield(x) + [] == Yield(x);
      CommandRead(text, 0, x, []);
      AllRead(text, ParseLine(text, 0).pos);
    }
    if ParseCmd(text).Ok? {
      var x := CommandDerive(text, 0);
      AllRead(text, ParseLine(text, 0).pos);
      assert Yield(x) + [] == Yield(x);
    }
  }

  lemma AllRead(text: string, s: nat)
    requires s <= |text|
    ensures SkipBlanks(text, s) == |text| <==> Tokens(text, s) == []
  {
    hide SkipBlanks, SkipWord;
  }

  // ----- how tokens are laid out in a line -----

  /** Tokens with blanks before, between and behind them. */
  function Lay(ts: seq<Tok>, bs: seq<string>): (text: string)
    requires |bs| == |ts| + 1
  {
    if ts == [] then bs[0] else bs[0] + (Spelling(ts[0]) + Lay(ts[1..], bs[1..]))
  }

  predicate AllBlank(b: string) {
    forall i :: 0 <= i < |b| ==> Blank(b[i])
  }

  /** Two tokens that would run together. */
  predicate Touch(a: Tok, b: Tok) {
    (a.TWord? && b.TWord?) || (a == TSym('>') && (b == TSym('>') || b == TAppend))
  }

  predicate IsLayout(ts: seq<Tok>, bs: seq<string>) {
    && |bs| == |ts| + 1
    && (forall i :: 0 <= i < |bs| ==> AllBlank(bs[i])) && (forall i :: 0 <= i < |ts| ==> IsTok(ts[i]))
    && forall i :: 0 <= i < |ts| - 1 && Touch(ts[i], ts[i + 1]) ==> bs[i + 1] != ""
  }

  lemma {:induction false} BlanksSkipped(text: string, s: nat, b: string, rest: string)
    requires s <= |text| && text[s..] == b + rest && AllBlank(b) && (rest != "" ==> !Blank(rest[0]))
    ensures SkipBlanks(text, s) == s + |b|
    decreases |b|
  {
    if b == "" {
      assert rest != "" ==> text[s] == rest[0];
    } else {
      assert text[s] == b[0] && text[s + 1..] == b[1..] + rest;
      BlanksSkipped(text, s + 1, b[1..], rest);
    }
  }

  lemma {:induction false} WordSkipped(text: string, s: nat, w: string, rest: string)
    requires s <= |text| && text[s..] == w + rest && (forall i :: 0 <= i < |w| ==> WordChar(w[i]))
    requires rest != "" ==> Blank(rest[0]) || Symbol(rest[0])
    ensures SkipWord(text, s) == s + |w|
    decreases |w|
  {
    if w == "" {
      assert rest != "" ==> text[s] == rest[0];
    } else {
      assert text[s] == w[0] && text[s + 1..] == w[1..] + rest;
      WordSkipped(text, s + 1, w[1..], rest);
    }
  }

  /** What stands behind a token does not run together with it. */
  predicate Apart(t: Tok, rest: string) {
    rest == "" || match t case TWord(_) => Blank(rest[0]) || Symbol(rest[0]) case TSym(c) => c != '>' || rest[0] != '>'
      case TAppend => true
  }

  lemma OneToken(text: string, s: nat, b: string, t: Tok, rest: string)
    requires s <= |text| && text[s..] == b + (Spelling(t) + rest) && AllBlank(b) && IsTok(t) && Apart(t, rest)
    ensures var l := GetToken(text, s);
      && !l.tok.End? && TokOf(text, l) == t && l.eq == s + |b| + |Spelling(t)| <= |text|
      && l.pos == SkipBlanks(text, l.eq) && text[l.eq..] == rest
  {
    hide SkipBlanks, SkipWord, GetToken, Apart, Blank, AllBlank, Spelling, IsTok, TokOf, Stands;
    var x, q := Spelling(t), s + |b|;
    FirstChar(t);
    StandsAt(text, s, b, x, rest);
    BlanksBefore(text, s, b, x, rest);
    if t.TWord? {
      WordToken(text, s, q, t, rest);
    } else {
      SymbolToken(text, s, q, t, rest);
    }
  }

  lemma FirstChar(t: Tok)
    requires IsTok(t)
    ensures Spelling(t) != "" && !Blank(Spelling(t)[0])
  {
  }

  /** x is in text at q, and rest is what follows it. */
  predicate Stands(text: string, q: nat, x: string, rest: string)
    requires x != ""
  {
    && q + |x| <= |text| && text[q..q + |x|] == x && text[q..] == x + rest && text[q] == x[0]
    && (|x| > 1 ==> text[q + 1] == x[1])
    && if rest == "" then q + |x| == |text| else q + |x| < |text| && text[q + |x|] == rest[0]
  }

  lemma BlanksBefore(text: string, s: nat, b: string, x: string, rest: string)
    requires s <= |text| && text[s..] == b + (x + rest) && AllBlank(b) && x != "" && !Blank(x[0])
    ensures SkipBlanks(text, s) == s + |b|
  {
    hide SkipBlanks, Blank, AllBlank;
    assert (x + rest)[0] == x[0];
    BlanksSkipped(text, s, b, x + rest);
  }

  lemma StandsAt(text: string, s: nat, b: string, x: string, rest: string)
    requires s <= |text| && text[s..] == b + (x + rest) && x != ""
    ensures Stands(text, s + |b|, x, rest) && s + |b| + |x| <= |text| && text[s + |b| + |x|..] == rest
  {
    var q := s + |b|;
    assert text[q..] == text[s..][|b|..];
    assert text[q + |x|..] == text[q..][|x|..];
    assert text[q..q + |x|] == text[q..][..|x|];
    assert text[q] == text[q..][0];
  }

  lemma WordToken(text: string, s: nat, q: nat, t: Tok, rest: string)
    requires s <= q == SkipBlanks(text, s) && IsTok(t) && t.TWord? && Apart(t, rest)
    requires Spelling(t) != "" && Stands(text, q, Spelling(t), rest)
    ensures var l := GetToken(text, s);
      !l.tok.End? && TokOf(text, l) == t && l.eq == q + |Spelling(t)| && l.pos == SkipBlanks(text, l.eq)
  {
    hide SkipBlanks, SkipWord, Blank;
    WordSkipped(text, q, t.w, rest);
  }

  lemma SymbolToken(text: string, s: nat, q: nat, t: Tok, rest: string)
    requires s <= q == SkipBlanks(text, s) && IsTok(t) && !t.TWord? && Apart(t, rest)
    requires Spelling(t) != "" && Stands(text, q, Spelling(t), rest)
    ensures var l := GetToken(text, s);
      !l.tok.End? && TokOf(text, l) == t && l.eq == q + |Spelling(t)| && l.pos == SkipBlanks(text, l.eq)
  {
    hide SkipBlanks, SkipWord, Blank;
  }

  lemma LayoutApart(ts: seq<Tok>, bs: seq<string>)
    requires IsLayout(ts, bs) && ts != []
    ensures Apart(ts[0], Lay(ts[1..], bs[1..])) && IsLayout(ts[1..], bs[1..])
  {
    hide Blank;
    var us, cs := ts[1..], bs[1..];
    assert forall i :: 0 <= i < |us| ==> us[i] == ts[i + 1];
    assert forall i :: 0 <= i < |cs| ==> cs[i] == bs[i + 1];
    var rest := Lay(us, cs);
    if cs[0] != "" {
      assert rest[0] == cs[0][0];
      NotSymbol(rest[0]);
    } else if us != [] {
      assert rest[0] == Spelling(us[0])[0] && !Touch(ts[0], us[0]);
    }
  }

  lemma NotSymbol(c: char)
    ensures Blank(c) ==> !Symbol(c)
  {
  }

  lemma {:induction false} LayoutLexes(text: string, s: nat, ts: seq<Tok>, bs: seq<string>)
    requires IsLayout(ts, bs) && s <= |text| && text[s..] == Lay(ts, bs)
    ensures Tokens(text, s) == ts
    decreases |ts|
  {
    hide GetToken, SkipBlanks, TokOf, Apart;
    if ts == [] {
      assert Lay(ts, bs) == bs[0] + "";
      BlanksSkipped(text, s, bs[0], "");
      AllRead(text, s);
    } else {
      LayoutApart(ts, bs);
      OneToken(text, s, bs[0], ts[0], Lay(ts[1..], bs[1..]));
      var l := GetToken(text, s);
      LayoutLexes(text, l.eq, ts[1..], bs[1..]);
      BlanksFirst(text, l.eq);
    }
  }

  /** Every line is a layout of its tokens, and of no others. */
  lemma {:induction false} LineIsLayout(text: string, s: nat) returns (bs: seq<string>)
    requires IsLine(text) && s <= |text|
    ensures IsLayout(Tokens(text, s), bs) && text[s..] == Lay(Tokens(text, s), bs)
    decreases |text| - s
  {
    hide GetToken, Blank, IsTok, TokOf, Touch, Tokens, IsLayout, AllBlank, Lay;
    var l := GetToken(text, s);
    FirstToken(text, s);
    BeforeToken(text, s);
    var b := text[s..l.q];
    if l.tok.End? {
      bs := [b];
      OnlyBlanks(b);
      assert text[s..] == b;
    } else {
      var cs := LineIsLayout(text, l.eq);
      var t, ts := TokOf(text, l), Tokens(text, l.eq);
      BlanksFirst(text, l.eq);
      TokenOk(text, s);
      LayoutFacts(ts, cs);
      KeptApart(text, s, ts, cs);
      LayoutMore(t, b, ts, cs);
      bs := [b] + cs;
      assert Tokens(text, s) == [t] + ts;
      Pieces(text, s, l.q, l.eq);
    }
  }

  lemma Pieces(text: string, s: nat, q: nat, e: nat)
    requires s <= q <= e <= |text|
    ensures text[s..] == text[s..q] + (text[q..e] + text[e..])
  {
  }

  lemma OnlyBlanks(b: string)
    requires AllBlank(b)
    ensures IsLayout([], [b]) && Lay([], [b]) == b
  {
  }

  lemma LayoutFacts(ts: seq<Tok>, bs: seq<string>)
    requires IsLayout(ts, bs)
    ensures |bs| == |ts| + 1 && (ts != [] ==> IsTok(ts[0]))
  {
  }

  lemma LayoutMore(t: Tok, b: string, ts: seq<Tok>, bs: seq<string>)
    requires IsLayout(ts, bs) && AllBlank(b) && IsTok(t) && (ts != [] && Touch(t, ts[0]) ==> bs[0] != "")
    ensures IsLayout([t] + ts, [b] + bs) && Lay([t] + ts, [b] + bs) == b + (Spelling(t) + Lay(ts, bs))
  {
    hide AllBlank, IsTok, Touch;
    assert ([t] + ts)[1..] == ts && ([b] + bs)[1..] == bs;
  }

  lemma {:induction false} BlanksAre(text: string, s: nat)
    requires s <= |text|
    ensures AllBlank(text[s..SkipBlanks(text, s)])
    decreases |text| - s
  {
    if s < |text| && Blank(text[s]) {
      BlanksAre(text, s + 1);
      assert text[s..SkipBlanks(text, s)] == [text[s]] + text[s + 1..SkipBlanks(text, s)];
    }
  }

  lemma OneChar(text: string, q: nat)
    requires q < |text|
    ensures text[q..q + 1] == [text[q]]
    ensures q + 1 < |text| && text[q] == text[q + 1] == '>' ==> text[q..q + 2] == ">>"
  {
  }

  lemma TokenCases(text: string, s: nat)
    requires s <= |text|
    ensures var l := GetToken(text, s);
      && l.q == SkipBlanks(text, s) && (l.tok.End? <==> l.q == |text|)
      && (!l.tok.End? ==> l.q < l.eq && l.pos == SkipBlanks(text, l.eq))
      && (l.tok.AppendSym? ==> l.q + 1 < |text| && text[l.q] == text[l.q + 1] == '>' && l.eq == l.q + 2)
      && (l.tok.Sym? ==> l.q < |text| && text[l.q] == l.tok.c && l.eq == l.q + 1)
  {
    hide SkipBlanks, SkipWord, Symbol;
    WordStarts(text, s);
  }

  /** Blanks stand before a token, and then its spelling. */
  lemma BeforeToken(text: string, s: nat)
    requires s <= |text|
    ensures var l := GetToken(text, s);
      && AllBlank(text[s..l.q])
      && if l.tok.End? then l.q == |text| else
        && s < l.eq && l.pos == SkipBlanks(text, l.eq) && text[l.q..l.eq] == Spelling(TokOf(text, l))
  {
    hide SkipBlanks, GetToken, AllBlank;
    BlanksAre(text, s);
    TokenCases(text, s);
    if SkipBlanks(text, s) < |text| {
      OneChar(text, SkipBlanks(text, s));
    }
  }

  /** Tokens that would run together are not next to each other. */
  lemma KeptApart(text: string, s: nat, ts: seq<Tok>, bs: seq<string>)
    requires s <= |text| && !GetToken(text, s).tok.End? && |bs| == |ts| + 1 && (ts != [] ==> IsTok(ts[0]))
    requires text[GetToken(text, s).eq..] == Lay(ts, bs)
    ensures ts != [] && Touch(TokOf(text, GetToken(text, s)), ts[0]) ==> bs[0] != ""
  {
    hide SkipBlanks, SkipWord, WordChar;
    var l := GetToken(text, s);
    WordStarts(text, s);
    if ts != [] && Touch(TokOf(text, l), ts[0]) && bs[0] == "" {
      var x := Spelling(ts[0]);
      assert text[l.eq..] == x + Lay(ts[1..], bs[1..]);
      assert text[l.eq] == text[l.eq..][0] == x[0];
      WordStops(text, l.q);
    }
  }

  lemma {:induction false} WordStops(text: string, s: nat)
    requires s <= |text|
    ensures var e := SkipWord(text, s); e < |text| ==> !WordChar(text[e])
    decreases |text| - s
  {
    if s < |text| && !Blank(text[s]) && !Symbol(text[s]) {
      WordStops(text, s + 1);
    }
  }

  lemma {:induction false} LayLine(ts: seq<Tok>, bs: seq<string>)
    requires IsLayout(ts, bs)
    ensures IsLine(Lay(ts, bs))
    decreases |ts|
  {
    hide Symbol, Blank;
    NoNuls();
    if ts != [] {
      LayoutApart(ts, bs);
      LayLine(ts[1..], bs[1..]);
      var x := Spelling(ts[0]);
      assert IsLine(bs[0]) && IsLine(x);
    } else {
      assert AllBlank(bs[0]);
    }
  }

  lemma NoNuls()
    ensures !Symbol('\0') && !Blank('\0')
  {
  }

  /** However a command's tokens are laid out, it is read. */
  lemma AnyLayout(x: Syntax, bs: seq<string>)
    requires IsCommand(x) && IsLayout(Yield(x), bs)
    ensures var text := Lay(Yield(x), bs);
      IsLine(text) && ParseCmd(text).Ok? && Words(text, ParseCmd(text).cmd) == Tree(x)
  {
    var text := Lay(Yield(x), bs);
    assert text[0..] == text;
    LayLine(Yield(x), bs);
    LayoutLexes(text, 0, Yield(x), bs);
    ParserExact(text);
  }
}
