/** Writing a command tree down as a line, with parentheses where the grammar needs them, and reading it back. */
module ShellPrint {
  import opened Shell
  import opened ShellGrammar

  /** Words that need no quoting, and fewer than MAXARGS arguments. */
  predicate Writable(t: Cmd<string>) {
    match t
    case Exec(argv) => |argv| < MAXARGS && forall i :: 0 <= i < |argv| ==> IsWord(argv[i])
    case Redir(d, f, _) => Writable(d) && IsWord(f)
    case Pipe(l, r) => Writable(l) && Writable(r)
    case List(l, r) => Writable(l) && Writable(r)
    case Back(d) => Writable(d)
  }

  /** A command without its outer redirections, and those, innermost first. */
  function Base(t: Cmd<string>): (b: Cmd<string>)
    ensures !b.Redir?
  {
    if t.Redir? then Base(t.cmd) else t
  }

  function Redirs(t: Cmd<string>): (rs: seq<Redirection>) {
    if t.Redir? then Redirs(t.cmd) + [Redirection(t.file, t.mode)] else []
  }

  lemma {:induction false} WrapBase(t: Cmd<string>)
    ensures Wrap(Base(t), Redirs(t)) == t
    ensures Writable(t) ==> Writable(Base(t)) && forall i :: 0 <= i < |Redirs(t)| ==> IsWord(Redirs(t)[i].file)
  {
    if t.Redir? {
      WrapBase(t.cmd);
      WrapMore(Base(t.cmd), Redirs(t.cmd), Redirection(t.file, t.mode));
    }
  }

  function Size(t: Cmd<string>): nat {
    match t
    case Exec(_) => 1
    case Redir(d, _, _) => 1 + Size(d)
    case Pipe(l, r) => 1 + Size(l) + Size(r)
    case List(l, r) => 1 + Size(l) + Size(r)
    case Back(d) => 1 + Size(d)
  }

  lemma {:induction false} BaseSize(t: Cmd<string>)
    ensures Size(Base(t)) <= Size(t)
  {
    if t.Redir? {
      BaseSize(t.cmd);
    }
  }

  /** The words of a simple command, and then its redirections. */
  function Items(argv: seq<string>, rs: seq<Redirection>): (items: seq<Item>) {
    seq(|argv|, i requires 0 <= i < |argv| => Arg(argv[i])) + seq(|rs|, i requires 0 <= i < |rs| => Rd(rs[i]))
  }

  /** A tree as a member of a pipeline. */
  function ExecForm(t: Cmd<string>): (x: Syntax)
    decreases Size(t), 1
  {
    BaseSize(t);
    var b := Base(t);
    if b.Exec? then Plain(Items(b.argv, Redirs(t))) else Paren(Inner(b), Redirs(t))
  }

  /** A compound command, one constructor at a time. */
  function Inner(t: Cmd<string>): (x: Syntax)
    requires t.Pipe? || t.List? || t.Back?
    decreases Size(t), 0
  {
    match t
    case Pipe(l, r) => Piped(ExecForm(l), PipeForm(r))
    case List(l, r) => Semi(BackForm(l), LineForm(r))
    case Back(d) => Amp(BackForm(d))
  }

  function PipeForm(t: Cmd<string>): (x: Syntax)
    decreases Size(t), 2
  {
    if t.Pipe? then Inner(t) else ExecForm(t)
  }

  function BackForm(t: Cmd<string>): (x: Syntax)
    decreases Size(t), 3
  {
    if t.Back? then Inner(t) else PipeForm(t)
  }

  function LineForm(t: Cmd<string>): (x: Syntax)
    decreases Size(t), 4
  {
    if t.List? then Inner(t) else BackForm(t)
  }

  lemma {:induction false} ItemsAre(argv: seq<string>, rs: seq<Redirection>)
    ensures Args(Items(argv, rs)) == argv && Rds(Items(argv, rs)) == rs
    decreases |argv| + |rs|
  {
    var items := Items(argv, rs);
    if argv != [] {
      assert items[1..] == Items(argv[1..], rs);
      ItemsAre(argv[1..], rs);
    } else if rs != [] {
      assert items[1..] == Items(argv, rs[1..]);
      ItemsAre(argv, rs[1..]);
    }
  }

  lemma {:induction false} ExecFormed(t: Cmd<string>)
    requires Writable(t)
    ensures IsExec(ExecForm(t)) && Tree(ExecForm(t)) == t
    decreases Size(t), 1
  {
    hide Inner, Wrap, Items, Args, Rds, IsWord;
    BaseSize(t);
    WrapBase(t);
    var b, rs := Base(t), Redirs(t);
    if b.Exec? {
      ItemsAre(b.argv, rs);
      ItemsOk(b.argv, rs);
    } else {
      InnerFormed(b);
    }
  }

  lemma ItemsOk(argv: seq<string>, rs: seq<Redirection>)
    requires (forall i :: 0 <= i < |argv| ==> IsWord(argv[i])) && forall i :: 0 <= i < |rs| ==> IsWord(rs[i].file)
    ensures forall i :: 0 <= i < |Items(argv, rs)| ==> ItemOk(Items(argv, rs)[i])
  {
    hide IsWord;
  }

  lemma {:induction false} InnerFormed(t: Cmd<string>)
    requires Writable(t) && (t.Pipe? || t.List? || t.Back?)
    ensures IsCommand(Inner(t)) && Tree(Inner(t)) == t
    ensures (t.Pipe? ==> IsPipe(Inner(t))) && (t.Back? ==> IsBack(Inner(t)))
    decreases Size(t), 0
  {
    hide ExecForm, PipeForm, BackForm, LineForm;
    match t {
      case Pipe(l, r) =>
        ExecFormed(l);
        Formed(r);
      case List(l, r) =>
        Formed(l);
        Formed(r);
      case Back(d) =>
        Formed(d);
    }
    Levels(Inner(t));
  }

  lemma {:induction false} Formed(t: Cmd<string>)
    requires Writable(t)
    ensures IsPipe(PipeForm(t)) && Tree(PipeForm(t)) == t
    ensures IsBack(BackForm(t)) && Tree(BackForm(t)) == t
    ensures IsCommand(LineForm(t)) && Tree(LineForm(t)) == t
    decreases Size(t), 2
  {
    hide ExecForm, Inner, IsExec, IsPipe, IsBack, IsCommand, Tree;
    ExecFormed(t);
    ExecLevel(ExecForm(t));
    if t.Pipe? || t.List? || t.Back? {
      InnerFormed(t);
    }
    Levels(PipeForm(t));
    Levels(BackForm(t));
  }

  lemma ExecLevel(x: Syntax)
    ensures IsExec(x) ==> IsPipe(x)
  {
  }

  /** A blank before every token, and one at the end. */
  function Spaces(n: nat): (bs: seq<string>)
    ensures |bs| == n + 1
  {
    seq(n + 1, _ => " ")
  }

  function PrintLine(t: Cmd<string>): (text: string) {
    Lay(Yield(LineForm(t)), Spaces(|Yield(LineForm(t))|))
  }

  /** The parts of a command are commands. */
  lemma CommandParts(x: Syntax)
    requires IsCommand(x)
    ensures match x
      case Plain(_) => IsExec(x)
      case Paren(b, _) => IsExec(x) && IsCommand(b)
      case Piped(l, r) => IsCommand(l) && IsCommand(r)
      case Amp(b) => IsCommand(b)
      case Semi(l, r) => IsCommand(l) && IsCommand(r)
  {
    match x {
      case Plain(_) => assert IsBack(x) && IsPipe(x);
      case Paren(_, _) => assert IsBack(x) && IsPipe(x);
      case Piped(l, r) =>
        assert IsBack(x) && IsPipe(x);
        ExecLevel(l);
        Levels(l);
        Levels(r);
      case Amp(b) =>
        assert IsBack(x);
        Levels(b);
      case Semi(l, r) =>
        Levels(l);
    }
  }

  predicate ToksOk(ts: seq<Tok>) {
    forall i :: 0 <= i < |ts| ==> IsTok(ts[i])
  }

  lemma {:induction false} RedirToksOk(rs: seq<Redirection>)
    requires forall i :: 0 <= i < |rs| ==> IsWord(rs[i].file)
    ensures ToksOk(RedirToks(rs))
  {
    hide IsWord;
    if rs != [] {
      RedirToksOk(rs[1..]);
      OpOk(rs[0].mode);
    }
  }

  lemma OpOk(m: Mode)
    ensures IsTok(Op(m))
  {
  }

  lemma {:induction false} ItemToksOk(items: seq<Item>)
    requires forall i :: 0 <= i < |items| ==> ItemOk(items[i])
    ensures ToksOk(ItemToks(items))
  {
    hide IsWord;
    if items != [] {
      ItemToksOk(items[1..]);
      assert ItemOk(items[0]);
      if items[0].Rd? {
        OpOk(items[0].r.mode);
      }
    }
  }

  lemma SymbolsOk()
    ensures IsTok(TSym('(')) && IsTok(TSym(')')) && IsTok(TSym('|')) && IsTok(TSym('&')) && IsTok(TSym(';'))
  {
  }

  lemma {:induction false} YieldOk(x: Syntax)
    requires IsCommand(x)
    ensures ToksOk(Yield(x))
  {
    hide IsTok, IsCommand, ItemOk, IsWord;
    CommandParts(x);
    SymbolsOk();
    match x
    case Plain(items) => ItemToksOk(items);
    case Paren(b, rs) =>
      YieldOk(b);
      RedirToksOk(rs);
    case Piped(l, r) =>
      YieldOk(l);
      YieldOk(r);
    case Amp(b) => YieldOk(b);
    case Semi(l, r) =>
      YieldOk(l);
      YieldOk(r);
  }

  lemma PrintedIsLayout(t: Cmd<string>)
    requires Writable(t)
    ensures IsLayout(Yield(LineForm(t)), Spaces(|Yield(LineForm(t))|))
  {
    hide Writable, LineForm, Yield, IsTok;
    Formed(t);
    YieldOk(LineForm(t));
  }

  /** Writing any writable tree down, with any blanks between its tokens, and parsing the line gives the tree back. */
  lemma RoundTrip(t: Cmd<string>, bs: seq<string>)
    requires Writable(t) && IsLayout(Yield(LineForm(t)), bs)
    ensures var text := Lay(Yield(LineForm(t)), bs);
      IsLine(text) && ParseCmd(text).Ok? && Words(text, ParseCmd(text).cmd) == t
  {
    hide Writable, LineForm, Yield, IsTok;
    Formed(t);
    AnyLayout(LineForm(t), bs);
  }

  /** The grammar's trees are those that can be written down. */
  lemma {:induction false} TreeWritable(x: Syntax)
    requires IsCommand(x)
    ensures Writable(Tree(x))
  {
    hide IsCommand, IsWord, Args, Rds;
    CommandParts(x);
    match x
    case Plain(items) =>
      ItemWords(items);
      WrapWritable(Exec(Args(items)), Rds(items));
    case Paren(b, rs) =>
      TreeWritable(b);
      WrapWritable(Tree(b), rs);
    case Piped(l, r) =>
      TreeWritable(l);
      TreeWritable(r);
    case Amp(b) => TreeWritable(b);
    case Semi(l, r) =>
      TreeWritable(l);
      TreeWritable(r);
  }

  lemma {:induction false} WrapWritable(t: Cmd<string>, rs: seq<Redirection>)
    requires Writable(t) && forall i :: 0 <= i < |rs| ==> IsWord(rs[i].file)
    ensures Writable(Wrap(t, rs))
    decreases |rs|
  {
    hide IsWord;
    if rs != [] {
      WrapWritable(t, rs[..|rs| - 1]);
    }
  }

  lemma {:induction false} ItemWords(items: seq<Item>)
    requires forall i :: 0 <= i < |items| ==> ItemOk(items[i])
    ensures forall i :: 0 <= i < |Args(items)| ==> IsWord(Args(items)[i])
    ensures forall i :: 0 <= i < |Rds(items)| ==> IsWord(Rds(items)[i].file)
  {
    hide IsWord;
    if items != [] {
      ItemWords(items[1..]);
      assert ItemOk(items[0]);
    }
  }
}
